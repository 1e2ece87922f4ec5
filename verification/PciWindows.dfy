/** The allocator of PCIe outbound windows for user memory: a stack of records over the modem's address
    space, freed in any order and collected from the top, with one iATU window per record.

    `Space` is the allocator as a value and `Get`, `Put` the two ioctl arms on it; `Allocator` is the same
    struct updated in place. */
module PciWindows {
  import opened Words

  type U64 = x: int | 0 <= x < TWO64
  type I32 = x: int | -TWO31 <= x < TWO31

  /** Truncation to an unsigned word. */
  function Low32(x: nat): (r: nat)
    ensures r < TWO32 && (r == x <==> x < TWO32)
  {
    x % TWO32
  }

  function Low64(x: nat): (r: nat)
    ensures r < TWO64 && (r == x <==> x < TWO64)
  {
    x % TWO64
  }

  /** One mapping: modem address, host address, size, whether it is held, and its iATU window. */
  datatype Record = Record(m: nat, h: nat, size: nat, valid: bool, iatu: nat)

  /** What an outbound window of the hardware is programmed with. */
  datatype Window = Unset | Window(m: nat, h: nat, size: nat)

  datatype Outcome = Granted(m: nat) | Freed | Invalid | OutOfMemory | NoSuchMapping

  /** `recs` are the records below the count; `busy` is the bitmap of iATU windows. */
  datatype Space = Space(max: nat, total: nat, avail: nat, addr: nat, recs: seq<Record>,
                         busy: seq<bool>, windows: seq<Window>)
  {
    predicate Ok() {
      && |recs| <= max
      && |busy| == |windows| == max
      && forall r :: r in recs ==> r.iatu < max
    }
  }

  // ----- The operations -----

  function Setup(max: nat, base: U64, total: nat): (s: Space)
    ensures s.Ok() && s.max == max
  {
    Space(max, total, total, base, [], seq(max, _ => false), seq(max, _ => Unset))
  }

  /** Index of the first clear bit at or after i, or -1. */
  function FirstFreeFrom(busy: seq<bool>, i: nat): (r: int)
    requires i <= |busy|
    ensures -1 <= r < |busy|
    ensures r >= 0 ==> i <= r && !busy[r] && forall k :: i <= k < r ==> busy[k]
    ensures r == -1 ==> forall k :: i <= k < |busy| ==> busy[k]
    decreases |busy| - i
  {
    if i == |busy| then -1 else if !busy[i] then i else FirstFreeFrom(busy, i + 1)
  }

  /** The test of one record in the overlap check, in 64-bit arithmetic. */
  predicate Overlaps(r: Record, addr: nat, size: nat) {
    || (r.h < addr < Low64(r.h + r.size))
    || (r.h < Low64(addr + size) < Low64(r.h + r.size))
  }

  predicate IsOverlap(recs: seq<Record>, addr: nat, size: nat) {
    exists k :: 0 <= k < |recs| && Overlaps(recs[k], addr, size)
  }

  /** Allocation; the modem address handed out and recorded is the low word of the cursor. */
  function Alloc(s: Space, h: nat, size: nat): (Space, Outcome)
    requires s.Ok()
  {
    if size > s.avail then (s, OutOfMemory)
    else if |s.recs| >= s.max then (s, OutOfMemory)
    else
      var m := Low32(s.addr);
      var taken := s.(avail := s.avail - size, addr := Low64(s.addr + size));
      var idx := FirstFreeFrom(s.busy, 0);
      if idx < 0 then (taken, OutOfMemory)
      else (taken.(recs := s.recs + [Record(m, h, size, true, idx)],
                   busy := s.busy[idx := true],
                   windows := s.windows[idx := Window(m, h, size)]),
            Granted(m))
  }

  function Get(s: Space, h: U64, size: I32): (Space, Outcome)
    requires s.Ok()
  {
    if size < 0 then (s, Invalid)
    else if IsOverlap(s.recs, h, size) then (s, Invalid)
    else Alloc(s, h, size)
  }

  /** Collects released records from the top, and stops at one that does not end at the cursor. */
  function Collect(s: Space): (r: Space)
    requires s.Ok()
    ensures r.Ok() && r.max == s.max && r.windows == s.windows
    decreases |s.recs|
  {
    if s.recs == [] then s
    else
      var top := s.recs[|s.recs| - 1];
      if top.valid then s
      else if Low64(top.m + top.size) != s.addr then s
      else Collect(Popped(s))
  }

  lemma CollectPops(s: Space)
    requires s.Ok() && s.recs != []
    requires var top := s.recs[|s.recs| - 1]; !top.valid && Low64(top.m + top.size) == s.addr
    ensures Collect(s) == Collect(Popped(s))
  {
  }

  lemma CollectStops(s: Space)
    requires s.Ok()
    requires s.recs != [] ==> var top := s.recs[|s.recs| - 1]; top.valid || Low64(top.m + top.size) != s.addr
    ensures Collect(s) == s
  {
    hide Popped, Low64, Low32;
  }

  /** Index of the first held record for host address h at or after i, or the count. */
  function FindFrom(recs: seq<Record>, h: nat, i: nat): (k: nat)
    requires i <= |recs|
    ensures i <= k <= |recs|
    ensures k < |recs| ==> recs[k].h == h && recs[k].valid
    ensures forall j :: i <= j < k ==> !(recs[j].h == h && recs[j].valid)
    decreases |recs| - i
  {
    if i == |recs| || (recs[i].h == h && recs[i].valid) then i else FindFrom(recs, h, i + 1)
  }

  function Release(recs: seq<Record>, k: nat): seq<Record>
    requires k < |recs|
  {
    recs[k := recs[k].(valid := false)]
  }

  function Put(s: Space, h: U64): (Space, Outcome)
    requires s.Ok()
  {
    var k := FindFrom(s.recs, h, 0);
    if k == |s.recs| then (s, NoSuchMapping)
    else (Collect(s.(recs := Release(s.recs, k))), Freed)
  }

  datatype Op = GetMap(h: U64, size: I32) | PutMap(h: U64)

  function Step(s: Space, op: Op): (r: Space)
    requires s.Ok()
    ensures r.Ok() && r.max == s.max
  {
    match op
    case GetMap(h, size) => Get(s, h, size).0
    case PutMap(h) => Put(s, h).0
  }

  function Run(s: Space, ops: seq<Op>): (r: Space)
    requires s.Ok()
    ensures r.Ok() && r.max == s.max
    decreases |ops|
  {
    if ops == [] then s else Step(Run(s, ops[..|ops| - 1]), ops[|ops| - 1])
  }

  // ----- What every run keeps -----

  function Sum(recs: seq<Record>): nat {
    if recs == [] then 0 else Sum(recs[..|recs| - 1]) + recs[|recs| - 1].size
  }

  /** Records follow one another from the base without a gap, and record k owns window k. */
  ghost predicate Tiled(base: nat, recs: seq<Record>) {
    forall k :: 0 <= k < |recs| ==> recs[k].m == base + Sum(recs[..k]) && recs[k].iatu == k
  }

  ghost predicate Accounted(base: nat, total: nat, s: Space) {
    && s.Ok()
    && s.total == total
    && Tiled(base, s.recs)
    && s.addr == base + Sum(s.recs)
    && s.avail + Sum(s.recs) == total
    && (forall k :: 0 <= k < s.max ==> (s.busy[k] <==> k < |s.recs|))
    && (forall k :: 0 <= k < |s.recs| ==> s.windows[k] == Window(s.recs[k].m, s.recs[k].h, s.recs[k].size))
  }

  ghost predicate TopHeld(recs: seq<Record>) {
    recs != [] ==> recs[|recs| - 1].valid
  }

  ghost predicate Inv(base: nat, total: nat, s: Space) {
    Accounted(base, total, s) && TopHeld(s.recs)
  }

  lemma {:induction false} SumOfPrefix(recs: seq<Record>, k: nat)
    requires k <= |recs|
    ensures Sum(recs[..k]) <= Sum(recs)
    decreases |recs|
  {
    if k == |recs| {
      assert recs[..k] == recs;
    } else {
      var n := |recs| - 1;
      assert recs[..n][..k] == recs[..k];
      SumOfPrefix(recs[..n], k);
    }
  }

  lemma SumOfNext(recs: seq<Record>, k: nat)
    requires k < |recs|
    ensures Sum(recs[..k + 1]) == Sum(recs[..k]) + recs[k].size
  {
    assert recs[..k + 1][..k] == recs[..k];
  }

  lemma Push(base: nat, recs: seq<Record>, r: Record)
    requires Tiled(base, recs) && r.m == base + Sum(recs) && r.iatu == |recs|
    ensures Tiled(base, recs + [r]) && Sum(recs + [r]) == Sum(recs) + r.size
  {
    var more := recs + [r];
    assert more[..|recs|] == recs;
    forall k | 0 <= k < |more|
      ensures more[k].m == base + Sum(more[..k]) && more[k].iatu == k
    {
      if k < |recs| {
        assert more[..k] == recs[..k];
      }
    }
  }

  lemma Pop(base: nat, recs: seq<Record>)
    requires recs != [] && Tiled(base, recs)
    ensures Tiled(base, recs[..|recs| - 1])
  {
    var less := recs[..|recs| - 1];
    forall k | 0 <= k < |less|
      ensures less[k].m == base + Sum(less[..k]) && less[k].iatu == k
    {
      assert less[..k] == recs[..k];
    }
  }

  lemma TopOfTiled(base: nat, recs: seq<Record>)
    requires recs != [] && Tiled(base, recs)
    ensures
      var n := |recs| - 1;
      recs[n].m == base + Sum(recs[..n]) && recs[n].iatu == n && Sum(recs) == Sum(recs[..n]) + recs[n].size
  {
  }

  lemma {:induction false} SumOfRelease(recs: seq<Record>, k: nat)
    requires k < |recs|
    ensures Sum(Release(recs, k)) == Sum(recs)
    decreases |recs|
  {
    var n := |recs| - 1;
    if k == n {
      assert Release(recs, k)[..n] == recs[..n];
    } else {
      assert Release(recs, k)[..n] == Release(recs[..n], k);
      SumOfRelease(recs[..n], k);
    }
  }

  lemma TiledAfterRelease(base: nat, recs: seq<Record>, k: nat)
    requires k < |recs| && Tiled(base, recs)
    ensures Tiled(base, Release(recs, k))
  {
    var now := Release(recs, k);
    forall j | 0 <= j < |now|
      ensures now[j].m == base + Sum(now[..j]) && now[j].iatu == j
    {
      if j <= k {
        assert now[..j] == recs[..j];
      } else {
        assert now[..j] == Release(recs[..j], k);
        SumOfRelease(recs[..j], k);
      }
    }
  }

  /** Under the accounting, the search for a free window always finds window `count`. */
  lemma FirstFreeIsCount(base: nat, total: nat, s: Space)
    requires Accounted(base, total, s) && |s.recs| < s.max
    ensures FirstFreeFrom(s.busy, 0) == |s.recs|
  {
    assert !s.busy[|s.recs|];
  }

  /** The allocator with one more record on top. */
  function Pushed(s: Space, h: nat, size: nat): (r: Space)
    requires s.Ok() && size <= s.avail && |s.recs| < s.max
    ensures r.Ok()
  {
    var n := |s.recs|;
    s.(avail := s.avail - size, addr := s.addr + size, recs := s.recs + [Record(s.addr, h, size, true, n)],
       busy := s.busy[n := true], windows := s.windows[n := Window(s.addr, h, size)])
  }

  lemma PushKeeps(base: nat, total: nat, s: Space, h: nat, size: nat)
    requires Inv(base, total, s) && size <= s.avail && |s.recs| < s.max
    ensures Inv(base, total, Pushed(s, h, size))
  {
    Push(base, s.recs, Record(s.addr, h, size, true, |s.recs|));
  }

  /** Allocation with the cursor below 4 GiB keeps the accounting, and its window search cannot fail. */
  lemma AllocKeeps(base: nat, total: nat, s: Space, h: nat, size: nat)
    requires Inv(base, total, s) && s.addr < TWO32 && total < TWO32
    ensures Inv(base, total, Alloc(s, h, size).0)
    ensures size <= s.avail && |s.recs| < s.max ==>
      && Alloc(s, h, size).1 == Granted(s.addr)
      && Alloc(s, h, size).0.recs == s.recs + [Record(s.addr, h, size, true, |s.recs|)]
  {
    hide Low32, Low64;
    if size <= s.avail && |s.recs| < s.max {
      FirstFreeIsCount(base, total, s);
      PushKeeps(base, total, s, h, size);
    }
  }

  /** What a map request is told: it is granted exactly when it is not negative, fits the space and the table and
      passes the overlap check, and then it owns the new top record and its window, at the address it is told;
      otherwise nothing changes. */
  lemma GetTells(base: nat, total: nat, s: Space, h: U64, size: I32)
    requires Inv(base, total, s)
    ensures
      var (t, told) := Get(s, h, size);
      && (told.Granted? <==> 0 <= size <= s.avail && |s.recs| < s.max && !IsOverlap(s.recs, h, size))
      && (told.Invalid? <==> size < 0 || IsOverlap(s.recs, h, size))
      && (told.OutOfMemory? <==> 0 <= size && !IsOverlap(s.recs, h, size) && (size > s.avail || |s.recs| == s.max))
      && (!told.Granted? ==> t == s)
      && (told.Granted? ==>
          var n := |s.recs|;
          && told.m == s.addr % TWO32
          && t.recs == s.recs + [Record(told.m, h, size, true, n)]
          && t.windows == s.windows[n := Window(told.m, h, size)]
          && t.avail == s.avail - size && t.addr == (s.addr + size) % TWO64)
  {
    hide IsOverlap;
    if |s.recs| < s.max {
      FirstFreeIsCount(base, total, s);
    }
  }

  /** The records that remain once released ones are dropped from the top. */
  function Trim(recs: seq<Record>): seq<Record> {
    if recs == [] || recs[|recs| - 1].valid then recs else Trim(recs[..|recs| - 1])
  }

  /** A released top record always ends at the cursor, so collection never gets stuck: it drops every
      released record above the highest held one. */
  lemma {:induction false} CollectKeeps(base: nat, total: nat, s: Space)
    requires Accounted(base, total, s) && base + total < TWO64 && total < TWO32
    ensures Inv(base, total, Collect(s))
    ensures Collect(s).recs == Trim(s.recs)
    ensures s.recs != [] ==> s.recs[|s.recs| - 1].m + s.recs[|s.recs| - 1].size == s.addr
    decreases |s.recs|
  {
    assert s.Ok();
    hide Low32, Low64, Collect, Popped, Accounted;
    if s.recs == [] {
      CollectStops(s);
    } else {
      PopKeeps(base, total, s);
      if s.recs[|s.recs| - 1].valid {
        CollectStops(s);
      } else {
        CollectPops(s);
        CollectKeeps(base, total, Popped(s));
      }
    }
  }

  /** The allocator without its top record. */
  function Popped(s: Space): (r: Space)
    requires s.Ok() && s.recs != []
    ensures r.Ok()
  {
    var top := s.recs[|s.recs| - 1];
    s.(addr := top.m, avail := Low32(s.avail + top.size),
       recs := s.recs[..|s.recs| - 1], busy := s.busy[top.iatu := false])
  }

  lemma PopKeeps(base: nat, total: nat, s: Space)
    requires Accounted(base, total, s) && s.recs != [] && total < TWO32
    ensures Accounted(base, total, Popped(s)) && Popped(s).recs == s.recs[..|s.recs| - 1]
    ensures s.recs[|s.recs| - 1].m + s.recs[|s.recs| - 1].size == s.addr <= base + total
  {
    assert Tiled(base, s.recs);
    TopOfTiled(base, s.recs);
    Pop(base, s.recs);
    hide Low32, Low64, Tiled, Sum;
  }

  lemma ReleaseKeeps(base: nat, total: nat, s: Space, k: nat)
    requires Accounted(base, total, s) && k < |s.recs|
    ensures Accounted(base, total, s.(recs := Release(s.recs, k)))
  {
    SumOfRelease(s.recs, k);
    TiledAfterRelease(base, s.recs, k);
  }

  lemma PutKeeps(base: nat, total: nat, s: Space, h: U64)
    requires Inv(base, total, s) && base + total < TWO64 && total < TWO32
    ensures Inv(base, total, Put(s, h).0)
  {
    hide Accounted, TopHeld, Collect, Low32, Low64;
    var k := FindFrom(s.recs, h, 0);
    if k < |s.recs| {
      ReleaseKeeps(base, total, s, k);
      CollectKeeps(base, total, s.(recs := Release(s.recs, k)));
    }
  }

  /** A release fails exactly when nothing is held for the host address; otherwise the first record held for
      it is released, and only it, and released records leave from the top. */
  lemma PutReleasesFirst(base: nat, total: nat, s: Space, h: U64)
    requires Inv(base, total, s) && base + total < TWO64 && total < TWO32
    ensures Put(s, h).1 == NoSuchMapping <==> forall k :: 0 <= k < |s.recs| ==> !(s.recs[k].h == h && s.recs[k].valid)
    ensures Put(s, h).1 == NoSuchMapping ==> Put(s, h).0 == s
    ensures Put(s, h).1 != NoSuchMapping ==>
      exists k :: 0 <= k < |s.recs| && s.recs[k].h == h && s.recs[k].valid
        && (forall j :: 0 <= j < k ==> !(s.recs[j].h == h && s.recs[j].valid))
        && Put(s, h).0.recs == Trim(Release(s.recs, k))
  {
    hide Accounted, TopHeld, Collect;
    var k := FindFrom(s.recs, h, 0);
    if k < |s.recs| {
      ReleaseKeeps(base, total, s, k);
      CollectKeeps(base, total, s.(recs := Release(s.recs, k)));
    }
  }

  lemma {:induction false} TrimIs(recs: seq<Record>)
    ensures
      var n := |Trim(recs)|;
      && n <= |recs| && Trim(recs) == recs[..n]
      && (n > 0 ==> recs[n - 1].valid)
      && forall j :: n <= j < |recs| ==> !recs[j].valid
    decreases |recs|
  {
    if recs != [] && !recs[|recs| - 1].valid {
      TrimIs(recs[..|recs| - 1]);
    }
  }

  lemma TrimOfRelease(recs: seq<Record>, k: nat)
    requires k < |recs|
    ensures
      var left := Trim(Release(recs, k));
      var n := |left|;
      && n <= |recs|
      && (forall j :: 0 <= j < n ==> left[j] == if j == k then recs[j].(valid := false) else recs[j])
      && (forall j :: n <= j < |recs| ==> j == k || !recs[j].valid)
      && (n > 0 ==> n - 1 != k && recs[n - 1].valid)
  {
    hide Trim;
    TrimIs(Release(recs, k));
    assert forall j :: 0 <= j < |recs| && j != k ==> Release(recs, k)[j] == recs[j];
  }

  /** What a release leaves: the first held record of that host address is marked free, and records leave from the
      top as long as they are free. */
  lemma PutTells(base: nat, total: nat, s: Space, h: U64, k: nat)
    requires Inv(base, total, s) && base + total < TWO64 && total < TWO32
    requires k < |s.recs| && s.recs[k].h == h && s.recs[k].valid
    requires forall j :: 0 <= j < k ==> !(s.recs[j].h == h && s.recs[j].valid)
    ensures
      var (t, told) := Put(s, h);
      var n := |t.recs|;
      && told.Freed? && t.windows == s.windows
      && n <= |s.recs|
      && (forall j :: 0 <= j < n ==> t.recs[j] == if j == k then s.recs[j].(valid := false) else s.recs[j])
      && (forall j :: n <= j < |s.recs| ==> j == k || !s.recs[j].valid)
      && (n > 0 ==> n - 1 != k && s.recs[n - 1].valid)
  {
    hide Accounted, TopHeld, Collect, Trim, Release;
    assert FindFrom(s.recs, h, 0) == k;
    ReleaseKeeps(base, total, s, k);
    CollectKeeps(base, total, s.(recs := Release(s.recs, k)));
    TrimOfRelease(s.recs, k);
  }

  lemma StepKeeps(base: nat, total: nat, s: Space, op: Op)
    requires Inv(base, total, s) && s.addr < TWO32 && base + total < TWO64 && total < TWO32
    ensures Inv(base, total, Step(s, op))
  {
    hide Low32, Low64;
    match op
    case GetMap(h, size) =>
      if size >= 0 {
        AllocKeeps(base, total, s, h, size);
      }
    case PutMap(h) => PutKeeps(base, total, s, h);
  }

  /** No request reprograms the window of a recorded mapping. */
  lemma StepKeepsWindows(base: nat, total: nat, s: Space, op: Op, k: nat)
    requires Inv(base, total, s) && k < |s.recs|
    ensures Step(s, op).windows[k] == s.windows[k]
  {
    if |s.recs| < s.max {
      FirstFreeIsCount(base, total, s);
    }
  }

  lemma SetupHolds(max: nat, base: U64, total: nat)
    ensures Inv(base, total, Setup(max, base, total))
  {
  }

  /** In every run over a space that ends below 4 GiB the records tile the used space, the space is
      accounted for, the bitmap is set exactly below the count, every hardware window still maps its
      record, and the top record is held. */
  lemma {:induction false} RunKeeps(max: nat, base: U64, total: nat, ops: seq<Op>)
    requires base + total < TWO32
    ensures Inv(base, total, Run(Setup(max, base, total), ops))
    decreases |ops|
  {
    if ops == [] {
      SetupHolds(max, base, total);
    } else {
      RunKeeps(max, base, total, ops[..|ops| - 1]);
      StepKeeps(base, total, Run(Setup(max, base, total), ops[..|ops| - 1]), ops[|ops| - 1]);
    }
  }

  /** Once nothing is held, in whatever order it was freed, the allocator is back where it started. */
  lemma AllFreedIsInitial(max: nat, base: U64, total: nat, ops: seq<Op>)
    requires base + total < TWO32
    requires var s := Run(Setup(max, base, total), ops); forall r :: r in s.recs ==> !r.valid
    ensures
      var s := Run(Setup(max, base, total), ops);
      s == Setup(max, base, total).(windows := s.windows)
  {
    RunKeeps(max, base, total, ops);
    var s := Run(Setup(max, base, total), ops);
    assert TopHeld(s.recs);
    assert s.busy == Setup(max, base, total).busy;
  }

  /** Every window handed out lies inside the space the allocator was given. */
  lemma WindowsInsideSpace(base: nat, total: nat, s: Space, k: nat)
    requires Inv(base, total, s) && k < |s.recs|
    ensures base <= s.recs[k].m && s.recs[k].m + s.recs[k].size <= base + total
    ensures s.windows[k] == Window(s.recs[k].m, s.recs[k].h, s.recs[k].size)
  {
    assert s.recs[..k + 1][..k] == s.recs[..k];
    SumOfPrefix(s.recs, k + 1);
  }

  lemma TiledApart(base: nat, recs: seq<Record>, i: nat, j: nat)
    requires Tiled(base, recs) && i < j < |recs|
    ensures recs[i].m + recs[i].size <= recs[j].m
  {
    hide Sum;
    assert recs[..j][..i + 1] == recs[..i + 1];
    SumOfNext(recs, i);
    SumOfPrefix(recs[..j], i + 1);
  }

  /** Two records never share modem addresses. */
  lemma WindowsDisjoint(base: nat, total: nat, s: Space, i: nat, j: nat)
    requires Inv(base, total, s) && i < j < |s.recs|
    ensures s.recs[i].m + s.recs[i].size <= s.recs[j].m
  {
    assert Tiled(base, s.recs);
    hide Inv, Tiled;
    TiledApart(base, s.recs, i, j);
  }

  // ----- Host ranges -----

  /** The range [a, a+n) lies clear of the record's range or contains it. */
  ghost predicate ClearOrContains(r: Record, a: nat, n: nat) {
    || a + n <= r.h || r.h + r.size <= a
    || (a <= r.h && r.h + r.size <= a + n)
  }

  /** Without 64-bit wrap, the overlap check refuses a request exactly when it cuts into a recorded range
      without containing it. */
  lemma OverlapCheckIsExact(recs: seq<Record>, a: nat, n: nat)
    requires a + n < TWO64
    requires forall k :: 0 <= k < |recs| ==> recs[k].h + recs[k].size < TWO64
    ensures !IsOverlap(recs, a, n) <==> forall k :: 0 <= k < |recs| ==> ClearOrContains(recs[k], a, n)
  {
    hide Low64;
    forall k | 0 <= k < |recs|
      ensures Overlaps(recs[k], a, n) <==> !ClearOrContains(recs[k], a, n)
    {
    }
  }

  /** For one record the check is exact on all requests that do not wrap exactly when the recorded range does
      not itself wrap past the end of the address space, or has nothing inside it that such a request could
      reach. A range that wraps keeps nothing out. */
  lemma RecordSeenIffNoWrap(r: Record)
    requires r.h < TWO64 && r.size < TWO64
    ensures (forall a: nat, n: nat :: a + n < TWO64 ==> (Overlaps(r, a, n) <==> !ClearOrContains(r, a, n)))
            <==> r.h + r.size < TWO64 || r.size < 2 || r.h == TWO64 - 1
    ensures (exists a: nat, n: nat :: a + n < TWO64 && Overlaps(r, a, n)) <==> r.size >= 2 && r.h + r.size < TWO64
  {
    if r.h + r.size < TWO64 {
      hide Low64;
      assert r.size >= 2 ==> Overlaps(r, r.h + 1, 0);
    } else {
      assert Low64(r.h + r.size) < r.h;
      assert r.size >= 2 ==> !ClearOrContains(r, r.h + 1, 0);
      assert !Overlaps(r, r.h + 1, 0);
    }
  }

  /** Of two recorded host ranges the later one is clear of the earlier one or contains it. */
  ghost predicate Nested(recs: seq<Record>) {
    forall i, j :: 0 <= i < j < |recs| ==> ClearOrContains(recs[i], recs[j].h, recs[j].size)
  }

  ghost predicate HostNested(recs: seq<Record>) {
    && (forall k :: 0 <= k < |recs| ==> recs[k].h + recs[k].size < TWO64)
    && Nested(recs)
  }

  ghost predicate NoWrap(op: Op) {
    op.GetMap? ==> op.h + op.size < TWO64
  }

  lemma {:induction false} CollectShortens(s: Space)
    requires s.Ok()
    ensures Collect(s).recs <= s.recs
    decreases |s.recs|
  {
    if s.recs != [] {
      var top := s.recs[|s.recs| - 1];
      if !top.valid && Low64(top.m + top.size) == s.addr {
        CollectShortens(Popped(s));
      }
    }
  }

  lemma NestedPush(recs: seq<Record>, r: Record)
    requires HostNested(recs) && r.h + r.size < TWO64
    requires forall k :: 0 <= k < |recs| ==> ClearOrContains(recs[k], r.h, r.size)
    ensures HostNested(recs + [r])
  {
  }

  lemma GetKeepsNesting(s: Space, h: U64, size: I32)
    requires s.Ok() && HostNested(s.recs) && h + size < TWO64
    ensures HostNested(Get(s, h, size).0.recs)
  {
    hide HostNested, ClearOrContains, IsOverlap;
    if size >= 0 && !IsOverlap(s.recs, h, size) {
      assert forall k :: 0 <= k < |s.recs| ==> ClearOrContains(s.recs[k], h, size) by {
        NestedHasNoWrap(s.recs);
        OverlapCheckIsExact(s.recs, h, size);
      }
      var more := Get(s, h, size).0.recs;
      if more != s.recs {
        NestedPush(s.recs, more[|s.recs|]);
      }
    }
  }

  lemma NestedHasNoWrap(recs: seq<Record>)
    requires HostNested(recs)
    ensures forall k :: 0 <= k < |recs| ==> recs[k].h + recs[k].size < TWO64
  {
  }

  lemma ReleaseKeepsNesting(recs: seq<Record>, k: nat, n: nat)
    requires HostNested(recs) && k < |recs| && n <= |recs|
    ensures HostNested(Release(recs, k)[..n])
  {
  }

  lemma StepKeepsNesting(s: Space, op: Op)
    requires s.Ok() && HostNested(s.recs) && NoWrap(op)
    ensures HostNested(Step(s, op).recs)
  {
    hide HostNested, Collect, Get;
    match op
    case GetMap(h, size) =>
      GetKeepsNesting(s, h, size);
    case PutMap(h) =>
      var k := FindFrom(s.recs, h, 0);
      if k < |s.recs| {
        var released := s.(recs := Release(s.recs, k));
        CollectShortens(released);
        ReleaseKeepsNesting(s.recs, k, |Collect(released).recs|);
        assert Collect(released).recs == released.recs[..|Collect(released).recs|];
      }
  }

  /** This holds in every run whose requests do not wrap, whatever the space. */
  lemma {:induction false} RunKeepsNesting(max: nat, base: U64, total: nat, ops: seq<Op>)
    requires forall op :: op in ops ==> NoWrap(op)
    ensures HostNested(Run(Setup(max, base, total), ops).recs)
    decreases |ops|
  {
    if ops != [] {
      RunKeepsNesting(max, base, total, ops[..|ops| - 1]);
      StepKeepsNesting(Run(Setup(max, base, total), ops[..|ops| - 1]), ops[|ops| - 1]);
    }
  }

  lemma GetRecords(base: nat, total: nat, s: Space, h: U64, size: I32)
    requires Inv(base, total, s) && base + total < TWO32 && |s.recs| < s.max && 0 <= size <= s.avail
    requires !IsOverlap(s.recs, h, size)
    ensures
      var t := Step(s, GetMap(h, size));
      && Inv(base, total, t)
      && t.recs == s.recs + [Record(s.addr, h, size, true, |s.recs|)]
      && t.avail == s.avail - size && t.addr == s.addr + size
  {
    SpaceAdds(base, total, s);
    AllocKeeps(base, total, s, h, size);
    SpaceAdds(base, total, Step(s, GetMap(h, size)));
    Push(base, s.recs, Record(s.addr, h, size, true, |s.recs|));
  }

  lemma RunOfTwo(s: Space, first: Op, second: Op)
    requires s.Ok()
    ensures Run(s, [first, second]) == Step(Step(s, first), second)
  {
    RunMore(s, [], first);
    RunMore(s, [first], second);
    assert [first] + [second] == [first, second] && [] + [first] == [first];
  }

  lemma WrappedSeesNothing(recs: seq<Record>, a: nat, n: nat)
    requires forall r :: r in recs ==> r.h < TWO64 <= r.h + r.size && r.size < TWO64
    ensures !IsOverlap(recs, a, n)
  {
    forall k | 0 <= k < |recs|
      ensures !Overlaps(recs[k], a, n)
    {
      assert recs[k] in recs;
      assert Low64(recs[k].h + recs[k].size) < recs[k].h;
    }
  }

  lemma FirstRecorded(max: nat, base: U64, total: nat, h: U64, size: I32)
    requires max >= 1 && base + total < TWO32 && 0 <= size <= total
    ensures
      var t := Step(Setup(max, base, total), GetMap(h, size));
      && Inv(base, total, t) && t.max == max
      && t.recs == [Record(base, h, size, true, 0)]
      && t.avail == total - size && t.addr == base + size
  {
    SetupHolds(max, base, total);
    hide Inv, Step;
    GetRecords(base, total, Setup(max, base, total), h, size);
  }

  /** A request for a range that wraps is recorded, and so is any later one inside it. */
  lemma WrapLetsIn(max: nat, base: U64, total: nat, h: U64, size: I32, a: U64, n: I32)
    requires max >= 2 && base + total < TWO32 && 0 <= size && 0 <= n && size + n <= total
    requires h + size >= TWO64 && h < a && a + n < TWO64
    ensures Run(Setup(max, base, total), [GetMap(h, size), GetMap(a, n)]).recs
         == [Record(base, h, size, true, 0), Record(base + size, a, n, true, 1)]
  {
    hide Inv, Step, Run, IsOverlap, Setup, Low64;
    RunOfTwo(Setup(max, base, total), GetMap(h, size), GetMap(a, n));
    FirstRecorded(max, base, total, h, size);
    var t := Step(Setup(max, base, total), GetMap(h, size));
    WrappedSeesNothing(t.recs, a, n);
    GetRecords(base, total, t, a, n);
  }

  /** For instance: the second range lies strictly inside the first, so they are not nested as they should be. */
  lemma WrapBreaksNesting(max: nat, base: U64, total: nat)
    requires max >= 2 && base + total < TWO32 && total >= 0x3000
    ensures
      var recs := Run(Setup(max, base, total), [GetMap(TWO64 - 0x1000, 0x2000), GetMap(TWO64 - 0x800, 0x100)]).recs;
      && |recs| == 2
      && recs[0].h < recs[1].h && recs[1].h + recs[1].size < recs[0].h + recs[0].size
      && !Nested(recs)
  {
    WrapLetsIn(max, base, total, TWO64 - 0x1000, 0x2000, TWO64 - 0x800, 0x100);
    var recs := Run(Setup(max, base, total), [GetMap(TWO64 - 0x1000, 0x2000), GetMap(TWO64 - 0x800, 0x100)]).recs;
    assert !ClearOrContains(recs[0], recs[1].h, recs[1].size);
  }

  /** After a first request, all runs of requests that do not wrap keep the ranges nested exactly when the
      first one did not wrap either. */
  lemma NestingIffNoWrap(max: nat, base: U64, total: nat, h: U64, size: I32)
    requires max >= 2 && base + total < TWO32 && 0 <= size <= total && h < TWO64 - 1
    ensures (forall ops: seq<Op> :: (forall op :: op in ops ==> NoWrap(op)) ==>
              Nested(Run(Setup(max, base, total), [GetMap(h, size)] + ops).recs))
            <==> h + size < TWO64
  {
    hide Run;
    if h + size < TWO64 {
      forall ops: seq<Op> | forall op :: op in ops ==> NoWrap(op)
        ensures Nested(Run(Setup(max, base, total), [GetMap(h, size)] + ops).recs)
      {
        RunKeepsNesting(max, base, total, [GetMap(h, size)] + ops);
      }
    } else {
      WrapLetsIn(max, base, total, h, size, h + 1, 0);
      var ops := [GetMap(h + 1, 0)];
      assert [GetMap(h, size)] + ops == [GetMap(h, size), GetMap(h + 1, 0)];
      var recs := Run(Setup(max, base, total), [GetMap(h, size)] + ops).recs;
      assert !ClearOrContains(recs[0], recs[1].h, recs[1].size);
    }
  }

  // ----- Why the space must end below 4 GiB -----

  /** All recorded host ranges end by x. */
  ghost predicate HostBelow(recs: seq<Record>, x: nat) {
    forall k :: 0 <= k < |recs| ==> recs[k].h + recs[k].size <= x
  }

  lemma ClearAbove(recs: seq<Record>, x: nat, n: nat)
    requires HostBelow(recs, x) && x + n < TWO64
    ensures !IsOverlap(recs, x, n)
  {
    OverlapCheckIsExact(recs, x, n);
  }

  lemma RunMore(s: Space, ops: seq<Op>, op: Op)
    requires s.Ok()
    ensures Run(s, ops + [op]) == Step(Run(s, ops), op)
  {
    assert (ops + [op])[..|ops|] == ops;
  }

  /** A request for the rest of the space, or as much of it as fits a signed word, just above all others. */
  lemma TakePiece(max: nat, base: U64, total: nat, ops: seq<Op>) returns (more: seq<Op>)
    requires
      var s := Run(Setup(max, base, total), ops);
      Inv(base, total, s) && s.addr < TWO32 && total < TWO32 && |s.recs| < max && HostBelow(s.recs, Sum(s.recs))
    ensures
      var s := Run(Setup(max, base, total), ops);
      var t := Run(Setup(max, base, total), more);
      && Inv(base, total, t) && |t.recs| == |s.recs| + 1 && HostBelow(t.recs, Sum(t.recs))
      && t.avail == if s.avail < TWO31 then 0 else s.avail - (TWO31 - 1)
  {
    hide Accounted, TopHeld, FirstFreeFrom, IsOverlap;
    var s := Run(Setup(max, base, total), ops);
    assert s.avail + Sum(s.recs) == total by {
      SpaceAdds(base, total, s);
    }
    var h, size := Sum(s.recs), if s.avail < TWO31 then s.avail else TWO31 - 1;
    ClearAbove(s.recs, h, size);
    AllocKeeps(base, total, s, h, size);
    RunMore(Setup(max, base, total), ops, GetMap(h, size));
    more := ops + [GetMap(h, size)];
    var t := Run(Setup(max, base, total), more);
    assert t.recs[..|s.recs|] == s.recs;
  }

  lemma SpaceAdds(base: nat, total: nat, s: Space)
    requires Inv(base, total, s)
    ensures s.avail + Sum(s.recs) == total && s.addr == base + Sum(s.recs)
  {
  }

  /** An empty request with the cursor at 4 GiB or above records the low word of the address. */
  lemma EmptyRequestTruncates(max: nat, base: U64, total: nat, ops: seq<Op>) returns (more: seq<Op>)
    requires
      var s := Run(Setup(max, base, total), ops);
      Inv(base, total, s) && s.addr >= TWO32 && total < TWO32 && |s.recs| < max && HostBelow(s.recs, Sum(s.recs))
    ensures !Tiled(base, Run(Setup(max, base, total), more).recs)
  {
    hide Low64, IsOverlap, Setup;
    var s := Run(Setup(max, base, total), ops);
    var h := Sum(s.recs);
    ClearAbove(s.recs, h, 0);
    FirstFreeIsCount(base, total, s);
    RunMore(Setup(max, base, total), ops, GetMap(h, 0));
    more := ops + [GetMap(h, 0)];
    var t := Run(Setup(max, base, total), more);
    assert t.recs == s.recs + [Record(Low32(s.addr), h, 0, true, |s.recs|)];
    assert t.recs[..|s.recs|] == s.recs;
  }

  /** If the space reaches 4 GiB, some run breaks the tiling: fill the space up to there in at most three
      requests, then ask for nothing. */
  lemma FullSpaceBreaksTiling(max: nat, base: U64, total: nat) returns (ops: seq<Op>)
    requires max >= 4 && total < TWO32 && base + total >= TWO32
    ensures !Tiled(base, Run(Setup(max, base, total), ops).recs)
  {
    hide Accounted, TopHeld, Tiled;
    SetupHolds(max, base, total);
    ops := [];
    SpaceAdds(base, total, Run(Setup(max, base, total), ops));
    for i := 0 to 3
      invariant
        var s := Run(Setup(max, base, total), ops);
        && Inv(base, total, s) && |s.recs| <= i && HostBelow(s.recs, Sum(s.recs))
        && (s.addr < TWO32 ==> s.avail <= (3 - i) * (TWO31 - 1))
    {
      var s := Run(Setup(max, base, total), ops);
      SpaceAdds(base, total, s);
      if s.addr < TWO32 {
        ops := TakePiece(max, base, total, ops);
        SpaceAdds(base, total, Run(Setup(max, base, total), ops));
      }
    }
    SpaceAdds(base, total, Run(Setup(max, base, total), ops));
    ops := EmptyRequestTruncates(max, base, total, ops);
  }

  /** The tiling holds in every run exactly when the space ends below 4 GiB. */
  lemma TilingIffSpaceBelow4GiB(max: nat, base: U64, total: nat)
    requires max >= 4 && total < TWO32
    ensures (forall ops: seq<Op> :: Tiled(base, Run(Setup(max, base, total), ops).recs)) <==> base + total < TWO32
  {
    if base + total < TWO32 {
      forall ops: seq<Op>
        ensures Tiled(base, Run(Setup(max, base, total), ops).recs)
      {
        RunKeeps(max, base, total, ops);
      }
    } else {
      var ops := FullSpaceBreaksTiling(max, base, total);
    }
  }

  // ----- The allocator updated in place -----

  class Allocator {
    const max: nat
    var total: nat
    var avail: nat
    var addr: nat
    var cnt: nat
    const cbs: array<Record>
    const busy: array<bool>
    const windows: array<Window>

    ghost predicate Valid()
      reads this, cbs, busy, windows
    {
      && cbs.Length == busy.Length == windows.Length == max
      && cnt <= max
      && View().Ok()
    }

    /** The allocator with only its first n records. */
    ghost function Bottom(n: nat): Space
      requires cbs.Length == busy.Length == windows.Length == max && n <= max
      reads this, cbs, busy, windows
    {
      Space(max, total, avail, addr, cbs[..n], busy[..], windows[..])
    }

    ghost function View(): Space
      requires cbs.Length == busy.Length == windows.Length == max && cnt <= max
      reads this, cbs, busy, windows
    {
      Bottom(cnt)
    }

    constructor (max: nat, base: U64, total: nat)
      ensures Valid() && fresh(cbs) && fresh(busy) && fresh(windows)
      ensures View() == Setup(max, base, total)
    {
      this.max := max;
      this.total := total;
      avail := total;
      addr := base;
      cnt := 0;
      cbs := new Record[max](_ => Record(0, 0, 0, false, 0));
      busy := new bool[max](_ => false);
      windows := new Window[max](_ => Unset);
    }

    method GetIatuIdx() returns (idx: int)
      requires Valid()
      modifies busy
      ensures idx == FirstFreeFrom(old(busy[..]), 0)
      ensures busy[..] == if idx < 0 then old(busy[..]) else old(busy[..])[idx := true]
    {
      idx := 0;
      while idx < max
        invariant 0 <= idx <= max
        invariant FirstFreeFrom(busy[..], 0) == FirstFreeFrom(busy[..], idx)
        invariant busy[..] == old(busy[..])
      {
        if !busy[idx] {
          busy[idx] := true;
          return;
        }
        idx := idx + 1;
      }
      idx := -1;
    }

    method MapAlloc(h: U64, size: nat) returns (r: Outcome)
      requires Valid()
      modifies this, cbs, busy, windows
      ensures Valid()
      ensures (View(), r) == Alloc(old(View()), h, size)
    {
      hide Low32, Low64;
      if size > avail {
        return OutOfMemory;
      }
      if cnt >= max {
        return OutOfMemory;
      }
      var m := Low32(addr);
      avail := avail - size;
      addr := Low64(addr + size);
      var idx := GetIatuIdx();
      if idx < 0 {
        return OutOfMemory;
      }
      cbs[cnt] := Record(m, h, size, true, idx);
      cnt := cnt + 1;
      windows[idx] := Window(m, h, size);
      r := Granted(m);
      assert cbs[..cnt] == old(cbs[..cnt]) + [Record(m, h, size, true, idx)];
    }

    method MapFreeGc()
      requires Valid()
      modifies this, busy
      ensures Valid()
      ensures View() == Collect(old(View()))
    {
      hide Collect, Low32, Low64;
      var ii := cnt;
      while ii > 0
        invariant 0 <= ii <= cnt <= max
        invariant Bottom(ii).Ok()
        invariant Collect(Bottom(ii)) == Collect(old(View()))
        decreases ii
      {
        var cb := cbs[ii - 1];
        if cb.valid {
          break;
        }
        if Low64(cb.m + cb.size) == addr {
          CollectPops(Bottom(ii));
          PopTop(ii);
        } else {
          break;
        }
        ii := ii - 1;
      }
      CollectStops(Bottom(ii));
      cnt := ii;
    }

    method PopTop(n: nat)
      requires cbs.Length == busy.Length == windows.Length == max && 0 < n <= max && Bottom(n).Ok()
      modifies this`addr, this`avail, busy
      ensures Bottom(n - 1) == Popped(old(Bottom(n)))
    {
      hide Low32;
      var cb := cbs[n - 1];
      assert cb in Bottom(n).recs;
      addr := cb.m;
      avail := Low32(avail + cb.size);
      busy[cb.iatu] := false;
      assert cbs[..n][..n - 1] == cbs[..n - 1];
    }

    method MapFree(h: U64) returns (r: Outcome)
      requires Valid()
      modifies this, cbs, busy
      ensures Valid()
      ensures (View(), r) == Put(old(View()), h)
    {
      var ii := 0;
      while ii < cnt
        invariant ii <= cnt
        invariant FindFrom(cbs[..cnt], h, 0) == FindFrom(cbs[..cnt], h, ii)
      {
        if cbs[ii].h == h && cbs[ii].valid {
          break;
        }
        ii := ii + 1;
      }
      if ii == cnt {
        return NoSuchMapping;
      }
      cbs[ii] := cbs[ii].(valid := false);
      assert cbs[..cnt] == Release(old(cbs[..cnt]), ii);
      MapFreeGc();
      r := Freed;
    }

    method CheckOverlap(h: U64, size: nat) returns (overlap: bool)
      requires Valid()
      ensures overlap == IsOverlap(View().recs, h, size)
    {
      for ii := 0 to cnt
        invariant forall k :: 0 <= k < ii ==> !Overlaps(cbs[k], h, size)
      {
        if Overlaps(cbs[ii], h, size) {
          assert Overlaps(View().recs[ii], h, size);
          return true;
        }
      }
      overlap := false;
    }

    method GetPciMap(h: U64, size: I32) returns (r: Outcome)
      requires Valid()
      modifies this, cbs, busy, windows
      ensures Valid()
      ensures (View(), r) == Get(old(View()), h, size)
    {
      if size < 0 {
        return Invalid;
      }
      var overlap := CheckOverlap(h, size);
      if overlap {
        return Invalid;
      }
      r := MapAlloc(h, size);
    }
  }
}
