/** The host buffer shared with the modems: its division among devices when the module is loaded, and the
    identity and window each device keeps. */
module ScratchLayout {
  import opened Words

  const MB := 0x10_0000
  const INT_MAX := 0x7fff_ffff

  const VSPA_FW_SIZE := 10 * MB
  const OVERLAY_SIZE := 2 * MB
  const MAX_MODEM := 4

  // ----- Sizes, fixed when the module is loaded -----

  /** Module parameters, and the sizes derived from them. `logger` is the size of the modem logs, which
      together with the firmware image fill 4 MB. */
  datatype Sizes = Sizes(page: nat, global: nat, num: nat, share: nat, host: nat, rf: nat, logger: nat)
  {
    ghost predicate Plausible() {
      && page > 0 && 2 * page <= MB
      && 1 <= num <= MAX_MODEM && global <= INT_MAX
      && logger <= 4 * MB
      && share + host + rf + 16 * MB + 4 * page <= INT_MAX
    }

    function Image(): int { 4 * MB - logger }

    /** What each modem needs besides its host data. */
    function Base(): int {
      Image() + logger + VSPA_FW_SIZE + OVERLAY_SIZE + share + rf
    }

    /** The part of the buffer one modem gets. */
    function PerModem(): int
      requires page > 0
    {
      AlignUp(Base() + host, page)
    }
  }

  /** A 32-bit signed product or sum as the processor leaves it. */
  function Int32(x: int): int {
    (x + 0x8000_0000) % TWO32 - 0x8000_0000
  }

  /** The host-data size chosen when none is given: what is left per modem, less 1 MB if there is more. */
  function AutoHost(s: Sizes): nat
    requires s.num > 0
  {
    var sizePerModem := s.global / s.num;
    if s.Base() < sizePerModem then
      var left := sizePerModem - s.Base();
      if left > MB then left - MB else left
    else 0
  }

  /** The sizes after module init has aligned and completed them. */
  function Settled(s: Sizes): Sizes
    requires s.page > 0 && s.num > 0
  {
    var a := s.(share := AlignedUp(s.share, s.page), rf := AlignedUp(s.rf, s.page));
    a.(host := AlignedUp(if a.host == 0 then AutoHost(a) else a.host, a.page))
  }

  function AlignedUp(x: nat, a: nat): (r: nat)
    requires a > 0
    ensures x <= r < x + a && r % a == 0 && r == AlignUp(x, a)
  {
    AlignBounds(x, a);
    AlignUp(x, a)
  }

  /** The check at module init, in the arithmetic it is done in. */
  predicate Admitted(s: Sizes)
    requires s.page > 0
  {
    Int32(s.num * s.PerModem()) <= s.global
  }

  /** Where the window of device `id` starts in the buffer; it ends where the next one starts. */
  function WindowStart(s: Sizes, id: nat): int
    requires s.page > 0
  {
    id * s.PerModem()
  }

  ghost predicate WindowInside(s: Sizes, id: nat)
    requires s.page > 0
  {
    0 <= WindowStart(s, id) && WindowStart(s, id + 1) <= s.global
  }

  lemma MulMonotone(a: int, b: int, c: int)
    requires a <= b && c >= 0
    ensures a * c <= b * c
  {
    assert (b - a) * c >= 0;
  }

  lemma Int32Exact(x: nat)
    ensures x <= INT_MAX ==> Int32(x) == x
  {
  }

  /** No sum made on the way to the settled sizes overflows an int, if automatic sizing leaves two pages. */
  lemma SumsFitInt(s: Sizes)
    requires s.Plausible() && (s.host == 0 ==> s.global / s.num + 2 * s.page <= INT_MAX)
    ensures
      var a := Settled(s);
      a.Base() + a.host + s.page - 1 <= INT_MAX
  {
    hide AlignUp;
    AlignedIffUnchanged(0, s.page);
    assert s.global / s.num >= 0;
  }

  /** A configuration that was admitted gives every modem a window inside the buffer exactly when the
      product in the check did not overflow. */
  lemma AdmissionExact(s: Sizes)
    requires s.page > 0 && s.num > 0 && s.PerModem() >= 0 && s.global <= INT_MAX && Admitted(s)
    ensures (forall id :: 0 <= id < s.num ==> WindowInside(s, id)) <==> s.num * s.PerModem() <= INT_MAX
  {
    hide Int32, Sizes.PerModem;
    var per := s.PerModem();
    MulMonotone(0, s.num, per);
    Int32Exact(s.num * per);
    if s.num * per <= INT_MAX {
      forall id | 0 <= id < s.num
        ensures WindowInside(s, id)
      {
        MulMonotone(0, id, per);
        MulMonotone(id + 1, s.num, per);
      }
    } else {
      assert !WindowInside(s, s.num - 1);
    }
  }

  /** Without an overflow, exactly the configurations that fit are admitted. */
  lemma AdmittedIffInside(s: Sizes)
    requires s.page > 0 && s.num > 0 && s.PerModem() >= 0 && s.num * s.PerModem() <= INT_MAX
    ensures Admitted(s) <==> forall id :: 0 <= id < s.num ==> WindowInside(s, id)
  {
    hide Int32, Sizes.PerModem;
    var per := s.PerModem();
    MulMonotone(0, s.num, per);
    Int32Exact(s.num * per);
    if s.num * per <= s.global {
      forall id | 0 <= id < s.num
        ensures WindowInside(s, id)
      {
        MulMonotone(0, id, per);
        MulMonotone(id + 1, s.num, per);
      }
    } else {
      assert !WindowInside(s, s.num - 1);
    }
  }

  /** Four modems of 1 GB each are admitted into any buffer: the product overflows to nothing. */
  lemma OverflowIsAdmitted(global: nat)
    requires global <= INT_MAX
    ensures
      var s := Sizes(0x1000, global, 4, 0x3f00_0000, 0, 0, 0);
      Admitted(s) && !WindowInside(s, 3)
  {
  }

  lemma WindowsDisjoint(s: Sizes, i: nat, j: nat)
    requires s.page > 0 && s.PerModem() >= 0 && i < j
    ensures WindowStart(s, i + 1) <= WindowStart(s, j)
  {
    hide Sizes.PerModem;
    MulMonotone(i + 1, j, s.PerModem());
  }

  /** Host data sized automatically, with more than 1 MB left per modem, always passes admission. */
  lemma AutoSizingPasses(s: Sizes)
    requires s.Plausible() && s.host == 0
    requires var a := Settled(s); s.global / s.num - a.Base() > MB
    ensures Admitted(Settled(s)) && s.num * Settled(s).PerModem() <= s.global
  {
    hide AlignUp, Int32;
    var a := Settled(s);
    AlignBounds(a.Base() + a.host, a.page);
    var per, share := a.PerModem(), s.global / s.num;
    assert per <= share;
    MulMonotone(0, s.num, per);
    MulMonotone(per, share, s.num);
    DivideBack(s.global, s.num);
    Int32Exact(s.num * per);
  }

  /** It leaves each modem's part at most 1 MB smaller than its share of the buffer, and less than two pages short
      of that. */
  lemma AutoSizingUsesShare(s: Sizes)
    requires s.Plausible() && s.host == 0
    requires var a := Settled(s); s.global / s.num - a.Base() > MB
    ensures
      var spare := s.global / s.num - Settled(s).PerModem();
      MB - 2 * s.page < spare <= MB
  {
    hide AlignUp;
    var a := Settled(s);
    AlignBounds(a.Base() + a.host, a.page);
  }

  lemma DivideBack(x: nat, n: nat)
    requires n > 0
    ensures x / n * n <= x
  {
  }

  lemma AlignedIffUnchanged(x: int, a: nat)
    requires a > 0
    ensures AlignUp(x, a) == x <==> x % a == 0
  {
    AlignBounds(x, a);
    if x % a == 0 {
      var q, r := AlignUp(x, a) / a, x / a;
      assert AlignUp(x, a) - x == (q - r) * a;
      ScaleBounds(q - r, a);
    }
  }

  lemma FitsIffEachFits(n: nat, p: int, g: nat)
    requires n > 0
    ensures n * p <= g <==> p <= g / n
  {
    DivideBack(g, n);
    if p <= g / n {
      MulMonotone(p, g / n, n);
    } else {
      MulMonotone(g / n + 1, p, n);
    }
  }

  /** Host data sized automatically fits exactly when more than 1 MB is left per modem, or when both what is
      left and the whole part of a modem are multiples of the page size. */
  lemma AutoSizingFitsIff(s: Sizes)
    requires s.Plausible() && s.host == 0
    ensures
      var a := s.(share := AlignedUp(s.share, s.page), rf := AlignedUp(s.rf, s.page));
      var part := s.global / s.num;
      var left := part - a.Base();
      var fits := left > MB || (left >= 0 && left % s.page == 0 && part % s.page == 0);
      && (s.num * Settled(s).PerModem() <= s.global <==> fits)
      && (s.num * Settled(s).PerModem() <= INT_MAX ==> (Admitted(Settled(s)) <==> fits))
  {
    hide AlignUp, Int32;
    var a, part := Settled(s), s.global / s.num;
    var left := part - a.Base();
    AlignBounds(a.Base() + a.host, s.page);
    FitsIffEachFits(s.num, a.PerModem(), s.global);
    MulMonotone(0, s.num, a.PerModem());
    Int32Exact(s.num * a.PerModem());
    if left > MB {
      AutoSizingPasses(s);
    } else {
      AlignedIffUnchanged(part, s.page);
      AlignedIffUnchanged(if left > 0 then left else 0, s.page);
    }
  }

  /** With less than that left it can fail: one byte left becomes one page too many. */
  lemma AutoSizingCanFail()
    ensures !Admitted(Settled(Sizes(0x1000, 16 * MB + 1, 1, 0, 0, 0, 0)))
  {
  }

  // ----- Which window is whose -----

  /** The table of PCI names by id, the next fresh id, and how many addresses the user listed. */
  datatype Ids = Ids(names: seq<string>, next: nat, listed: nat)
  {
    ghost predicate Ok() { |names| == MAX_MODEM }

    function ModemNum(): nat { if listed > 0 then listed else 1 }
  }

  /** After module init: listed names fill the first slots. */
  function InitialIds(addrs: seq<string>): Ids
    requires |addrs| <= MAX_MODEM
  {
    Ids(addrs + seq(MAX_MODEM - |addrs|, _ => ""), |addrs|, |addrs|)
  }

  function LookupFrom(names: seq<string>, name: string, i: nat): (k: nat)
    requires i <= |names|
    ensures i <= k <= |names|
    ensures k < |names| ==> names[k] == name
    ensures forall j :: i <= j < k ==> names[j] != name
    decreases |names| - i
  {
    if i == |names| || names[i] == name then i else LookupFrom(names, name, i + 1)
  }

  /** The id for a PCI name, or -1, and the next fresh id. */
  function DeviceId(s: Ids, name: string): (int, nat)
    requires s.Ok()
  {
    var k := LookupFrom(s.names, name, 0);
    if k < MAX_MODEM then (k, s.next)
    else if s.listed > 0 then (-1, s.next)
    else if s.next >= 1 then (-1, s.next)
    else if s.next >= MAX_MODEM then (-1, s.next)
    else (s.next, s.next + 1)
  }

  /** A probe; `enabled` says whether the PCI device came up, after which its name is recorded. */
  datatype Probe = Probe(name: string, enabled: bool)

  function ProbeStep(s: Ids, p: Probe): (r: (Ids, int))
    requires s.Ok()
    ensures r.0.Ok()
  {
    var (id, next) := DeviceId(s, p.name);
    if id < 0 || id >= MAX_MODEM then (s, -1)
    else (s.(names := if p.enabled then s.names[id := p.name] else s.names, next := next), id)
  }

  /** The state after a sequence of probes, and the id each one got. */
  function Probes(s: Ids, ps: seq<Probe>): (r: (Ids, seq<int>))
    requires s.Ok()
    ensures r.0.Ok() && |r.1| == |ps|
    decreases |ps|
  {
    if ps == [] then (s, [])
    else
      var (before, ids) := Probes(s, ps[..|ps| - 1]);
      var (after, id) := ProbeStep(before, ps[|ps| - 1]);
      (after, ids + [id])
  }

  /** With listed addresses the table never changes; without, only slot 0 is ever used. */
  ghost predicate IdsInv(addrs: seq<string>, s: Ids)
    requires |addrs| <= MAX_MODEM
  {
    && s.Ok() && s.listed == |addrs|
    && (|addrs| > 0 ==> s.names == InitialIds(addrs).names)
    && (forall k :: |addrs| <= k < MAX_MODEM && k >= 1 ==> s.names[k] == "")
    && (|addrs| == 0 ==> s.next <= 1)
  }

  /** The id a device gets whenever it gets one. */
  ghost function IdOf(addrs: seq<string>, name: string): nat
    requires |addrs| <= MAX_MODEM
  {
    if |addrs| > 0 then LookupFrom(InitialIds(addrs).names, name, 0) else 0
  }

  lemma ProbeStepKeeps(addrs: seq<string>, s: Ids, p: Probe)
    requires |addrs| <= MAX_MODEM && IdsInv(addrs, s) && p.name != ""
    ensures
      var (t, id) := ProbeStep(s, p);
      IdsInv(addrs, t) && (id >= 0 ==> id == IdOf(addrs, p.name) < s.ModemNum())
  {
    var k := LookupFrom(s.names, p.name, 0);
    if |addrs| > 0 && k < MAX_MODEM {
      assert s.names[k := p.name] == s.names;
    }
  }

  /** In every run of probes each id is below the number of modems and is always the same for a given
      PCI name. */
  lemma {:induction false} IdsStable(addrs: seq<string>, ps: seq<Probe>, i: nat)
    requires |addrs| <= MAX_MODEM && (forall p :: p in ps ==> p.name != "")
    ensures
      var (s, ids) := Probes(InitialIds(addrs), ps);
      && IdsInv(addrs, s)
      && (i < |ps| && ids[i] >= 0 ==> ids[i] == IdOf(addrs, ps[i].name) < InitialIds(addrs).ModemNum())
    decreases |ps|
  {
    if ps != [] {
      var n := |ps| - 1;
      IdsStable(addrs, ps[..n], i);
      ProbeStepKeeps(addrs, Probes(InitialIds(addrs), ps[..n]).0, ps[n]);
    }
  }

  /** With listed addresses, exactly the listed devices get ids, each the first place it has in the list. */
  lemma {:induction false} ListedIds(addrs: seq<string>, ps: seq<Probe>, i: nat)
    requires 0 < |addrs| <= MAX_MODEM && i < |ps| && forall p :: p in ps ==> p.name != ""
    ensures
      var id := Probes(InitialIds(addrs), ps).1[i];
      && (ps[i].name in addrs <==> id >= 0)
      && (ps[i].name !in addrs <==> id == -1)
      && (id >= 0 ==> id < |addrs| && addrs[id] == ps[i].name && forall j :: 0 <= j < id ==> addrs[j] != ps[i].name)
    decreases |ps|
  {
    var n := |ps| - 1;
    if i < n {
      ListedIds(addrs, ps[..n], i);
    } else {
      IdsStable(addrs, ps[..n], 0);
      var s := Probes(InitialIds(addrs), ps[..n]).0;
      assert forall k :: 0 <= k < |addrs| ==> s.names[k] == addrs[k];
    }
  }

  /** Without a list, the first device probed gets id 0, and after that only a device of its name does, and only if
      the first probe came up: if it did not, no device ever gets an id again. */
  lemma {:induction false} UnlistedIds(ps: seq<Probe>, i: nat)
    requires i < |ps| && forall p :: p in ps ==> p.name != ""
    ensures Probes(InitialIds([]), ps).1[i] ==
      if i == 0 || (ps[0].enabled && ps[i].name == ps[0].name) then 0 else -1
    decreases |ps|
  {
    var n := |ps| - 1;
    if i < n {
      UnlistedIds(ps[..n], i);
    } else if n > 0 {
      AfterFirst(ps[..n]);
    }
  }

  lemma {:induction false} AfterFirst(ps: seq<Probe>)
    requires ps != [] && forall p :: p in ps ==> p.name != ""
    ensures Probes(InitialIds([]), ps).0 ==
            Ids([if ps[0].enabled then ps[0].name else "", "", "", ""], 1, 0)
    decreases |ps|
  {
    var n := |ps| - 1;
    if n > 0 {
      AfterFirst(ps[..n]);
    } else {
      assert ps[..n] == [] && Probes(InitialIds([]), []) == (InitialIds([]), []);
      assert InitialIds([]).names == ["", "", "", ""];
    }
  }

  /** Admitted, and the product in the check did not overflow. */
  ghost predicate SoundlyAdmitted(s: Sizes) {
    && s.page > 0 && s.num > 0 && s.PerModem() >= 0 && s.global <= INT_MAX
    && Admitted(s) && s.num * s.PerModem() <= INT_MAX
  }

  /** The window of device i is inside the buffer and clear of that of any other device j. */
  ghost predicate WindowSound(s: Sizes, i: nat, j: nat)
    requires s.page > 0
  {
    && WindowInside(s, i) && WindowStart(s, i) <= s.global
    && (i != j ==> WindowStart(s, i + 1) <= WindowStart(s, j) || WindowStart(s, j + 1) <= WindowStart(s, i))
  }

  lemma SoundWindows(s: Sizes, i: nat, j: nat)
    requires SoundlyAdmitted(s) && i < s.num && j < s.num
    ensures WindowSound(s, i, j)
  {
    hide Sizes.PerModem, Int32;
    AdmissionExact(s);
    assert WindowInside(s, i);
    MulMonotone(i, i + 1, s.PerModem());
    if i < j {
      WindowsDisjoint(s, i, j);
    } else if j < i {
      WindowsDisjoint(s, j, i);
    }
  }

  /** Two probes that got ids got the same window or disjoint ones, both inside the buffer: the check at
      probe time, which looks only at where a window starts, never has anything to refuse. */
  lemma ProbedWindows(s: Sizes, addrs: seq<string>, ps: seq<Probe>, ids: seq<int>, i: nat, j: nat)
    requires SoundlyAdmitted(s)
    requires |addrs| <= MAX_MODEM && s.num == InitialIds(addrs).ModemNum()
    requires forall p :: p in ps ==> p.name != ""
    requires ids == Probes(InitialIds(addrs), ps).1 && i < |ids| && j < |ids| && ids[i] >= 0 && ids[j] >= 0
    ensures ps[i].name == ps[j].name ==> ids[i] == ids[j]
    ensures WindowSound(s, ids[i], ids[j])
  {
    hide Probes, IdsInv, IdOf, WindowSound, SoundlyAdmitted;
    IdsStable(addrs, ps, i);
    IdsStable(addrs, ps, j);
    SoundWindows(s, ids[i], ids[j]);
  }

  // ----- The driver's globals, updated in place -----

  class Driver {
    var sizes: Sizes
    const names: array<string>
    var next: nat
    var listed: nat

    ghost predicate Valid()
      reads this
    {
      names.Length == MAX_MODEM && sizes.page > 0 && sizes.num > 0
    }

    ghost function View(): Ids
      requires Valid()
      reads this, names
    {
      Ids(names[..], next, listed)
    }

    constructor (sizes: Sizes, addrs: seq<string>)
      requires |addrs| <= MAX_MODEM && sizes.page > 0
      ensures Valid() && fresh(names)
      ensures View() == InitialIds(addrs)
      ensures this.sizes == sizes.(num := InitialIds(addrs).ModemNum())
    {
      this.sizes := sizes.(num := if |addrs| > 0 then |addrs| else 1);
      names := new string[MAX_MODEM](_ => "");
      next := 0;
      listed := |addrs|;
      new;
      for i := 0 to |addrs|
        invariant forall k :: 0 <= k < MAX_MODEM ==> names[k] == if k < i then addrs[k] else ""
        invariant next == i && listed == |addrs|
        invariant this.sizes == sizes.(num := InitialIds(addrs).ModemNum())
      {
        names[i] := addrs[i];
        next := next + 1;
      }
    }

    /** Aligns the sizes, chooses the host-data size if none was given, and checks the total. */
    method SettleSizes() returns (ok: bool)
      requires Valid()
      modifies this`sizes
      ensures Valid()
      ensures sizes == Settled(old(sizes)) && ok == Admitted(sizes)
    {
      sizes := sizes.(share := AlignedUp(sizes.share, sizes.page));
      sizes := sizes.(rf := AlignedUp(sizes.rf, sizes.page));
      var size := sizes.Base();
      if sizes.host == 0 {
        var sizePerModem := sizes.global / sizes.num;
        if size < sizePerModem {
          sizes := sizes.(host := sizePerModem - size);
          if sizes.host > MB {
            sizes := sizes.(host := sizes.host - MB);
          }
        }
      }
      sizes := sizes.(host := AlignedUp(sizes.host, sizes.page));
      size := AlignUp(size + sizes.host, sizes.page);
      ok := !(Int32(sizes.num * size) > sizes.global);
    }

    method GetDeviceId(name: string) returns (id: int)
      requires Valid()
      modifies this`next
      ensures Valid()
      ensures (id, next) == DeviceId(old(View()), name)
    {
      var i := 0;
      while i < MAX_MODEM
        invariant 0 <= i <= MAX_MODEM
        invariant LookupFrom(names[..], name, 0) == LookupFrom(names[..], name, i)
      {
        if names[i] == name {
          return i;
        }
        i := i + 1;
      }
      if listed > 0 {
        return -1;
      }
      if next >= 1 {
        return -1;
      }
      if next >= MAX_MODEM {
        return -1;
      }
      id := next;
      next := next + 1;
    }

    method ProbeDevice(p: Probe) returns (id: int)
      requires Valid()
      modifies this`next, names
      ensures Valid()
      ensures (View(), id) == ProbeStep(old(View()), p)
    {
      id := GetDeviceId(p.name);
      if id == -1 {
        return;
      }
      if p.enabled {
        names[id] := p.name;
      }
    }
  }
}
