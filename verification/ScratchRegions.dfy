/** The regions cut from one device's part of the scratch buffer, the addresses reported for them, and what
    user space may map. */
module ScratchRegions {
  import opened ScratchLayout
  import opened Words

  const REGIONS := 7

  // Only the position of the share area matters: it is the first id.
  const SHARE := 0
  const HOST := 1
  const RF := 2
  const FIRMWARE := 3
  const LOGGER := 4
  const VSPA_FW := 5
  const OVERLAY := 6

  /** A region that was never allocated has size 0 and address 0. */
  datatype Region = Region(phys: nat, size: nat)

  /** The device's part: its modem and host addresses, its size, the cursor, and the regions by id. */
  datatype Scratch = Scratch(modPhys: nat, hostPhys: nat, size: nat, cur: nat, regions: seq<Region>)
  {
    ghost predicate Ok() { |regions| == REGIONS && cur <= modPhys + size }

    ghost predicate SameWindow(s: Scratch) { modPhys == s.modPhys && hostPhys == s.hostPhys && size == s.size }
  }

  function Fresh(modPhys: nat, hostPhys: nat, size: nat): Scratch {
    Scratch(modPhys, hostPhys, size, modPhys, seq(REGIONS, _ => Region(0, 0)))
  }

  datatype Option<T> = None | Some(value: T)

  /** A request: a region that exists is returned as it is, a new one is taken at the cursor. */
  function Alloc(s: Scratch, id: nat, size: nat): (r: (Scratch, Option<Region>))
    requires s.Ok() && id < REGIONS
    ensures r.0.Ok() && r.0.SameWindow(s)
  {
    if s.regions[id].size != 0 then (s, Some(s.regions[id]))
    else if size > s.modPhys + s.size - s.cur then (s, None)
    else
      var r := Region(s.cur, size);
      (s.(regions := s.regions[id := r], cur := s.cur + size), Some(r))
  }

  datatype Request = Request(id: nat, size: nat)

  function Serve(s: Scratch, rs: seq<Request>): (r: Scratch)
    requires s.Ok() && forall q :: q in rs ==> q.id < REGIONS
    ensures r.Ok() && r.SameWindow(s)
    decreases |rs|
  {
    if rs == [] then s
    else Alloc(Serve(s, rs[..|rs| - 1]), rs[|rs| - 1].id, rs[|rs| - 1].size).0
  }

  ghost predicate Disjoint(a: Region, b: Region) {
    a.phys + a.size <= b.phys || b.phys + b.size <= a.phys
  }

  /** Allocated regions lie below the cursor and apart from each other. */
  ghost predicate Inv(s: Scratch) {
    && s.Ok() && s.modPhys <= s.cur
    && (forall i :: 0 <= i < REGIONS && s.regions[i].size > 0 ==>
        s.modPhys <= s.regions[i].phys && s.regions[i].phys + s.regions[i].size <= s.cur)
    && (forall i, j :: 0 <= i < j < REGIONS && s.regions[i].size > 0 && s.regions[j].size > 0 ==>
        Disjoint(s.regions[i], s.regions[j]))
  }

  lemma AllocKeeps(s: Scratch, id: nat, size: nat)
    requires Inv(s) && id < REGIONS
    ensures Inv(Alloc(s, id, size).0)
  {
  }

  /** In every run of requests: regions stay apart and inside, and a region once allocated is what every
      later request for its id gets, whatever size it asks for. */
  lemma {:induction false} ServeKeeps(s: Scratch, rs: seq<Request>, id: nat, size: nat)
    requires Inv(s) && id < REGIONS && forall q :: q in rs ==> q.id < REGIONS
    ensures Inv(Serve(s, rs))
    ensures s.regions[id].size > 0 ==>
      && Serve(s, rs).regions[id] == s.regions[id]
      && Alloc(Serve(s, rs), id, size) == (Serve(s, rs), Some(s.regions[id]))
    decreases |rs|
  {
    if rs != [] {
      var n := |rs| - 1;
      ServeKeeps(s, rs[..n], id, size);
      AllocKeeps(Serve(s, rs[..n]), rs[n].id, rs[n].size);
    }
  }

  /** The sizes of all regions together. */
  function HandedOut(regions: seq<Region>): nat {
    if regions == [] then 0 else HandedOut(regions[..|regions| - 1]) + regions[|regions| - 1].size
  }

  lemma {:induction false} HandOneOut(regions: seq<Region>, id: nat, r: Region)
    requires id < |regions|
    ensures HandedOut(regions[id := r]) == HandedOut(regions) - regions[id].size + r.size
    decreases |regions|
  {
    var n := |regions| - 1;
    if id < n {
      assert regions[id := r][..n] == regions[..n][id := r];
      HandOneOut(regions[..n], id, r);
    } else {
      assert regions[id := r][..n] == regions[..n];
    }
  }

  lemma {:induction false} NothingHandedOut(k: nat)
    ensures HandedOut(seq(k, _ => Region(0, 0))) == 0
  {
    if k > 0 {
      assert seq(k, _ => Region(0, 0))[..k - 1] == seq(k - 1, _ => Region(0, 0));
      NothingHandedOut(k - 1);
    }
  }

  /** Nothing is wasted: in every run the regions together fill the window up to the cursor. */
  lemma {:induction false} ServeFills(m: nat, h: nat, size: nat, rs: seq<Request>)
    requires forall q :: q in rs ==> q.id < REGIONS
    ensures var s := Serve(Fresh(m, h, size), rs); s.cur == m + HandedOut(s.regions)
    decreases |rs|
  {
    hide HandedOut;
    if rs == [] {
      NothingHandedOut(REGIONS);
    } else {
      var n := |rs| - 1;
      ServeFills(m, h, size, rs[..n]);
      var s := Serve(Fresh(m, h, size), rs[..n]);
      HandOneOut(s.regions, rs[n].id, Region(s.cur, rs[n].size));
    }
  }

  /** After any run, a new region is refused exactly when it and those handed out exceed the window; granted, it has
      the size asked for and starts where they end. */
  lemma RequestTells(m: nat, h: nat, size: nat, rs: seq<Request>, id: nat, n: nat)
    requires (forall q :: q in rs ==> q.id < REGIONS) && id < REGIONS
    requires Serve(Fresh(m, h, size), rs).regions[id].size == 0
    ensures
      var s := Serve(Fresh(m, h, size), rs);
      var (t, told) := Alloc(s, id, n);
      var used := HandedOut(s.regions);
      && (told == None <==> used + n > size)
      && (told == None ==> t == s)
      && (told != None ==> told == Some(Region(m + used, n)) && t.regions == s.regions[id := Region(m + used, n)])
  {
    ServeFills(m, h, size, rs);
  }

  // ----- The allocator updated in place -----

  class ScratchAllocator {
    const modPhys: nat
    const hostPhys: nat
    const size: nat
    var cur: nat
    const regions: array<Region>

    ghost predicate Valid()
      reads this
    {
      regions.Length == REGIONS && cur <= modPhys + size
    }

    ghost function View(): Scratch
      requires Valid()
      reads this, regions
    {
      Scratch(modPhys, hostPhys, size, cur, regions[..])
    }

    constructor (modPhys: nat, hostPhys: nat, size: nat)
      ensures Valid() && fresh(regions) && View() == Fresh(modPhys, hostPhys, size)
    {
      this.modPhys := modPhys;
      this.hostPhys := hostPhys;
      this.size := size;
      cur := modPhys;
      regions := new Region[REGIONS](_ => Region(0, 0));
    }

    method Allocate(id: nat, size: nat) returns (r: Option<Region>)
      requires Valid() && id < REGIONS
      modifies this`cur, regions
      ensures Valid()
      ensures (View(), r) == Alloc(old(View()), id, size)
    {
      if regions[id].size != 0 {
        return Some(regions[id]);
      }
      if size > modPhys + this.size - cur {
        return None;
      }
      var offset := cur - modPhys;
      regions[id] := Region(modPhys + offset, size);
      cur := cur + size;
      r := Some(regions[id]);
    }

    method AllocateAtProbe(z: Sizes)
      requires Valid() && z.logger <= 4 * MB
      modifies this`cur, regions
      ensures Valid()
      ensures View() == ProbedRegions(old(View()), z)
    {
      hide Alloc;
      var r;
      if z.share != 0 {
        r := Allocate(SHARE, z.share);
      }
      if z.host != 0 {
        r := Allocate(HOST, z.host);
      }
      if z.rf != 0 {
        r := Allocate(RF, z.rf);
      }
      r := Allocate(FIRMWARE, z.Image());
      r := Allocate(LOGGER, z.logger);
      r := Allocate(VSPA_FW, VSPA_FW_SIZE);
      r := Allocate(OVERLAY, OVERLAY_SIZE);
    }
  }

  // ----- The requests made when a device is probed -----

  /** The areas user space shares come first and are skipped when their size is 0. */
  function SharedRegions(s: Scratch, z: Sizes): (r: Scratch)
    requires s.Ok()
    ensures r.Ok() && r.SameWindow(s)
  {
    var a := if z.share != 0 then Alloc(s, SHARE, z.share).0 else s;
    var b := if z.host != 0 then Alloc(a, HOST, z.host).0 else a;
    if z.rf != 0 then Alloc(b, RF, z.rf).0 else b
  }

  function ProbedRegions(s: Scratch, z: Sizes): (r: Scratch)
    requires s.Ok() && z.logger <= 4 * MB
    ensures r.Ok() && r.SameWindow(s)
  {
    var a := Alloc(SharedRegions(s, z), FIRMWARE, z.Image()).0;
    var b := Alloc(a, LOGGER, z.logger).0;
    var c := Alloc(b, VSPA_FW, VSPA_FW_SIZE).0;
    Alloc(c, OVERLAY, OVERLAY_SIZE).0
  }

  function RegionOrNone(phys: nat, size: nat): Region {
    if size != 0 then Region(phys, size) else Region(0, 0)
  }

  /** Where every region lies once a device is probed. */
  function LayoutAt(m: nat, z: Sizes): seq<Region>
    requires z.logger <= 4 * MB
  {
    var shared := m + z.share + z.host + z.rf;
    [RegionOrNone(m, z.share), RegionOrNone(m + z.share, z.host), RegionOrNone(m + z.share + z.host, z.rf),
     Region(shared, z.Image()), Region(shared + z.Image(), z.logger), Region(shared + 4 * MB, VSPA_FW_SIZE),
     Region(shared + 4 * MB + VSPA_FW_SIZE, OVERLAY_SIZE)]
  }

  lemma SharedLayout(z: Sizes, m: nat, h: nat, size: nat)
    requires z.share + z.host + z.rf <= size
    ensures
      var t := SharedRegions(Fresh(m, h, size), z);
      && t.cur == m + z.share + z.host + z.rf && t.modPhys == m && t.hostPhys == h && t.size == size
      && t.regions == [RegionOrNone(m, z.share), RegionOrNone(m + z.share, z.host),
                       RegionOrNone(m + z.share + z.host, z.rf), Region(0, 0), Region(0, 0), Region(0, 0), Region(0, 0)]
  {
  }

  /** The regions requested at probe never run out of space, and lie one after another. */
  lemma ProbedLayout(z: Sizes, m: nat, h: nat, size: nat)
    requires z.logger <= 4 * MB && z.Base() + z.host <= size
    ensures ProbedRegions(Fresh(m, h, size), z).regions == LayoutAt(m, z)
    ensures Inv(ProbedRegions(Fresh(m, h, size), z))
  {
    hide SharedRegions;
    SharedLayout(z, m, h, size);
    assert SharedRegions(Fresh(m, h, size), z).Ok();
    ProbedKeeps(z, m, h, size);
  }

  /** The addresses one by one, from the start of the window: an area of size 0 is none. */
  lemma ProbedAddresses(z: Sizes, m: nat, h: nat, size: nat)
    requires z.logger <= 4 * MB && z.Base() + z.host <= size
    ensures
      var r := ProbedRegions(Fresh(m, h, size), z).regions;
      var shared := m + z.share + z.host + z.rf;
      && r[0] == (if z.share > 0 then Region(m, z.share) else Region(0, 0))
      && r[1] == (if z.host > 0 then Region(m + z.share, z.host) else Region(0, 0))
      && r[2] == (if z.rf > 0 then Region(m + z.share + z.host, z.rf) else Region(0, 0))
      && r[3] == Region(shared, 0x40_0000 - z.logger)
      && r[4] == Region(shared + 0x40_0000 - z.logger, z.logger)
      && r[5] == Region(shared + 0x40_0000, 0xa0_0000)
      && r[6] == Region(shared + 0xe0_0000, 0x20_0000)
  {
    hide ProbedRegions;
    ProbedLayout(z, m, h, size);
  }

  /** The part each modem is given holds all of them. */
  lemma ProbeNeverRunsOut(z: Sizes, m: nat, h: nat)
    requires z.page > 0 && z.logger <= 4 * MB
    ensures
      var per := z.PerModem();
      per >= 0 && ProbedRegions(Fresh(m, h, per), z).regions == LayoutAt(m, z)
  {
    hide ProbedRegions, LayoutAt;
    AlignBounds(z.Base() + z.host, z.page);
    ProbedLayout(z, m, h, z.PerModem());
  }

  lemma ProbedKeeps(z: Sizes, m: nat, h: nat, size: nat)
    requires z.logger <= 4 * MB
    ensures Inv(ProbedRegions(Fresh(m, h, size), z))
  {
    hide Inv, Alloc;
    var s := Fresh(m, h, size);
    FreshHolds(m, h, size);
    AllocKeeps(s, SHARE, z.share);
    var a := if z.share != 0 then Alloc(s, SHARE, z.share).0 else s;
    AllocKeeps(a, HOST, z.host);
    var b := if z.host != 0 then Alloc(a, HOST, z.host).0 else a;
    AllocKeeps(b, RF, z.rf);
    var c := SharedRegions(s, z);
    AllocKeeps(c, FIRMWARE, z.Image());
    var d := Alloc(c, FIRMWARE, z.Image()).0;
    AllocKeeps(d, LOGGER, z.logger);
    var e := Alloc(d, LOGGER, z.logger).0;
    AllocKeeps(e, VSPA_FW, VSPA_FW_SIZE);
    AllocKeeps(Alloc(e, VSPA_FW, VSPA_FW_SIZE).0, OVERLAY, OVERLAY_SIZE);
  }

  lemma FreshHolds(m: nat, h: nat, size: nat)
    ensures Inv(Fresh(m, h, size))
  {
  }

  // ----- Addresses reported to user space -----

  /** The image of a modem address under the outbound window of the scratch buffer. */
  function HostImage(s: Scratch, m: int): int {
    s.hostPhys + (m - s.modPhys)
  }

  /** The host address reported for region i, counted from the address of region 0. */
  function Reported(s: Scratch, i: nat): int
    requires |s.regions| == REGIONS && i < REGIONS
  {
    s.hostPhys + (s.regions[i].phys - s.regions[SHARE].phys % TWO32)
  }

  /** The report is right for every allocated region exactly when there is a share area below 4 GiB, from
      whose address it counts, or when that address is 0 anyway. */
  lemma ReportedIffShared(z: Sizes, m: nat, h: nat, size: nat)
    requires z.logger <= 4 * MB && z.Base() + z.host <= size
    ensures
      var s := ProbedRegions(Fresh(m, h, size), z);
      (forall i :: 0 <= i < REGIONS && s.regions[i].size > 0 ==> Reported(s, i) == HostImage(s, s.regions[i].phys))
      <==> m == 0 || (z.share != 0 && m < TWO32)
  {
    hide ProbedRegions;
    ProbedLayout(z, m, h, size);
    var s := ProbedRegions(Fresh(m, h, size), z);
    assert s.regions[SHARE] == RegionOrNone(m, z.share);
    var first := s.regions[SHARE].phys % TWO32;
    assert forall i :: 0 <= i < REGIONS ==> (Reported(s, i) == HostImage(s, s.regions[i].phys) <==> first == m);
    assert s.regions[OVERLAY].size > 0;
  }

  method ModinfoGet(s: Scratch) returns (reported: array<int>)
    requires |s.regions| == REGIONS
    ensures fresh(reported) && reported.Length == REGIONS
    ensures forall i :: 0 <= i < REGIONS ==> reported[i] == Reported(s, i)
  {
    reported := new int[REGIONS];
    var first := 0;
    for i := 0 to REGIONS
      invariant i > 0 ==> first == s.regions[SHARE].phys % TWO32
      invariant forall k :: 0 <= k < i ==> reported[k] == Reported(s, k)
    {
      if i == 0 {
        first := s.regions[i].phys % TWO32;
      }
      reported[i] := s.hostPhys + (s.regions[i].phys - first);
    }
  }

  // ----- What user space may map -----

  predicate MmapAllowed(hostPhys: nat, z: Sizes, offset: nat, size: nat) {
    && offset >= hostPhys
    && (offset + size) % TWO64 <= hostPhys + z.share + z.host + z.rf
  }

  /** Host address x belongs to region i. */
  ghost predicate InRegion(s: Scratch, i: nat, x: int)
    requires |s.regions| == REGIONS && i < REGIONS
  {
    HostImage(s, s.regions[i].phys) <= x < HostImage(s, s.regions[i].phys) + s.regions[i].size
  }

  ghost predicate InShared(s: Scratch, x: int)
    requires |s.regions| == REGIONS
  {
    InRegion(s, SHARE, x) || InRegion(s, HOST, x) || InRegion(s, RF, x)
  }

  /** A non-empty range that does not wrap may be mapped exactly when every byte of it belongs to the share,
      host-data or RF region. */
  lemma MmapExact(z: Sizes, m: nat, h: nat, size: nat, offset: nat, n: nat)
    requires z.logger <= 4 * MB && z.Base() + z.host <= size && n > 0 && offset + n < TWO64
    ensures
      var s := ProbedRegions(Fresh(m, h, size), z);
      MmapAllowed(h, z, offset, n) <==> forall x :: offset <= x < offset + n ==> InShared(s, x)
  {
    hide ProbedRegions;
    ProbedLayout(z, m, h, size);
    var s := ProbedRegions(Fresh(m, h, size), z);
    assert forall x :: InShared(s, x) <==> h <= x < h + z.share + z.host + z.rf;
    if forall x :: offset <= x < offset + n ==> InShared(s, x) {
      assert InShared(s, offset) && InShared(s, offset + n - 1);
    }
  }

  /** A range that the check accepts lies in those regions exactly when its end does not wrap. */
  lemma MmapSoundIffNoWrap(z: Sizes, m: nat, h: nat, size: nat, offset: nat, n: nat)
    requires z.logger <= 4 * MB && z.Base() + z.host <= size && h + z.share + z.host + z.rf < TWO64
    requires offset < TWO64 && 0 < n < TWO64 && MmapAllowed(h, z, offset, n)
    ensures
      var s := ProbedRegions(Fresh(m, h, size), z);
      (forall x :: offset <= x < offset + n ==> InShared(s, x)) <==> offset + n < TWO64
  {
    hide ProbedRegions;
    var s := ProbedRegions(Fresh(m, h, size), z);
    if offset + n < TWO64 {
      MmapExact(z, m, h, size, offset, n);
    } else {
      ProbedLayout(z, m, h, size);
      assert !InShared(s, offset + n - 1);
    }
  }

  /** The last page of the address space and one page more are accepted wherever the buffer is, although no
      byte of them is in a region. */
  lemma WrappingMmapIsAllowed(z: Sizes, m: nat, h: nat, size: nat)
    requires z.logger <= 4 * MB && z.Base() + z.host <= size
    requires 0x1000 <= h && h + z.share + z.host + z.rf <= TWO64 - 0x1000
    ensures
      var s := ProbedRegions(Fresh(m, h, size), z);
      && MmapAllowed(h, z, TWO64 - 0x1000, 0x2000)
      && forall x :: TWO64 - 0x1000 <= x < TWO64 + 0x1000 ==> !InShared(s, x)
  {
    hide ProbedRegions;
    ProbedLayout(z, m, h, size);
  }
}
