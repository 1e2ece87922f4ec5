/** The modem's view of PCIe space: user windows from the huge-page base up, the scratch window at the end. */
module AddressMap {
  import opened Words
  import ScratchRegions
  import PciWindows

  /** The scratch window ends at `end`; user windows get everything from `huge` to its start. */
  function ModPhys(end: nat, per: nat): int {
    end - per
  }

  /** The size published for user windows, as the 32-bit register holds it. */
  function HugePageSpace(huge: nat, end: nat, per: nat): nat {
    (ModPhys(end, per) - huge) % TWO32
  }

  /** The records of user windows after a run of map and unmap requests. */
  function Windows(max: nat, huge: nat, end: nat, per: nat, ops: seq<PciWindows.Op>): seq<PciWindows.Record>
    requires huge < TWO64
  {
    PciWindows.Run(PciWindows.Setup(max, huge, HugePageSpace(huge, end, per)), ops).recs
  }

  predicate Valid(rs: seq<ScratchRegions.Request>) {
    forall q :: q in rs ==> q.id < ScratchRegions.REGIONS
  }

  /** The regions after a run of scratch requests. */
  function Regions(end: nat, per: nat, host: nat, rs: seq<ScratchRegions.Request>): (r: seq<ScratchRegions.Region>)
    requires per <= end && Valid(rs)
    ensures |r| == ScratchRegions.REGIONS
  {
    ScratchRegions.Serve(ScratchRegions.Fresh(ModPhys(end, per), host, per), rs).regions
  }

  lemma UserWindowInside(max: nat, huge: nat, end: nat, per: nat, ops: seq<PciWindows.Op>, k: nat)
    requires 0 < per && huge + per <= end <= TWO32
    requires k < |Windows(max, huge, end, per, ops)|
    ensures
      var rec := Windows(max, huge, end, per, ops)[k];
      huge <= rec.m && rec.m + rec.size <= ModPhys(end, per)
  {
    var total := HugePageSpace(huge, end, per);
    assert huge + total == ModPhys(end, per);
    hide PciWindows.Inv, PciWindows.Run, PciWindows.Setup, HugePageSpace;
    PciWindows.RunKeeps(max, huge, total, ops);
    PciWindows.WindowsInsideSpace(huge, total, PciWindows.Run(PciWindows.Setup(max, huge, total), ops), k);
  }

  /** In every run of map and unmap requests and of scratch requests, a user window lies between the
      huge-page base and the scratch window, so it never meets a scratch region. */
  lemma UserWindowsClearOfScratch(max: nat, huge: nat, end: nat, per: nat, host: nat,
                                  ops: seq<PciWindows.Op>, rs: seq<ScratchRegions.Request>, k: nat, id: nat)
    requires 0 < per && huge + per <= end <= TWO32
    requires k < |Windows(max, huge, end, per, ops)| && Valid(rs) && id < ScratchRegions.REGIONS
    ensures
      var rec, region := Windows(max, huge, end, per, ops)[k], Regions(end, per, host, rs)[id];
      && huge <= rec.m && rec.m + rec.size <= ModPhys(end, per)
      && (region.size > 0 ==> rec.m + rec.size <= region.phys && region.phys + region.size <= end)
  {
    hide Windows, HugePageSpace, ScratchRegions.Serve;
    UserWindowInside(max, huge, end, per, ops, k);
    ScratchRegions.FreshHolds(ModPhys(end, per), host, per);
    ScratchRegions.ServeKeeps(ScratchRegions.Fresh(ModPhys(end, per), host, per), rs, id, 0);
  }

  /** With that room the two windows meet: none of it is wasted. */
  lemma SpaceMeetsScratch(huge: nat, end: nat, per: nat)
    requires 0 < per && huge + per <= end <= TWO32
    ensures huge + HugePageSpace(huge, end, per) == end - per
  {
  }

  // ----- Why there must be room for both -----

  ghost predicate Clear(rec: PciWindows.Record, region: ScratchRegions.Region) {
    region.size > 0 ==> rec.m + rec.size <= region.phys || region.phys + region.size <= rec.m
  }

  /** If there is not, the published size wraps past 2^32, and the first window lies in the scratch window:
      here inside a region that takes all of it. */
  lemma FirstWindowMeetsScratch(max: nat, huge: nat, end: nat, per: nat, host: nat)
    requires max >= 1 && per <= end && huge < end <= TWO32 && huge + per > end
    ensures
      var windows := Windows(max, huge, end, per, [PciWindows.GetMap(0, 1)]);
      var region := Regions(end, per, host, [ScratchRegions.Request(ScratchRegions.SHARE, per)])[ScratchRegions.SHARE];
      && windows == [PciWindows.Record(huge, 0, 1, true, 0)]
      && region.phys == ModPhys(end, per) < huge < end == region.phys + region.size
  {
    FirstWindow(max, huge, HugePageSpace(huge, end, per));
    var s := ScratchRegions.Fresh(ModPhys(end, per), host, per);
    var rs := [ScratchRegions.Request(ScratchRegions.SHARE, per)];
    assert rs[..0] == [] && ScratchRegions.Serve(s, []) == s;
  }

  lemma FirstWindow(max: nat, huge: nat, total: nat)
    requires max >= 1 && huge < TWO32 && 1 <= total < TWO32
    ensures PciWindows.Run(PciWindows.Setup(max, huge, total), [PciWindows.GetMap(0, 1)]).recs
         == [PciWindows.Record(huge, 0, 1, true, 0)]
  {
    var s, op := PciWindows.Setup(max, huge, total), PciWindows.GetMap(0, 1);
    PciWindows.SetupHolds(max, huge, total);
    PciWindows.RunMore(s, [], op);
    assert [] + [op] == [op];
    hide PciWindows.Inv;
    PciWindows.AllocKeeps(huge, total, s, 0, 1);
  }

  /** Over all runs of both allocators user windows are clear of scratch regions exactly when the part of a
      modem fits between the huge-page base and the end of the scratch window. */
  lemma ClearIffRoom(max: nat, huge: nat, end: nat, per: nat, host: nat)
    requires max >= 1 && 0 < per <= end && huge < end <= TWO32
    ensures (forall ops: seq<PciWindows.Op>, rs: seq<ScratchRegions.Request>, k: nat, id: nat ::
              k < |Windows(max, huge, end, per, ops)| && Valid(rs) && id < ScratchRegions.REGIONS ==>
                Clear(Windows(max, huge, end, per, ops)[k], Regions(end, per, host, rs)[id]))
            <==> huge + per <= end
  {
    hide Windows, Regions;
    if huge + per <= end {
      forall ops: seq<PciWindows.Op>, rs: seq<ScratchRegions.Request>, k: nat, id: nat |
        k < |Windows(max, huge, end, per, ops)| && Valid(rs) && id < ScratchRegions.REGIONS
        ensures Clear(Windows(max, huge, end, per, ops)[k], Regions(end, per, host, rs)[id])
      {
        UserWindowsClearOfScratch(max, huge, end, per, host, ops, rs, k, id);
      }
    } else {
      FirstWindowMeetsScratch(max, huge, end, per, host);
      var ops, rs := [PciWindows.GetMap(0, 1)], [ScratchRegions.Request(ScratchRegions.SHARE, per)];
      assert !Clear(Windows(max, huge, end, per, ops)[0], Regions(end, per, host, rs)[ScratchRegions.SHARE]);
    }
  }
}
