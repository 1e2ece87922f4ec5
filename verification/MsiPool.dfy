/** The pool of MSI lines of a device, the IPC channels that take lines from it, and the other drivers that
    share it. */
module MsiPool {

  datatype Line = Line(busy: bool, core: nat)

  /** An IPC channel: whether it holds a line, and which. */
  datatype Channel = Channel(busy: bool, index: nat)

  /** `others` are the lines held by other drivers; `lost` the lines nobody holds and nobody will release. */
  datatype Irqs = Irqs(lines: seq<Line>, chans: seq<Channel>, others: set<nat>, lost: set<nat>)

  datatype Scope = OfCore(core: nat) | Any

  predicate Wanted(l: Line, scope: Scope) {
    !l.busy && (scope.OfCore? ==> l.core == scope.core)
  }

  /** First free line in scope at or after i, or the number of lines. */
  function FirstFrom(lines: seq<Line>, scope: Scope, i: nat): (k: nat)
    requires i <= |lines|
    ensures i <= k <= |lines|
    ensures k < |lines| ==> Wanted(lines[k], scope)
    ensures forall j :: i <= j < k ==> !Wanted(lines[j], scope)
    decreases |lines| - i
  {
    if i == |lines| || Wanted(lines[i], scope) then i else FirstFrom(lines, scope, i + 1)
  }

  /** The line a core gets: one of its own if any is free, else any free one, else -1. */
  function Pick(lines: seq<Line>, core: nat): (k: int)
    ensures -1 <= k < |lines|
  {
    var own := FirstFrom(lines, OfCore(core), 0);
    if own < |lines| then own
    else
      var any := FirstFrom(lines, Any, 0);
      if any < |lines| then any else -1
  }

  /** A request fails only when no line is free, and is served from the calling core whenever that is possible. */
  lemma PickIsBest(lines: seq<Line>, core: nat)
    ensures Pick(lines, core) == -1 <==> forall k :: 0 <= k < |lines| ==> lines[k].busy
    ensures Pick(lines, core) >= 0 ==> Pick(lines, core) < |lines| && !lines[Pick(lines, core)].busy
    ensures (exists k :: 0 <= k < |lines| && !lines[k].busy && lines[k].core == core) ==>
      Pick(lines, core) >= 0 && lines[Pick(lines, core)].core == core
  {
    forall k | 0 <= k < |lines|
      ensures Wanted(lines[k], Any) == !lines[k].busy
      ensures Wanted(lines[k], OfCore(core)) == (!lines[k].busy && lines[k].core == core)
    {
    }
  }

  function Take(lines: seq<Line>, k: nat): seq<Line>
    requires k < |lines|
  {
    lines[k := lines[k].(busy := true)]
  }

  function Release(lines: seq<Line>, k: nat): seq<Line> {
    if k < |lines| && lines[k].busy then lines[k := lines[k].(busy := false)] else lines
  }

  // ----- Register and deregister -----

  /** A channel that already holds a line and registers again loses track of it. */
  function Register(s: Irqs, ch: int, core: nat): Irqs {
    if !(0 <= ch < |s.chans|) then s
    else
      var k := Pick(s.lines, core);
      if 0 <= k < |s.lines| then
        s.(lines := Take(s.lines, k), chans := s.chans[ch := Channel(true, k)],
           lost := if s.chans[ch].busy then s.lost + {s.chans[ch].index} else s.lost)
      else s
  }

  function Deregister(s: Irqs, ch: int): Irqs {
    if !(0 <= ch < |s.chans|) || !s.chans[ch].busy then s
    else
      var k := s.chans[ch].index;
      var lines := Release(s.lines, k);
      s.(lines := lines, chans := s.chans[ch := Channel(if k < |lines| then lines[k].busy else true, 0)])
  }

  datatype Op =
    | RegisterChannel(ch: int, core: nat) | DeregisterChannel(ch: int)
    | OtherGet(core: nat) | OtherPut(index: nat)

  /** Other drivers release only lines of their own. */
  function Step(s: Irqs, op: Op): Irqs {
    match op
    case RegisterChannel(ch, core) => Register(s, ch, core)
    case DeregisterChannel(ch) => Deregister(s, ch)
    case OtherGet(core) =>
      var k := Pick(s.lines, core);
      if 0 <= k < |s.lines| then s.(lines := Take(s.lines, k), others := s.others + {k}) else s
    case OtherPut(k) =>
      if k in s.others then s.(lines := Release(s.lines, k), others := s.others - {k}) else s
  }

  function Run(s: Irqs, ops: seq<Op>): Irqs
    decreases |ops|
  {
    if ops == [] then s else Step(Run(s, ops[..|ops| - 1]), ops[|ops| - 1])
  }

  predicate Initial(s: Irqs) {
    && (forall k :: 0 <= k < |s.lines| ==> !s.lines[k].busy)
    && (forall c :: 0 <= c < |s.chans| ==> !s.chans[c].busy)
    && s.others == {} && s.lost == {}
  }

  // ----- What every run keeps -----

  ghost predicate HeldByChannel(s: Irqs, k: nat) {
    exists c :: 0 <= c < |s.chans| && s.chans[c] == Channel(true, k)
  }

  ghost predicate HeldByOthers(s: Irqs, k: nat) {
    k in s.others || k in s.lost
  }

  /** No line has two holders, and the busy lines are exactly the held ones and the lost ones. */
  ghost predicate Inv(s: Irqs) {
    && (forall c :: 0 <= c < |s.chans| && s.chans[c].busy ==> !HeldByOthers(s, s.chans[c].index))
    && (forall c, d :: 0 <= c < d < |s.chans| && s.chans[c].busy && s.chans[d].busy ==>
        s.chans[c].index != s.chans[d].index)
    && s.others !! s.lost
    && (forall k: nat :: (k < |s.lines| && s.lines[k].busy) <==> HeldByChannel(s, k) || HeldByOthers(s, k))
  }

  lemma HeldAfterUpdate(s: Irqs, t: Irqs, ch: nat, k: nat)
    requires ch < |s.chans| == |t.chans| && t.chans == s.chans[ch := t.chans[ch]]
    ensures HeldByChannel(t, k) <==>
      t.chans[ch] == Channel(true, k) || exists c :: 0 <= c < |s.chans| && c != ch && s.chans[c] == Channel(true, k)
  {
    if HeldByChannel(t, k) {
      var c :| 0 <= c < |t.chans| && t.chans[c] == Channel(true, k);
      assert c != ch ==> s.chans[c] == Channel(true, k);
    }
    if c :| 0 <= c < |s.chans| && c != ch && s.chans[c] == Channel(true, k) {
      assert t.chans[c] == Channel(true, k);
    }
  }

  /** What a registration that finds a line free does: it takes the first free line of the calling core, or the
      first free one if that core has none, and touches nothing else. */
  lemma RegisterTakes(s: Irqs, ch: nat, core: nat) returns (k: nat)
    requires ch < |s.chans| && exists j :: 0 <= j < |s.lines| && !s.lines[j].busy
    ensures k < |s.lines| && !s.lines[k].busy
    ensures
      if exists j :: 0 <= j < |s.lines| && !s.lines[j].busy && s.lines[j].core == core then
        s.lines[k].core == core && forall j :: 0 <= j < k ==> s.lines[j].busy || s.lines[j].core != core
      else forall j :: 0 <= j < k ==> s.lines[j].busy
    ensures
      var t := Register(s, ch, core);
      && t.lines == s.lines[k := Line(true, s.lines[k].core)]
      && t.chans == s.chans[ch := Channel(true, k)]
      && t.others == s.others
  {
    PickIsBest(s.lines, core);
    k := Pick(s.lines, core);
    forall j | 0 <= j < |s.lines|
      ensures Wanted(s.lines[j], Any) == !s.lines[j].busy
      ensures Wanted(s.lines[j], OfCore(core)) == (!s.lines[j].busy && s.lines[j].core == core)
    {
    }
  }

  lemma RegisterKeeps(s: Irqs, ch: int, core: nat)
    requires Inv(s)
    ensures Inv(Register(s, ch, core))
  {
    hide Pick;
    PickIsBest(s.lines, core);
    var k := Pick(s.lines, core);
    if 0 <= ch < |s.chans| && k >= 0 {
      var t := Register(s, ch, core);
      assert !HeldByChannel(s, k) && !HeldByOthers(s, k);
      forall c | 0 <= c < |s.chans| && s.chans[c].busy
        ensures s.chans[c].index != k
      {
        assert s.chans[c] == Channel(true, s.chans[c].index);
      }
      forall j: nat
        ensures (j < |t.lines| && t.lines[j].busy) <==> HeldByChannel(t, j) || HeldByOthers(t, j)
      {
        HeldAfterUpdate(s, t, ch, j);
        HeldAfterUpdate(s, s, ch, j);
      }
    }
  }

  lemma DeregisterKeeps(s: Irqs, ch: int)
    requires Inv(s)
    ensures Inv(Deregister(s, ch))
    ensures 0 <= ch < |s.chans| && s.chans[ch].busy ==>
      var k := s.chans[ch].index;
      && k < |s.lines| && s.lines[k].busy
      && Deregister(s, ch) == s.(lines := s.lines[k := s.lines[k].(busy := false)],
                                 chans := s.chans[ch := Channel(false, 0)])
  {
    if 0 <= ch < |s.chans| && s.chans[ch].busy {
      var k := s.chans[ch].index;
      assert s.chans[ch] == Channel(true, k);
      assert HeldByChannel(s, k);
      var t := Deregister(s, ch);
      forall j: nat
        ensures (j < |t.lines| && t.lines[j].busy) <==> HeldByChannel(t, j) || HeldByOthers(t, j)
      {
        HeldAfterUpdate(s, t, ch, j);
        HeldAfterUpdate(s, s, ch, j);
      }
    }
  }

  lemma OthersKeep(s: Irqs, op: Op)
    requires Inv(s) && (op.OtherGet? || op.OtherPut?)
    ensures Inv(Step(s, op))
  {
    hide Pick;
    var t := Step(s, op);
    if op.OtherGet? {
      PickIsBest(s.lines, op.core);
    }
    forall c | 0 <= c < |s.chans| && s.chans[c].busy
      ensures HeldByChannel(s, s.chans[c].index)
    {
      assert s.chans[c] == Channel(true, s.chans[c].index);
    }
    forall k: nat
      ensures (k < |t.lines| && t.lines[k].busy) <==> HeldByChannel(t, k) || HeldByOthers(t, k)
    {
      assert HeldByChannel(t, k) == HeldByChannel(s, k);
      assert HeldByChannel(s, k) ==> !HeldByOthers(s, k);
    }
  }

  lemma StepKeeps(s: Irqs, op: Op)
    requires Inv(s)
    ensures Inv(Step(s, op))
  {
    hide Inv, Register, Deregister;
    match op
    case RegisterChannel(ch, core) => RegisterKeeps(s, ch, core);
    case DeregisterChannel(ch) => DeregisterKeeps(s, ch);
    case OtherGet(_) => OthersKeep(s, op);
    case OtherPut(_) => OthersKeep(s, op);
  }

  lemma {:induction false} RunKeepsInv(s: Irqs, ops: seq<Op>)
    requires Inv(s)
    ensures Inv(Run(s, ops))
    decreases |ops|
  {
    hide Inv, Step;
    if ops != [] {
      RunKeepsInv(s, ops[..|ops| - 1]);
      StepKeeps(Run(s, ops[..|ops| - 1]), ops[|ops| - 1]);
    }
  }

  /** In every run, with other drivers taking and releasing lines of their own, no two channels hold the
      same line, each held line is busy in the pool, and every busy line is held or lost. */
  lemma RunKeeps(s: Irqs, ops: seq<Op>)
    requires Initial(s)
    ensures Inv(Run(s, ops))
  {
    assert Inv(s);
    RunKeepsInv(s, ops);
  }

  // ----- Lines that nobody holds and nobody will release -----

  /** Line k is busy, and neither a channel nor another driver holds it. */
  ghost predicate Orphaned(s: Irqs, k: nat) {
    k < |s.lines| && s.lines[k].busy && !HeldByChannel(s, k) && k !in s.others
  }

  /** A line is lost exactly when a channel that holds one registers and is given another. */
  ghost predicate Loses(s: Irqs, op: Op) {
    && op.RegisterChannel? && 0 <= op.ch < |s.chans| && s.chans[op.ch].busy
    && exists k :: 0 <= k < |s.lines| && !s.lines[k].busy
  }

  lemma OrphanedIffLost(s: Irqs, k: nat)
    requires Inv(s)
    ensures Orphaned(s, k) <==> k in s.lost
  {
    if HeldByChannel(s, k) {
      var c :| 0 <= c < |s.chans| && s.chans[c] == Channel(true, k);
      assert !HeldByOthers(s, s.chans[c].index);
    }
  }

  lemma StepLoses(s: Irqs, op: Op)
    requires Inv(s)
    ensures |Step(s, op).lost| == |s.lost| + if Loses(s, op) then 1 else 0
    ensures s.lost <= Step(s, op).lost
  {
    hide Pick;
    if op.RegisterChannel? && 0 <= op.ch < |s.chans| {
      PickIsBest(s.lines, op.core);
      if s.chans[op.ch].busy && Pick(s.lines, op.core) >= 0 {
        assert !HeldByOthers(s, s.chans[op.ch].index);
        assert !s.lines[Pick(s.lines, op.core)].busy;
      }
    }
  }

  /** Once nobody holds a busy line, it stays so whatever is done next. */
  lemma {:induction false} OrphanedForever(s: Irqs, ops: seq<Op>, k: nat)
    requires Inv(s) && Orphaned(s, k)
    ensures Orphaned(Run(s, ops), k)
    decreases |ops|
  {
    hide Inv, Orphaned, Step, Loses;
    if ops != [] {
      var n := |ops| - 1;
      var t := Run(s, ops[..n]);
      OrphanedForever(s, ops[..n], k);
      RunKeepsInv(s, ops[..n]);
      StepKeeps(t, ops[n]);
      StepLoses(t, ops[n]);
      OrphanedIffLost(t, k);
      OrphanedIffLost(Step(t, ops[n]), k);
    }
  }

  /** Step i of the run does not lose a line, for any i. */
  ghost predicate NeverLoses(s: Irqs, ops: seq<Op>) {
    forall i :: 0 <= i < |ops| ==> !Loses(Run(s, ops[..i]), ops[i])
  }

  lemma {:induction false} LostIffSomeStepLoses(s: Irqs, ops: seq<Op>)
    requires Initial(s)
    ensures Run(s, ops).lost == {} <==> NeverLoses(s, ops)
    decreases |ops|
  {
    hide Step, Loses;
    if ops != [] {
      var n := |ops| - 1;
      var before := ops[..n];
      LostIffSomeStepLoses(s, before);
      RunKeeps(s, before);
      StepLoses(Run(s, before), ops[n]);
      assert forall i :: 0 <= i < n ==> before[..i] == ops[..i] && before[i] == ops[i];
      assert NeverLoses(s, ops) <==> NeverLoses(s, before) && !Loses(Run(s, before), ops[n]);
    }
  }

  /** After a run every busy line has a holder exactly when no channel registered again while it held a line
      and another was free. */
  lemma AllHeldIffNeverLoses(s: Irqs, ops: seq<Op>)
    requires Initial(s)
    ensures (forall k: nat :: !Orphaned(Run(s, ops), k)) <==> NeverLoses(s, ops)
  {
    hide Inv, Orphaned, NeverLoses;
    var t := Run(s, ops);
    RunKeeps(s, ops);
    LostIffSomeStepLoses(s, ops);
    forall k: nat
      ensures Orphaned(t, k) <==> k in t.lost
    {
      OrphanedIffLost(t, k);
    }
    if t.lost != {} {
      var k :| k in t.lost;
      assert Orphaned(t, k);
    }
  }

  /** Registering twice and deregistering leaves a line busy that nobody holds. */
  lemma RegisterTwiceOrphans()
    ensures
      var s := Irqs([Line(false, 0), Line(false, 0)], [Channel(false, 0)], {}, {});
      var t := Run(s, [RegisterChannel(0, 0), RegisterChannel(0, 0), DeregisterChannel(0)]);
      Initial(s) && Orphaned(t, 0)
  {
    var s := Irqs([Line(false, 0), Line(false, 0)], [Channel(false, 0)], {}, {});
    var once := Irqs([Line(true, 0), Line(false, 0)], [Channel(true, 0)], {}, {});
    var twice := Irqs([Line(true, 0), Line(true, 0)], [Channel(true, 1)], {}, {0});
    var register, free := RegisterChannel(0, 0), DeregisterChannel(0);
    assert Step(s, register) == once;
    assert Step(once, register) == twice;
    assert Step(twice, free).lines == [Line(true, 0), Line(false, 0)];
    RunOfThree(s, register, register, free);
  }

  lemma RunOfThree(s: Irqs, a: Op, b: Op, c: Op)
    ensures Run(s, [a, b, c]) == Step(Step(Step(s, a), b), c)
  {
    hide Step;
    assert [a, b, c][..2] == [a, b] && [a, b][..1] == [a] && [a][..0] == [];
    assert Run(s, []) == s;
    assert Run(s, [a]) == Step(s, a);
    assert Run(s, [a, b]) == Step(Step(s, a), b);
  }

  // ----- What a registration reports -----

  const EINVAL := 22
  const EBUSY := 16

  /** What may go wrong once a line is taken: no such event descriptor, no memory, the interrupt refused. */
  datatype Fault = NoFault | BadEventFd | NoMemory | Refused(errno: nat)

  function FaultCode(f: Fault): int {
    match f
    case NoFault => 0
    case BadEventFd => -EINVAL
    case NoMemory => 0
    case Refused(errno) => -(errno as int)
  }

  function RegisterCode(s: Irqs, ch: int, core: nat, f: Fault): int {
    if !(0 <= ch < |s.chans|) then -EINVAL
    else if Pick(s.lines, core) < 0 then -EBUSY
    else FaultCode(f)
  }

  /** The channel holds a line after a registration that found one free, whatever is reported: a failure means
      that nothing was taken exactly when it came before the line was. */
  lemma FailureMayHoldLine(s: Irqs, ch: int, core: nat, f: Fault)
    requires Inv(s)
    ensures
      var t := Register(s, ch, core);
      var taken := 0 <= ch < |s.chans| && exists k :: 0 <= k < |s.lines| && !s.lines[k].busy;
      && (taken ==> t != s && t.chans[ch].busy && HeldByChannel(t, t.chans[ch].index))
      && (!taken ==> t == s && RegisterCode(s, ch, core, f) < 0)
      && RegisterCode(s, ch, core, f) ==
         if !(0 <= ch < |s.chans|) then -22
         else if !taken then -16
         else if f.BadEventFd? then -22
         else if f.Refused? then -(f.errno as int)
         else 0
  {
    hide Pick;
    PickIsBest(s.lines, core);
    var t := Register(s, ch, core);
    if 0 <= ch < |s.chans| && Pick(s.lines, core) >= 0 {
      var k := Pick(s.lines, core);
      assert t.chans[ch] == Channel(true, k);
      assert t.lines[k].busy && !s.lines[k].busy;
    }
  }

  // ----- The pool updated in place -----

  class Pool {
    const lines: array<Line>
    const chans: array<Channel>

    constructor (lines: array<Line>, chans: array<Channel>)
      ensures this.lines == lines && this.chans == chans
    {
      this.lines := lines;
      this.chans := chans;
    }

    method GetMsi(core: nat) returns (index: int)
      modifies lines
      ensures index == Pick(old(lines[..]), core)
      ensures index < lines.Length
      ensures lines[..] == if index >= 0 then Take(old(lines[..]), index) else old(lines[..])
    {
      var i := 0;
      while i < lines.Length
        invariant 0 <= i <= lines.Length
        invariant FirstFrom(lines[..], OfCore(core), 0) == FirstFrom(lines[..], OfCore(core), i)
      {
        if Wanted(lines[i], OfCore(core)) {
          break;
        }
        i := i + 1;
      }
      if i == lines.Length {
        i := 0;
        while i < lines.Length
          invariant 0 <= i <= lines.Length
          invariant FirstFrom(lines[..], Any, 0) == FirstFrom(lines[..], Any, i)
        {
          if Wanted(lines[i], Any) {
            break;
          }
          i := i + 1;
        }
      }
      if i < lines.Length {
        lines[i] := lines[i].(busy := true);
        return i;
      }
      index := -1;
    }

    method PutMsi(index: int)
      modifies lines
      ensures lines[..] == if index >= 0 then Release(old(lines[..]), index) else old(lines[..])
    {
      if 0 <= index < lines.Length {
        if lines[index].busy {
          lines[index] := lines[index].(busy := false);
        }
      }
    }

    /** `fault` is what goes wrong, if anything, after the line is taken. */
    method RegisterIrq(ch: int, core: nat, fault: Fault, ghost s: Irqs) returns (ret: int)
      requires lines[..] == s.lines && chans[..] == s.chans
      modifies lines, chans
      ensures var t := Register(s, ch, core); lines[..] == t.lines && chans[..] == t.chans
      ensures ret == RegisterCode(s, ch, core, fault)
    {
      if ch < 0 || ch >= chans.Length {
        return -EINVAL;
      }
      var index := GetMsi(core);
      if index >= 0 && index < lines.Length {
        chans[ch] := Channel(lines[index].busy, index);
      } else {
        return -EBUSY;
      }
      ret := 0;
      if fault == BadEventFd {
        ret := -EINVAL;
      } else if fault.Refused? {
        ret := -(fault.errno as int);
      }
    }

    method DeregisterIrq(ch: int, ghost s: Irqs)
      requires lines[..] == s.lines && chans[..] == s.chans && Inv(s)
      modifies lines, chans
      ensures var t := Deregister(s, ch); lines[..] == t.lines && chans[..] == t.chans
    {
      DeregisterKeeps(s, ch);
      if ch < 0 || ch >= chans.Length {
        return;
      }
      if chans[ch].busy {
        PutMsi(chans[ch].index);
        chans[ch] := Channel(lines[chans[ch].index].busy, 0);
      }
    }
  }
}
