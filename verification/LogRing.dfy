/** The modem log: a ring of bytes the modem fills with non-zero characters and the host drains and zeroes. */
module LogRing {
  import opened Words

  function Zeros(n: nat): (s: seq<Byte>)
    ensures |s| == n && forall i :: 0 <= i < n ==> s[i] == 0
  {
    seq(n, _ => 0)
  }

  predicate NonZero(s: seq<Byte>) {
    forall i :: 0 <= i < |s| ==> s[i] != 0
  }

  /** The k bytes from `from` are non-zero. */
  predicate AllText(ring: seq<Byte>, from: nat, k: nat)
    requires from + k <= |ring|
  {
    forall i :: from <= i < from + k ==> ring[i] != 0
  }

  /** strnlen: the number of non-zero bytes from `from` to the first zero or the end. */
  function RunLength(ring: seq<Byte>, from: nat): (k: nat)
    requires from <= |ring|
    ensures from + k <= |ring| && AllText(ring, from, k)
    ensures from + k < |ring| ==> ring[from + k] == 0
    decreases |ring| - from
  {
    if from == |ring| || ring[from] == 0 then 0 else 1 + RunLength(ring, from + 1)
  }

  /** The ring with k bytes from `from` zeroed. */
  function Zeroed(ring: seq<Byte>, from: nat, k: nat): (r: seq<Byte>)
    requires from + k <= |ring|
    ensures |r| == |ring|
    ensures forall j :: 0 <= j < |ring| ==> r[j] == if from <= j < from + k then 0 else ring[j]
  {
    ring[..from] + Zeros(k) + ring[from + k..]
  }

  lemma ZeroedNothing(ring: seq<Byte>)
    ensures Zeroed(ring, 0, 0) == ring
  {
  }

  datatype Drained = Drained(ring: seq<Byte>, offset: nat, out: seq<Byte>)

  /** One drain: the run at the offset and, if that reached the end, the run at the start. */
  function Drain(ring: seq<Byte>, offset: nat): (d: Drained)
    requires offset < |ring|
    ensures |d.ring| == |ring| && d.offset < |ring|
  {
    var k := RunLength(ring, offset);
    if k == 0 then Drained(ring, offset, [])
    else
      var rest := Zeroed(ring, offset, k);
      var text := ring[offset..offset + k];
      if k == |ring| - offset then
        var k2 := RunLength(rest, 0);
        Drained(Zeroed(rest, 0, k2), if k2 >= |ring| then 0 else k2, text + rest[..k2])
      else
        Drained(rest, offset + k, text)
  }

  // ----- For any contents: nothing is made up and nothing is dropped -----

  function Count(s: seq<Byte>): nat {
    if s == [] then 0 else Count(s[..|s| - 1]) + if s[|s| - 1] != 0 then 1 else 0
  }

  lemma {:induction false} CountConcat(a: seq<Byte>, b: seq<Byte>)
    ensures Count(a + b) == Count(a) + Count(b)
    decreases |b|
  {
    if b == [] {
      assert a + b == a;
    } else {
      assert (a + b)[..|a + b| - 1] == a + b[..|b| - 1];
      CountConcat(a, b[..|b| - 1]);
    }
  }

  lemma {:induction false} CountNonZero(s: seq<Byte>)
    ensures NonZero(s) ==> Count(s) == |s|
    ensures (forall i :: 0 <= i < |s| ==> s[i] == 0) <==> Count(s) == 0
    decreases |s|
  {
    if s != [] {
      var n := |s| - 1;
      CountNonZero(s[..n]);
      assert s == s[..n] + [s[n]];
    }
  }

  lemma CountZeroed(ring: seq<Byte>, from: nat, k: nat)
    requires from + k <= |ring| && AllText(ring, from, k)
    ensures Count(Zeroed(ring, from, k)) + k == Count(ring)
  {
    var a, b, c := ring[..from], ring[from..from + k], ring[from + k..];
    TextIsNonZero(ring, from, k);
    CountWithout(a, b, c);
    ThreeParts(ring, from, k);
    assert Zeroed(ring, from, k) == a + Zeros(|b|) + c;
    hide *;
  }

  lemma ThreeParts(ring: seq<Byte>, from: nat, k: nat)
    requires from + k <= |ring|
    ensures ring == ring[..from] + ring[from..from + k] + ring[from + k..]
  {
  }

  lemma CountWithout(a: seq<Byte>, text: seq<Byte>, c: seq<Byte>)
    requires NonZero(text)
    ensures Count(a + Zeros(|text|) + c) + |text| == Count(a + text + c)
  {
    hide Count;
    CountThree(a, text, c);
    CountThree(a, Zeros(|text|), c);
    CountNonZero(text);
    CountNonZero(Zeros(|text|));
  }

  lemma CountThree(a: seq<Byte>, b: seq<Byte>, c: seq<Byte>)
    ensures Count(a + b + c) == Count(a) + Count(b) + Count(c)
  {
    hide Count;
    CountConcat(a + b, c);
    CountConcat(a, b);
  }

  /** The number of non-zero bytes drops by exactly what is returned, and only text is returned. */
  lemma DrainConserves(ring: seq<Byte>, offset: nat)
    requires offset < |ring|
    ensures
      var d := Drain(ring, offset);
      Count(d.ring) + |d.out| == Count(ring) && NonZero(d.out)
  {
    hide Zeroed, Count, NonZero;
    var k := RunLength(ring, offset);
    CountZeroed(ring, offset, k);
    var rest := Zeroed(ring, offset, k);
    TextIsNonZero(ring, offset, k);
    if k == |ring| - offset {
      CountZeroed(rest, 0, RunLength(rest, 0));
      TextIsNonZero(rest, 0, RunLength(rest, 0));
    }
    NonZeroConcat(ring[offset..offset + k], if k == |ring| - offset then rest[..RunLength(rest, 0)] else []);
  }

  lemma NonZeroConcat(a: seq<Byte>, b: seq<Byte>)
    ensures NonZero(a) && NonZero(b) ==> NonZero(a + b)
    ensures NonZero([])
  {
  }

  lemma TextIsNonZero(ring: seq<Byte>, from: nat, k: nat)
    requires from + k <= |ring| && AllText(ring, from, k)
    ensures NonZero(ring[from..from + k])
  {
  }

  // ----- As a queue -----

  /** How far round the ring position j lies from the offset. */
  function Distance(offset: nat, j: nat, n: nat): nat
    requires offset < n && j < n
  {
    if j >= offset then j - offset else j + n - offset
  }

  /** The position `step` places on. */
  function Advance(offset: nat, step: nat, n: nat): nat
    requires offset < n && step <= n
  {
    if offset + step < n then offset + step else offset + step - n
  }

  lemma AdvanceIsModular(offset: nat, step: nat, n: nat)
    requires offset < n && step <= n
    ensures Advance(offset, step, n) == (offset + step) % n
  {
    var x := offset + step;
    if x >= n {
      assert x == n * 1 + (x - n);
    }
  }

  /** The non-zero bytes are one circular run q that starts at the offset. */
  ghost predicate Holds(ring: seq<Byte>, offset: nat, q: seq<Byte>) {
    && offset < |ring| && |q| <= |ring| && NonZero(q)
    && forall j :: 0 <= j < |ring| ==>
      var i := Distance(offset, j, |ring|);
      ring[j] == if i < |q| then q[i] else 0
  }

  lemma RunLengthIs(ring: seq<Byte>, from: nat, k: nat)
    requires from + k <= |ring| && AllText(ring, from, k) && (from + k < |ring| ==> ring[from + k] == 0)
    ensures RunLength(ring, from) == k
  {
  }

  lemma ShortQueue(ring: seq<Byte>, offset: nat, q: seq<Byte>)
    requires Holds(ring, offset, q) && |q| < |ring| - offset
    ensures RunLength(ring, offset) == |q| && ring[offset..offset + |q|] == q
    ensures Zeroed(ring, offset, |q|) == Zeros(|ring|)
    ensures q == [] ==> ring == Zeros(|ring|)
  {
    hide Zeroed;
    RunLengthIs(ring, offset, |q|);
  }

  /** When the run reaches the end of the ring, what is left is a run at the start. */
  lemma TopOfQueue(ring: seq<Byte>, offset: nat, q: seq<Byte>)
    requires Holds(ring, offset, q) && |q| >= |ring| - offset
    ensures
      var top := |ring| - offset;
      && RunLength(ring, offset) == top && ring[offset..offset + top] == q[..top]
      && Holds(Zeroed(ring, offset, top), 0, q[top..])
  {
    hide Zeroed, Zeros;
    RunLengthIs(ring, offset, |ring| - offset);
  }

  lemma LongQueue(ring: seq<Byte>, offset: nat, q: seq<Byte>)
    requires Holds(ring, offset, q) && |q| >= |ring| - offset
    ensures
      var top := |ring| - offset;
      var rest := Zeroed(ring, offset, top);
      var k2 := |q| - top;
      && RunLength(ring, offset) == top && ring[offset..offset + top] == q[..top]
      && RunLength(rest, 0) == k2 && rest[..k2] == q[top..]
      && Zeroed(rest, 0, k2) == Zeros(|ring|)
  {
    hide Zeroed, Zeros, RunLength, Holds;
    QueueFits(ring, offset, q);
    TopOfQueue(ring, offset, q);
    ShortQueue(Zeroed(ring, offset, |ring| - offset), 0, q[|ring| - offset..]);
  }

  /** Draining a ring that holds q returns q, leaves the ring empty and moves the offset past q. */
  lemma DrainOfQueue(ring: seq<Byte>, offset: nat, q: seq<Byte>)
    requires Holds(ring, offset, q)
    ensures Drain(ring, offset) == Drained(Zeros(|ring|), Advance(offset, |q|, |ring|), q)
  {
    hide Zeroed, RunLength, Zeros, Holds;
    QueueFits(ring, offset, q);
    if |q| < |ring| - offset {
      ShortQueue(ring, offset, q);
    } else {
      LongQueue(ring, offset, q);
      assert q == q[..|ring| - offset] + q[|ring| - offset..];
    }
  }

  // ----- Writer and reader -----

  /** The ring, the reader's offset, the writer's position, and all bytes written and drained so far. */
  datatype Log = Log(ring: seq<Byte>, offset: nat, pos: nat, written: seq<Byte>, drained: seq<Byte>)

  datatype Op = Write(b: Byte) | Read

  /** A write is no overrun: it stores text, and not over text that was not drained. */
  predicate NoOverrun(l: Log, op: Op) {
    op.Write? ==> op.b != 0 && |l.written| < |l.drained| + |l.ring|
  }

  function Step(l: Log, op: Op): (r: Log)
    requires l.offset < |l.ring| && l.pos < |l.ring|
    ensures r.offset < |r.ring| == |l.ring| && r.pos < |r.ring|
  {
    match op
    case Write(b) =>
      l.(ring := l.ring[l.pos := b], pos := if l.pos + 1 == |l.ring| then 0 else l.pos + 1, written := l.written + [b])
    case Read =>
      var d := Drain(l.ring, l.offset);
      l.(ring := d.ring, offset := d.offset, drained := l.drained + d.out)
  }

  function Run(n: nat, ops: seq<Op>): (r: Log)
    requires n > 0
    ensures r.offset < |r.ring| == n && r.pos < n
    decreases |ops|
  {
    if ops == [] then Log(Zeros(n), 0, 0, [], []) else Step(Run(n, ops[..|ops| - 1]), ops[|ops| - 1])
  }

  ghost predicate NeverOverruns(n: nat, ops: seq<Op>)
    requires n > 0
  {
    forall i :: 0 <= i < |ops| ==> NoOverrun(Run(n, ops[..i]), ops[i])
  }

  /** What was written and not yet drained is what the ring holds, in order. */
  ghost predicate IsQueue(l: Log) {
    && l.offset < |l.ring| && l.pos < |l.ring|
    && |l.drained| <= |l.written|
    && l.written[..|l.drained|] == l.drained
    && Holds(l.ring, l.offset, l.written[|l.drained|..])
    && l.pos == Advance(l.offset, |l.written| - |l.drained|, |l.ring|)
  }

  lemma WriteAppends(ring: seq<Byte>, offset: nat, q: seq<Byte>, b: Byte)
    requires Holds(ring, offset, q) && |q| < |ring| && b != 0
    ensures Holds(ring[Advance(offset, |q|, |ring|) := b], offset, q + [b])
  {
  }

  lemma WriteIsQueue(l: Log, b: Byte)
    requires IsQueue(l) && NoOverrun(l, Write(b))
    ensures IsQueue(Step(l, Write(b)))
  {
    hide Holds;
    var q := l.written[|l.drained|..];
    QueueFits(l.ring, l.offset, q);
    WriteAppends(l.ring, l.offset, q, b);
    assert (l.written + [b])[|l.drained|..] == q + [b];
    assert (l.written + [b])[..|l.drained|] == l.drained;
  }

  lemma QueueFits(ring: seq<Byte>, offset: nat, q: seq<Byte>)
    requires Holds(ring, offset, q)
    ensures offset < |ring| && |q| <= |ring|
  {
  }

  lemma EmptyQueue(n: nat, offset: nat)
    requires offset < n
    ensures Holds(Zeros(n), offset, [])
  {
  }

  lemma ReadIsQueue(l: Log)
    requires IsQueue(l)
    ensures IsQueue(Step(l, Read)) && Step(l, Read).drained == l.written
  {
    hide Holds, Drain, Zeros;
    var q := l.written[|l.drained|..];
    QueueFits(l.ring, l.offset, q);
    DrainOfQueue(l.ring, l.offset, q);
    assert l.drained + q == l.written[..|l.drained|] + l.written[|l.drained|..] == l.written;
    assert l.written[|l.written|..] == [];
    EmptyQueue(|l.ring|, Advance(l.offset, |q|, |l.ring|));
  }

  lemma StepIsQueue(l: Log, op: Op)
    requires IsQueue(l) && NoOverrun(l, op)
    ensures IsQueue(Step(l, op))
    ensures op.Read? ==> Step(l, op).drained == l.written
  {
    hide IsQueue, Step;
    if op.Read? {
      ReadIsQueue(l);
    } else {
      WriteIsQueue(l, op.b);
    }
  }

  /** With a writer that never overruns, the drains together return what was written, in order: each drain
      returns all of it so far. */
  lemma {:induction false} RunIsQueue(n: nat, ops: seq<Op>)
    requires n > 0 && NeverOverruns(n, ops)
    ensures IsQueue(Run(n, ops))
    ensures ops != [] && ops[|ops| - 1].Read? ==> Run(n, ops).drained == Run(n, ops).written
    decreases |ops|
  {
    if ops == [] {
      EmptyQueue(n, 0);
    } else {
      var last := |ops| - 1;
      forall i | 0 <= i < last
        ensures NoOverrun(Run(n, ops[..last][..i]), ops[..last][i])
      {
        assert ops[..last][..i] == ops[..i];
      }
      RunIsQueue(n, ops[..last]);
      StepIsQueue(Run(n, ops[..last]), ops[last]);
    }
  }

  // ----- A writer that overruns -----

  /** More was written than was drained and is still held: something is lost for good. */
  ghost predicate Short(l: Log) {
    |l.drained| + Count(l.ring) < |l.written|
  }

  lemma CountUpdate(ring: seq<Byte>, p: nat, b: Byte)
    requires p < |ring|
    ensures Count(ring[p := b]) <= Count(ring) + if b != 0 then 1 else 0
  {
    var a, c := ring[..p], ring[p + 1..];
    assert ring == a + [ring[p]] + c && ring[p := b] == a + [b] + c;
    CountThree(a, [ring[p]], c);
    CountThree(a, [b], c);
    assert [b][..0] == [] && [ring[p]][..0] == [];
  }

  lemma ShortStays(l: Log, op: Op)
    requires l.offset < |l.ring| && l.pos < |l.ring| && Short(l)
    ensures Short(Step(l, op))
  {
    hide Count, Drain;
    match op
    case Write(b) => CountUpdate(l.ring, l.pos, b);
    case Read => DrainConserves(l.ring, l.offset);
  }

  lemma OverrunIsShort(l: Log, op: Op)
    requires IsQueue(l) && l.ring != [] && !NoOverrun(l, op)
    ensures Short(Step(l, op))
  {
    var q := l.written[|l.drained|..];
    assert |l.drained| + Count(l.ring) == |l.written| by {
      ReadIsQueue(l);
      DrainConserves(l.ring, l.offset);
      DrainOfQueue(l.ring, l.offset, q);
      CountNonZero(Zeros(|l.ring|));
    }
    hide IsQueue, Count;
    CountUpdate(l.ring, l.pos, op.b);
    CountAtMost(l.ring[l.pos := op.b]);
  }

  lemma {:induction false} QueueOrShort(n: nat, ops: seq<Op>)
    requires n > 0
    ensures if NeverOverruns(n, ops) then IsQueue(Run(n, ops)) else Short(Run(n, ops))
    decreases |ops|
  {
    hide IsQueue, Short, Step, NoOverrun;
    if NeverOverruns(n, ops) {
      RunIsQueue(n, ops);
    } else {
      var last := |ops| - 1;
      var before := ops[..last];
      assert forall i :: 0 <= i < last ==> before[..i] == ops[..i] && before[i] == ops[i];
      QueueOrShort(n, before);
      if NeverOverruns(n, before) {
        OverrunIsShort(Run(n, before), ops[last]);
      } else {
        ShortStays(Run(n, before), ops[last]);
      }
    }
  }

  /** After any run and one more drain, the drains together have returned what was written exactly when the
      writer never overran. */
  lemma DrainsReturnAllIffNoOverrun(n: nat, ops: seq<Op>)
    requires n > 0
    ensures var l := Run(n, ops + [Read]); l.drained == l.written <==> NeverOverruns(n, ops)
  {
    hide IsQueue, NeverOverruns, Count, Drain;
    QueueOrShort(n, ops);
    var l := Run(n, ops);
    assert (ops + [Read])[..|ops|] == ops;
    if NeverOverruns(n, ops) {
      ReadIsQueue(l);
    } else {
      ShortStays(l, Read);
    }
  }

  // ----- Reading a log whose offset was lost -----

  /** The scan that follows a drain that found nothing: every run found is drained into the same buffer. */
  function ScanFrom(ring: seq<Byte>, offset: nat, i: nat, out: seq<Byte>): Drained
    requires i <= |ring|
    decreases |ring| - i
  {
    if i == |ring| then Drained(ring, offset, out)
    else if ring[i] != 0 then
      var d := Drain(ring, i);
      ScanFrom(d.ring, d.offset, i + 1, d.out)
    else ScanFrom(ring, offset, i + 1, out)
  }

  function Show(ring: seq<Byte>, offset: nat): Drained
    requires offset < |ring|
  {
    var d := Drain(ring, offset);
    if d.out == [] then ScanFrom(d.ring, d.offset, 0, []) else d
  }

  /** The non-zero bytes lie together, without going round the end. */
  ghost predicate OneStretch(ring: seq<Byte>) {
    exists a, b :: IsStretch(ring, a, b)
  }

  ghost predicate IsStretch(ring: seq<Byte>, a: int, b: int) {
    0 <= a <= b <= |ring| && forall i :: 0 <= i < |ring| ==> (ring[i] != 0 <==> a <= i < b)
  }

  lemma DrainInScan(ring: seq<Byte>, i: nat)
    requires i < |ring| && ring[i] != 0 && forall j :: 0 <= j < i ==> ring[j] == 0
    ensures
      var k := RunLength(ring, i);
      && k > 0 && Drain(ring, i).out == ring[i..i + k] && Drain(ring, i).ring == Zeroed(ring, i, k)
      && Drain(ring, i).offset == if i + k == |ring| then 0 else i + k
  {
    hide Zeroed;
    var k := RunLength(ring, i);
    var rest := Zeroed(ring, i, k);
    if k == |ring| - i {
      assert rest[0] == 0;
      RunLengthIs(rest, 0, 0);
      ZeroedNothing(rest);
    }
  }

  lemma {:induction false} ScanResult(ring: seq<Byte>, offset: nat, i: nat, out: seq<Byte>)
    requires i <= |ring| && forall j :: 0 <= j < i ==> ring[j] == 0
    ensures
      var r := ScanFrom(ring, offset, i, out).out;
      if Count(ring) == 0 then r == out
      else |r| <= Count(ring) && (|r| == Count(ring) <==> OneStretch(ring))
    decreases |ring| - i
  {
    hide Drain, Zeroed, Count, OneStretch, RunLength;
    CountNonZero(ring);
    if i < |ring| {
      if ring[i] == 0 {
        ScanResult(ring, offset, i + 1, out);
      } else {
        var k := RunLength(ring, i);
        DrainInScan(ring, i);
        CountZeroed(ring, i, k);
        var rest := Zeroed(ring, i, k);
        ScanResult(rest, Drain(ring, i).offset, i + 1, ring[i..i + k]);
        FirstRunIsAll(ring, i, k);
      }
    }
  }

  /** The run at the first non-zero byte is all there is exactly when the bytes lie together. */
  lemma FirstRunIsAll(ring: seq<Byte>, i: nat, k: nat)
    requires i + k <= |ring| && k > 0 && (forall j :: 0 <= j < i ==> ring[j] == 0)
    requires AllText(ring, i, k) && (i + k < |ring| ==> ring[i + k] == 0)
    ensures OneStretch(ring) <==> Count(Zeroed(ring, i, k)) == 0
  {
    var rest := Zeroed(ring, i, k);
    CountNonZero(rest);
    if Count(rest) == 0 {
      forall j | 0 <= j < |ring|
        ensures ring[j] != 0 <==> i <= j < i + k
      {
        assert rest[j] == 0;
      }
      assert IsStretch(ring, i, i + k);
    }
    if OneStretch(ring) {
      var a, b :| IsStretch(ring, a, b);
      assert ring[i] != 0;
      assert a <= i < b <= i + k;
      forall j | 0 <= j < |ring|
        ensures rest[j] == 0
      {
      }
    }
  }

  /** When the drain finds nothing, showing the log returns every byte the ring holds exactly when they lie
      together; otherwise each stretch but the last is zeroed and its text overwritten. */
  lemma ShowLosesNothingIffOneStretch(ring: seq<Byte>, offset: nat)
    requires offset < |ring| && ring[offset] == 0 && Count(ring) > 0
    ensures |Show(ring, offset).out| == Count(ring) <==> OneStretch(ring)
  {
    assert Drain(ring, offset) == Drained(ring, offset, []);
    ScanResult(ring, offset, 0, []);
  }

  /** [a, b) is the last run of text in the ring. */
  ghost predicate IsLastRun(ring: seq<Byte>, a: nat, b: nat) {
    && a < b <= |ring| && AllText(ring, a, b - a)
    && (a > 0 ==> ring[a - 1] == 0)
    && forall j :: b <= j < |ring| ==> ring[j] == 0
  }

  lemma {:induction false} ScanOfZeros(ring: seq<Byte>, offset: nat, i: nat, out: seq<Byte>)
    requires i <= |ring| && forall j :: 0 <= j < |ring| ==> ring[j] == 0
    ensures ScanFrom(ring, offset, i, out) == Drained(Zeros(|ring|), offset, out)
    decreases |ring| - i
  {
    hide Drain;
    if i < |ring| {
      ScanOfZeros(ring, offset, i + 1, out);
    }
  }

  lemma {:induction false} ScanReturnsLastRun(ring: seq<Byte>, offset: nat, i: nat, out: seq<Byte>, a: nat, b: nat)
    requires IsLastRun(ring, a, b) && i <= a && forall j :: 0 <= j < i ==> ring[j] == 0
    ensures
      var r := ScanFrom(ring, offset, i, out);
      r.out == ring[a..b] && r.ring == Zeros(|ring|) && r.offset == if b == |ring| then 0 else b
    decreases |ring| - i
  {
    hide Drain, RunLength, Zeroed;
    if ring[i] == 0 {
      ScanReturnsLastRun(ring, offset, i + 1, out, a, b);
    } else {
      var k := RunLength(ring, i);
      DrainInScan(ring, i);
      var rest, next := Zeroed(ring, i, k), Drain(ring, i).offset;
      if i == a {
        RunLengthIs(ring, i, b - a);
        ScanOfZeros(rest, next, i + 1, ring[a..b]);
      } else {
        assert i + k < a;
        assert rest[a..b] == ring[a..b];
        ScanReturnsLastRun(rest, next, i + 1, ring[i..i + k], a, b);
      }
    }
  }

  /** When the drain finds nothing, the text shown is the last run, the ring ends empty, and the next drain starts
      where that run ended. */
  lemma ShowReturnsLastRun(ring: seq<Byte>, offset: nat, a: nat, b: nat)
    requires offset < |ring| && ring[offset] == 0 && IsLastRun(ring, a, b)
    ensures Show(ring, offset) == Drained(Zeros(|ring|), if b == |ring| then 0 else b, ring[a..b])
  {
    assert Drain(ring, offset) == Drained(ring, offset, []);
    ScanReturnsLastRun(ring, offset, 0, [], a, b);
  }

  // ----- The text against the page it is shown in -----

  /** The length reported for a text: a full page is reported one byte short. */
  function Returned(len: nat, page: nat): int {
    if len >= page then len - 1 else len
  }

  lemma {:induction false} CountAtMost(s: seq<Byte>)
    ensures Count(s) <= |s|
    decreases |s|
  {
    if s != [] {
      CountAtMost(s[..|s| - 1]);
    }
  }

  lemma ShowAtMost(ring: seq<Byte>, offset: nat)
    requires offset < |ring|
    ensures |Show(ring, offset).out| <= |ring|
  {
    hide Drain, Count;
    CountAtMost(ring);
    DrainConserves(ring, offset);
    var d := Drain(ring, offset);
    if d.out == [] {
      CountAtMost(d.ring);
      ScanResult(d.ring, d.offset, 0, []);
    }
  }

  lemma FullRing(n: nat)
    requires n > 0
    ensures |Show(seq(n, _ => 1), 0).out| == n
  {
    var ring: seq<Byte> := seq(n, _ => 1);
    RunLengthIs(ring, 0, n);
    RunLengthIs(Zeroed(ring, 0, n), 0, 0);
  }

  /** Whatever a ring of n bytes holds, the text fits the page and its length is reported below the page size
      exactly when n does not exceed the page; it is reported in full exactly when n is less than a page. */
  lemma ShownInPageIff(n: nat, page: nat)
    requires n > 0 && page > 0
    ensures (forall ring: seq<Byte>, offset: nat :: |ring| == n && offset < n ==>
              var len := |Show(ring, offset).out|; len <= page && Returned(len, page) < page) <==> n <= page
    ensures (forall ring: seq<Byte>, offset: nat :: |ring| == n && offset < n ==>
              var len := |Show(ring, offset).out|; Returned(len, page) == len) <==> n < page
    ensures forall len: nat :: len - 1 <= Returned(len, page) <= len
  {
    hide Show;
    FullRing(n);
    forall ring: seq<Byte>, offset: nat | |ring| == n && offset < n
      ensures |Show(ring, offset).out| <= n
    {
      ShowAtMost(ring, offset);
    }
  }

  // ----- The ring drained in place -----

  class EpLog {
    const buf: array<Byte>
    var offset: nat

    ghost predicate Valid()
      reads this
    {
      offset < buf.Length
    }

    constructor (buf: array<Byte>)
      requires buf.Length > 0
      ensures Valid() && this.buf == buf && offset == 0
    {
      this.buf := buf;
      offset := 0;
    }

    method Strnlen(from: nat) returns (k: nat)
      requires from <= buf.Length
      ensures k == RunLength(buf[..], from)
    {
      k := 0;
      while from + k < buf.Length && buf[from + k] != 0
        invariant from + k <= buf.Length
        invariant RunLength(buf[..], from) == k + RunLength(buf[..], from + k)
        decreases buf.Length - k
      {
        k := k + 1;
      }
    }

    /** Copies k bytes out and zeroes them. */
    method Extract(from: nat, k: nat) returns (text: seq<Byte>)
      requires from + k <= buf.Length
      modifies buf
      ensures text == old(buf[from..from + k])
      ensures buf[..] == Zeroed(old(buf[..]), from, k)
    {
      text := buf[from..from + k];
      forall i | from <= i < from + k {
        buf[i] := 0;
      }
    }

    method Collect() returns (out: seq<Byte>)
      requires Valid()
      modifies this, buf
      ensures Valid()
      ensures Drained(buf[..], offset, out) == Drain(old(buf[..]), old(offset))
    {
      hide RunLength, Zeroed;
      out := [];
      var maxLen := buf.Length - offset;
      var len := Strnlen(offset);
      if len != 0 {
        out := Extract(offset, len);
        offset := offset + len;
        if offset >= buf.Length {
          offset := 0;
        }
        if maxLen == len {
          len := Strnlen(0);
          if len != 0 {
            var more := Extract(0, len);
            out := out + more;
          }
          ZeroedNothing(buf[..]);
          offset := len;
          if offset >= buf.Length {
            offset := 0;
          }
        }
      }
    }

    method ShowLog(page: nat) returns (out: seq<Byte>, len: int)
      requires Valid()
      modifies this, buf
      ensures Valid()
      ensures Drained(buf[..], offset, out) == Show(old(buf[..]), old(offset))
      ensures len == Returned(|out|, page)
    {
      hide Drain, RunLength;
      out := Collect();
      if |out| == 0 {
        var i := 0;
        while i < buf.Length
          invariant Valid() && 0 <= i <= buf.Length
          invariant ScanFrom(buf[..], offset, i, out) == Show(old(buf[..]), old(offset))
        {
          if buf[i] != 0 {
            offset := i;
            out := Collect();
          }
          i := i + 1;
        }
      }
      len := |out|;
      if len >= page {
        len := len - 1;
      }
    }
  }
}
