/** Recalibration of the high-speed converters: the low-power registers saved and restored around it, the
    mailbox exchange with the converter firmware, and the handshake with the modem through one event word. */
module Recalibration {

  const LOW_POWER: bv32 := 0x100
  const ACK: bv32 := 0x1
  const INIT_DONE: bv32 := 0x10
  const START_RECAL: bv32 := 0x800
  const CAL_BIT0: bv32 := 0x1
  const CAL_BIT19: bv32 := 0x8_0000
  const CAL_BIT20: bv32 := 0x10_0000
  const FAST_CLEAR_MASK: bv32 := 0xFFFF_07FF
  const RETRIES := 20
  const RETRY_COUNT := 500
  const POLLS := 251  // polls at 0, 2, ..., RETRY_COUNT

  function Set(x: bv32, bits: bv32): bv32 { x | bits }

  function Clear(x: bv32, bits: bv32): bv32 { x & !bits }

  function Keep(x: bv32, bits: bv32): bv32 { x & bits }

  /** The channels to recalibrate, in their place in the mailbox. */
  function Select(chan: bv32): bv32 { chan << 12 }

  predicate Has(x: bv32, bits: bv32) { x & bits != 0 }

  predicate HasAll(x: bv32, bits: bv32) { x & bits == bits }

  lemma SetAgain(x: bv32)
    ensures Has(x, LOW_POWER) ==> Set(x, LOW_POWER) == x
    ensures !Has(x, LOW_POWER) ==> Clear(x, LOW_POWER) == x
    ensures !Has(Clear(x, LOW_POWER), LOW_POWER)
  {
  }

  lemma ClearOwnBits(x: bv32)
    ensures Clear(x, Keep(x, START_RECAL)) == Clear(x, START_RECAL)
  {
  }

  // ----- Polling a register -----

  /** What a register reads at each poll, and which readings end the polling. */
  datatype Probe = Probe(read: nat -> bv32, hit: bv32 -> bool)

  /** The last value read by a loop that stops at the first hit or after n reads. */
  function LastRead(p: Probe, i: nat, n: nat): (v: bv32)
    requires i < n
    ensures p.hit(v) <==> exists k :: i <= k < n && p.hit(p.read(k))
    decreases n - i
  {
    if p.hit(p.read(i)) || i + 1 == n then p.read(i) else LastRead(p, i + 1, n)
  }

  method PollRegister(p: Probe) returns (v: bv32)
    ensures v == LastRead(p, 0, RETRIES)
  {
    var retries := RETRIES;
    v := 0;
    while retries > 0
      invariant 0 <= retries <= RETRIES
      invariant retries > 0 ==> LastRead(p, 0, RETRIES) == LastRead(p, RETRIES - retries, RETRIES)
      invariant retries == 0 ==> v == LastRead(p, 0, RETRIES)
    {
      retries := retries - 1;
      v := p.read(RETRIES - 1 - retries);
      if p.hit(v) {
        break;
      }
    }
  }

  // ----- The low-power registers -----

  datatype Save = Store | Restore

  /** The two TBGEN2 registers and their saved copies. */
  datatype Tbgen = Tbgen(r1: bv32, r2: bv32, saved1: bv32, saved2: bv32)

  function SetLow(r: bv32, enable: bool): bv32 {
    if enable then Set(r, LOW_POWER) else Clear(r, LOW_POWER)
  }

  function LowPower(t: Tbgen, enable: bool, save: Save): Tbgen {
    var s := if save == Store then t.(saved1 := t.r1, saved2 := t.r2) else t;
    if save == Restore then s.(r1 := s.saved1, r2 := s.saved2)
    else s.(r1 := SetLow(s.r1, enable), r2 := SetLow(s.r2, enable))
  }

  /** The registers are written only when the bit has to change. */
  lemma SetLowIs(r: bv32)
    ensures SetLow(r, true) == if Has(r, LOW_POWER) then r else Set(r, LOW_POWER)
    ensures SetLow(r, false) == if Has(r, LOW_POWER) then Clear(r, LOW_POWER) else r
  {
    hide Set, Clear, Has;
    SetAgain(r);
  }

  /** Between storing and restoring, both converters are out of low power; after, both registers are exactly
      as they were. */
  lemma StoreRestore(t: Tbgen)
    ensures
      var during := LowPower(t, false, Store);
      var after := LowPower(during, true, Restore);
      && during.r1 == t.r1 & 0xffff_feff && during.r2 == t.r2 & 0xffff_feff
      && after.r1 == t.r1 && after.r2 == t.r2
  {
    hide SetLow;
    OutOfLowPower(t.r1);
    OutOfLowPower(t.r2);
  }

  lemma OutOfLowPower(r: bv32)
    ensures SetLow(r, false) == r & 0xffff_feff
  {
  }

  // ----- What the firmware answers -----

  /** Readings of the acknowledge, init-done, calibration and status registers during one recalibration. */
  datatype Device = Device(ack: nat -> bv32, init: nat -> bv32, resp: nat -> bv32, stat: nat -> bv32)

  function AckProbe(d: Device): Probe { Probe(d.ack, v => Has(v, ACK)) }
  function InitProbe(d: Device): Probe { Probe(d.init, v => Has(v, INIT_DONE)) }
  function RespProbe(d: Device): Probe { Probe(d.resp, v => !Has(v, 0xff)) }
  function StatProbe(d: Device, mask: bv32): Probe { Probe(d.stat, v => HasAll(v, mask)) }

  predicate Acked(d: Device) {
    Has(LastRead(AckProbe(d), 0, RETRIES), ACK)
  }

  predicate FullPasses(d: Device, mask: bv32) {
    && Acked(d)
    && Has(LastRead(InitProbe(d), 0, RETRIES), INIT_DONE)
    && !Has(LastRead(RespProbe(d), 0, RETRIES), mask)
    && HasAll(LastRead(StatProbe(d, mask), 0, RETRIES), mask)
  }

  function Progress(v: bv32): bv32 { v & 0xffff_0000 }

  predicate Moved(now: bv32, before: bv32) { now > before }

  /** After the first reading, the calibration counter moved. */
  function FastProbe(d: Device): Probe {
    Probe((k: nat) => Progress(d.resp(k + 1)), v => Moved(v, Progress(d.resp(0))))
  }

  predicate FastPasses(d: Device) {
    Moved(LastRead(FastProbe(d), 0, RETRIES), Progress(d.resp(0)))
  }

  lemma LowByteClear(v: bv32, mask: bv32)
    requires !Has(v, 0xff) && mask & 0xff == mask
    ensures !Has(v, mask)
  {
  }

  lemma {:induction false} LastOfNoHit(p: Probe, i: nat, n: nat)
    requires i < n && forall k :: i <= k < n ==> !p.hit(p.read(k))
    ensures LastRead(p, i, n) == p.read(n - 1)
    decreases n - i
  {
    if i + 1 < n {
      LastOfNoHit(p, i + 1, n);
    }
  }

  /** The calibration byte is found in order if it clears within the retries, or if the last reading at least
      has none of the bits in the mask. */
  lemma RespInOrderIff(d: Device, mask: bv32)
    requires mask & 0xff == mask
    ensures !Has(LastRead(RespProbe(d), 0, RETRIES), mask) <==>
            (exists i :: 0 <= i < RETRIES && !Has(d.resp(i), 0xff)) || !Has(d.resp(RETRIES - 1), mask)
  {
    hide Has;
    var p := RespProbe(d);
    if i :| 0 <= i < RETRIES && !Has(d.resp(i), 0xff) {
      assert p.hit(p.read(i));
      LowByteClear(LastRead(p, 0, RETRIES), mask);
    } else {
      LastOfNoHit(p, 0, RETRIES);
    }
  }

  /** A full recalibration passes exactly when the acknowledgement, init-done and all status bits each show up
      within their retries and the calibration byte is found in order. */
  lemma FullPassesExactly(d: Device, mask: bv32)
    requires mask & 0xff == mask
    ensures FullPasses(d, mask) <==>
            && (exists i :: 0 <= i < RETRIES && Has(d.ack(i), ACK))
            && (exists i :: 0 <= i < RETRIES && Has(d.init(i), INIT_DONE))
            && ((exists i :: 0 <= i < RETRIES && !Has(d.resp(i), 0xff)) || !Has(d.resp(RETRIES - 1), mask))
            && (exists i :: 0 <= i < RETRIES && HasAll(d.stat(i), mask))
  {
    hide Has, HasAll;
    RespInOrderIff(d, mask);
    HitIff(AckProbe(d));
    HitIff(InitProbe(d));
    HitIff(StatProbe(d, mask));
  }

  /** The same by the bits of the registers. */
  lemma FullPassesBits(d: Device, mask: bv32)
    requires mask & 0xff == mask
    ensures FullPasses(d, mask) <==>
            && (exists i :: 0 <= i < 20 && d.ack(i) & 0x1 != 0)
            && (exists i :: 0 <= i < 20 && d.init(i) & 0x10 != 0)
            && ((exists i :: 0 <= i < 20 && d.resp(i) & 0xff == 0) || d.resp(19) & mask == 0)
            && (exists i :: 0 <= i < 20 && d.stat(i) & mask == mask)
  {
    hide FullPasses;
    FullPassesExactly(d, mask);
    assert forall i: nat :: Has(d.ack(i), ACK) <==> d.ack(i) & 0x1 != 0;
    assert forall i: nat :: Has(d.init(i), INIT_DONE) <==> d.init(i) & 0x10 != 0;
    assert forall i: nat :: Has(d.resp(i), 0xff) <==> d.resp(i) & 0xff != 0;
    assert forall i: nat :: HasAll(d.stat(i), mask) <==> d.stat(i) & mask == mask;
  }

  /** It may pass although the calibration byte never clears. */
  lemma PassesUncleared(d: Device)
    requires d.resp == ((_: nat) => 0x80) && d.ack == ((_: nat) => ACK)
    requires d.init == ((_: nat) => INIT_DONE) && d.stat == ((_: nat) => 0x3)
    ensures FullPasses(d, 0x3) && forall i: nat :: Has(d.resp(i), 0xff)
  {
    assert d.ack(0) == ACK && d.init(0) == INIT_DONE && d.stat(0) == 0x3 && d.resp(RETRIES - 1) == 0x80;
    FullPassesExactly(d, 0x3);
  }

  /** A fast recalibration passes exactly when the calibration counter moves within its retries. */
  lemma FastPassesExactly(d: Device)
    ensures FastPasses(d) <==> exists i :: 1 <= i <= RETRIES && Moved(Progress(d.resp(i)), Progress(d.resp(0)))
  {
    hide Moved, Progress, LastRead;
    var p := FastProbe(d);
    HitIff(p);
    if FastPasses(d) {
      var k :| 0 <= k < RETRIES && p.hit(p.read(k));
      assert Moved(Progress(d.resp(k + 1)), Progress(d.resp(0)));
    }
    if i :| 1 <= i <= RETRIES && Moved(Progress(d.resp(i)), Progress(d.resp(0))) {
      assert p.hit(p.read(i - 1));
    }
  }

  lemma FastPassesBits(d: Device)
    ensures FastPasses(d) <==>
            exists i :: 1 <= i <= 20 && (d.resp(i) & 0xffff_0000) > (d.resp(0) & 0xffff_0000)
  {
    hide FastPasses;
    FastPassesExactly(d);
    assert forall i: nat :: Moved(Progress(d.resp(i)), Progress(d.resp(0))) <==>
                            (d.resp(i) & 0xffff_0000) > (d.resp(0) & 0xffff_0000);
  }

  lemma HitIff(p: Probe)
    ensures p.hit(LastRead(p, 0, RETRIES)) <==> exists k :: 0 <= k < RETRIES && p.hit(p.read(k))
  {
  }

  // ----- What is asked of the firmware -----

  /** The mailbox register after a full recalibration, which withdraws its request once it is acknowledged. */
  function FullMail(m: bv32, acked: bool): bv32 {
    var asked := Clear(Set(Set(m, CAL_BIT0), CAL_BIT19), CAL_BIT20);
    if acked then Clear(asked, CAL_BIT0) else asked
  }

  /** The mailbox register after a fast recalibration of the channels, which stops it if it passed. */
  function FastMail(m: bv32, chan: bv32, passed: bool): bv32 {
    var asked := Clear(Clear(Set(Keep(m, FAST_CLEAR_MASK), Set(Select(chan), START_RECAL)), CAL_BIT19), CAL_BIT20);
    if passed then Clear(asked, START_RECAL) else asked
  }

  /** By the bits: bit 0 is the request, bits 19 and 20 the kind. */
  lemma FullMailBits(m: bv32, acked: bool)
    ensures FullMail(m, acked) & 0x18_0001 == if acked then 0x8_0000 else 0x8_0001
    ensures FullMail(m, acked) & 0xffe7_fffe == m & 0xffe7_fffe
  {
  }

  /** By the bits: bits 12 to 15 are the channels, bit 11 the request, bits 19 and 20 the kind. */
  lemma FastMailBits(m: bv32, chan: bv32, passed: bool)
    requires chan < 16
    ensures FastMail(m, chan, passed) & 0x18_f800 == (chan << 12) | (if passed then 0 else 0x800)
    ensures FastMail(m, chan, passed) & 0xffe7_07ff == m & 0xffe7_07ff
  {
  }

  // ----- The handshake -----

  datatype Event =
    | Requested0 | Requested1 | Requested01
    | Failed0 | Failed1 | Failed01
    | Ack0 | Ack1 | Ack01
    | Denied | Completed | Completed2
    | Other(id: nat)

  datatype Antenna = Ant0 | Ant1 | Both

  /** A recalibration done, the word that prompted it, and whether it passed. */
  datatype Action = Did(ant: Antenna, after: Event, ok: bool)

  datatype Kind = Incremental | Full | Unknown

  /** A modem that only answers a pending request, with its matching acknowledgement or by denying it. */
  predicate Answers(w: Event, w': Event) {
    || w' == w
    || (w.Requested0? && (w'.Ack0? || w'.Denied?))
    || (w.Requested1? && (w'.Ack1? || w'.Denied?))
    || (w.Requested01? && (w'.Ack01? || w'.Denied?))
  }

  type Modem = (nat, Event) -> Event

  ghost predicate Honest(modem: Modem) {
    forall p, w :: Answers(w, modem(p, w))
  }

  /** The antenna an acknowledgement is for. */
  function AckFor(w: Event): Antenna
    requires w.Ack0? || w.Ack1? || w.Ack01?
  {
    if w.Ack0? then Ant0 else if w.Ack1? then Ant1 else Both
  }

  /** The word the host leaves after recalibrating. */
  function Reply(ant: Antenna, ok: bool): Event {
    match ant
    case Ant0 => if ok then Requested1 else Failed0
    case Ant1 => if ok then Completed else Failed1
    case Both => if ok then Completed2 else Failed01
  }

  datatype Outcome = Outcome(word: Event, acts: seq<Action>, early: bool, polls: nat)

  /** Polls p to the last; `works` says whether a recalibration started at a poll passes. */
  function PollFrom(p: nat, word: Event, acts: seq<Action>, modem: Modem, works: (nat, Antenna) -> bool): (r: Outcome)
    requires p <= POLLS
    ensures r.polls <= POLLS && (!r.early ==> r.polls == POLLS)
    ensures r.early ==> r.word.Completed? || r.word.Completed2?
    decreases POLLS - p
  {
    if p == POLLS then Outcome(word, acts, false, p)
    else
      var w := modem(p, word);
      if w.Completed? || w.Completed2? then Outcome(w, acts, true, p + 1)
      else if w.Ack0? || w.Ack1? || w.Ack01? then
        var ant := AckFor(w);
        var ok := works(p, ant);
        PollFrom(p + 1, Reply(ant, ok), acts + [Did(ant, w, ok)], modem, works)
      else PollFrom(p + 1, w, acts, modem, works)
  }

  function FirstWord(kind: Kind, word: Event): Event {
    match kind
    case Incremental => Requested0
    case Full => Requested01
    case Unknown => word
  }

  /** What may have been done by the time the word is w. */
  ghost predicate Reached(kind: Kind, w: Event, acts: seq<Action>) {
    if kind.Incremental? then
      match w
      case Requested0 => acts == []
      case Ack0 => acts == []
      case Failed0 => acts == [Did(Ant0, Ack0, false)]
      case Requested1 => acts == [Did(Ant0, Ack0, true)]
      case Ack1 => acts == [Did(Ant0, Ack0, true)]
      case Failed1 => acts == [Did(Ant0, Ack0, true), Did(Ant1, Ack1, false)]
      case Completed => acts == [Did(Ant0, Ack0, true), Did(Ant1, Ack1, true)]
      case Denied => acts == [] || acts == [Did(Ant0, Ack0, true)]
      case _ => false
    else
      match w
      case Requested01 => acts == []
      case Ack01 => acts == []
      case Failed01 => acts == [Did(Both, Ack01, false)]
      case Completed2 => acts == [Did(Both, Ack01, true)]
      case Denied => acts == []
      case _ => false
  }

  lemma {:induction false} PollReaches(kind: Kind, p: nat, word: Event, acts: seq<Action>, modem: Modem,
                                       works: (nat, Antenna) -> bool)
    requires p <= POLLS && !kind.Unknown? && Honest(modem) && Reached(kind, word, acts)
    ensures
      var r := PollFrom(p, word, acts, modem, works);
      Reached(kind, r.word, r.acts)
    decreases POLLS - p
  {
    if p < POLLS {
      var w := modem(p, word);
      assert Answers(word, w);
      assert Reached(kind, w, acts);
      if w.Completed? || w.Completed2? {
      } else if w.Ack0? || w.Ack1? || w.Ack01? {
        var ok := works(p, AckFor(w));
        PollReaches(kind, p + 1, Reply(AckFor(w), ok), acts + [Did(AckFor(w), w, ok)], modem, works);
      } else {
        PollReaches(kind, p + 1, w, acts, modem, works);
      }
    }
  }

  /** Against an honest modem, an incremental request recalibrates antenna 0 at most once, antenna 1 at most
      once and only after antenna 0 passed; a full request recalibrates both at most once; each on its own
      acknowledgement; and the host stops early only when everything it asked for passed. */
  lemma HandshakeSafe(kind: Kind, word: Event, modem: Modem, works: (nat, Antenna) -> bool)
    requires !kind.Unknown? && Honest(modem)
    ensures
      var r := PollFrom(0, FirstWord(kind, word), [], modem, works);
      && Reached(kind, r.word, r.acts)
      && (kind.Incremental? ==>
          r.acts in {[], [Did(Ant0, Ack0, false)], [Did(Ant0, Ack0, true)],
                     [Did(Ant0, Ack0, true), Did(Ant1, Ack1, false)], [Did(Ant0, Ack0, true), Did(Ant1, Ack1, true)]})
      && (kind.Full? ==> |r.acts| <= 1 && forall a :: a in r.acts ==> a.ant == Both && a.after == Ack01)
      && (r.early ==> r.acts == if kind.Incremental? then [Did(Ant0, Ack0, true), Did(Ant1, Ack1, true)]
                                else [Did(Both, Ack01, true)])
  {
    PollReaches(kind, 0, FirstWord(kind, word), [], modem, works);
  }

  // ----- The handshake with real recalibrations, poll by poll -----

  /** The outcome of a recalibration against the firmware's answers at that poll. */
  function Passes(dev: nat -> Device, mask: bv32): (nat, Antenna) -> bool {
    (p: nat, ant: Antenna) => if ant == Both then FullPasses(dev(p), mask) else FastPasses(dev(p))
  }

  function MailAfter(m: bv32, ant: Antenna, d: Device): bv32 {
    match ant
    case Ant0 => FastMail(m, 0x03, FastPasses(d))
    case Ant1 => FastMail(m, 0x0C, FastPasses(d))
    case Both => FullMail(m, Acked(d))
  }

  /** The mailbox register after polls p to the last. */
  function MailFrom(p: nat, word: Event, m: bv32, modem: Modem, dev: nat -> Device, mask: bv32): bv32
    requires p <= POLLS
    decreases POLLS - p
  {
    if p == POLLS then m
    else
      var w := modem(p, word);
      if w.Completed? || w.Completed2? then m
      else if w.Ack0? || w.Ack1? || w.Ack01? then
        var ant := AckFor(w);
        MailFrom(p + 1, Reply(ant, Passes(dev, mask)(p, ant)), MailAfter(m, ant, dev(p)), modem, dev, mask)
      else MailFrom(p + 1, w, m, modem, dev, mask)
  }

  /** What the host makes of the modem's answer w: its next word, and the mailbox from m to m'. */
  ghost predicate Handled(w: Event, next: Event, m: bv32, m': bv32, d: Device, mask: bv32) {
    match w
    case Ack0 => next == (if FastPasses(d) then Requested1 else Failed0) && m' == FastMail(m, 0x3, FastPasses(d))
    case Ack1 => next == (if FastPasses(d) then Completed else Failed1) && m' == FastMail(m, 0xc, FastPasses(d))
    case Ack01 => next == (if FullPasses(d, mask) then Completed2 else Failed01) && m' == FullMail(m, Acked(d))
    case _ => next == w && m' == m
  }

  /** The recalibration a that answer w calls for. */
  ghost predicate CalledFor(a: Action, w: Event, d: Device, mask: bv32) {
    match w
    case Ack0 => a == Did(Ant0, Ack0, FastPasses(d))
    case Ack1 => a == Did(Ant1, Ack1, FastPasses(d))
    case Ack01 => a == Did(Both, Ack01, FullPasses(d, mask))
    case _ => false
  }

  /** Poll p turned the host's word, the mailbox and the recalibrations as the modem's answer w says. */
  ghost predicate PollExplained(w: Event, next: Event, m: bv32, m': bv32, last: bool, acts: seq<Action>, d: Device,
                                mask: bv32)
  {
    && Handled(w, next, m, m', d, mask)
    && (w.Completed? || w.Completed2? <==> last)
    && (w.Ack0? || w.Ack1? || w.Ack01? ==> exists j :: 0 <= j < |acts| && CalledFor(acts[j], w, d, mask))
  }

  ghost predicate ActExplained(a: Action, h: seq<Event>, p: nat, modem: Modem, dev: nat -> Device, mask: bv32) {
    exists i :: 0 <= i < |h| - 1 && CalledFor(a, modem(p + i, h[i]), dev(p + i), mask)
  }

  /** The host's words from poll p on and the mailbox at each, with the recalibrations they explain. */
  ghost predicate Explains(h: seq<Event>, mail: seq<bv32>, p: nat, acts: seq<Action>, r: Outcome, modem: Modem,
                           dev: nat -> Device, mask: bv32)
  {
    && |h| == |mail| > 0 && p + |h| - 1 == r.polls && h[|h| - 1] == r.word
    && (if r.early then |h| > 1 else r.polls == POLLS)
    && (forall i :: 0 <= i < |h| - 1 ==>
        PollExplained(modem(p + i, h[i]), h[i + 1], mail[i], mail[i + 1], r.early && i == |h| - 2, acts, dev(p + i),
                      mask))
    && (forall a :: a in acts ==> ActExplained(a, h, p, modem, dev, mask))
  }

  /** One more poll in front. */
  lemma Extend(h: seq<Event>, mail: seq<bv32>, p: nat, acts: seq<Action>, r: Outcome, modem: Modem,
               dev: nat -> Device, mask: bv32, word: Event, m: bv32, more: seq<Action>)
    requires Explains(h, mail, p + 1, acts, r, modem, dev, mask)
    requires var w := modem(p, word);
      && !w.Completed? && !w.Completed2? && Handled(w, h[0], m, mail[0], dev(p), mask)
      && (if w.Ack0? || w.Ack1? || w.Ack01? then exists a :: CalledFor(a, w, dev(p), mask) && more == [a] + acts
          else more == acts)
    ensures Explains([word] + h, [m] + mail, p, more, r, modem, dev, mask)
  {
    hide Handled, CalledFor;
    var h', mail', w := [word] + h, [m] + mail, modem(p, word);
    assert forall a :: a in acts ==> a in more;
    forall i | 0 <= i < |h'| - 1
      ensures PollExplained(modem(p + i, h'[i]), h'[i + 1], mail'[i], mail'[i + 1], r.early && i == |h'| - 2, more,
                            dev(p + i), mask)
    {
      if i == 0 {
        assert w.Ack0? || w.Ack1? || w.Ack01? ==> CalledFor(more[0], w, dev(p), mask);
      } else {
        assert h'[i] == h[i - 1] && p + i == p + 1 + (i - 1);
        Later(modem(p + i, h'[i]), h'[i + 1], mail'[i], mail'[i + 1], r.early && i == |h'| - 2, acts, more, dev(p + i),
              mask);
      }
    }
    forall a | a in more
      ensures ActExplained(a, h', p, modem, dev, mask)
    {
      if a in acts {
        ExplainedBefore(a, h, p, modem, dev, mask, word);
      } else {
        assert CalledFor(a, modem(p + 0, h'[0]), dev(p + 0), mask);
      }
    }
  }

  lemma ExplainedBefore(a: Action, h: seq<Event>, p: nat, modem: Modem, dev: nat -> Device, mask: bv32, word: Event)
    requires ActExplained(a, h, p + 1, modem, dev, mask)
    ensures ActExplained(a, [word] + h, p, modem, dev, mask)
  {
    hide CalledFor;
    var h' := [word] + h;
    var i :| 0 <= i < |h| - 1 && CalledFor(a, modem(p + 1 + i, h[i]), dev(p + 1 + i), mask);
    assert h'[i + 1] == h[i] && p + 1 + i == p + (i + 1);
  }

  lemma Later(w: Event, next: Event, m: bv32, m': bv32, last: bool, acts: seq<Action>, more: seq<Action>, d: Device,
              mask: bv32)
    requires PollExplained(w, next, m, m', last, acts, d, mask) && forall a :: a in acts ==> a in more
    ensures PollExplained(w, next, m, m', last, more, d, mask)
  {
    hide Handled, CalledFor;
    if w.Ack0? || w.Ack1? || w.Ack01? {
      var j :| 0 <= j < |acts| && CalledFor(acts[j], w, d, mask);
      assert acts[j] in more;
    }
  }

  lemma AckHandled(p: nat, word: Event, acts: seq<Action>, m: bv32, modem: Modem, dev: nat -> Device, mask: bv32)
    requires p < POLLS && (modem(p, word).Ack0? || modem(p, word).Ack1? || modem(p, word).Ack01?)
    ensures
      var w, works := modem(p, word), Passes(dev, mask);
      var ant, ok := AckFor(w), works(p, AckFor(w));
      && Handled(w, Reply(ant, ok), m, MailAfter(m, ant, dev(p)), dev(p), mask)
      && CalledFor(Did(ant, w, ok), w, dev(p), mask)
      && PollFrom(p, word, acts, modem, works)
         == PollFrom(p + 1, Reply(ant, ok), acts + [Did(ant, w, ok)], modem, works)
      && MailFrom(p, word, m, modem, dev, mask)
         == MailFrom(p + 1, Reply(ant, ok), MailAfter(m, ant, dev(p)), modem, dev, mask)
  {
    hide FullPasses, FastPasses, FastMail, FullMail, Acked;
  }

  lemma {:induction false} ExplainFrom(p: nat, word: Event, acts: seq<Action>, m: bv32, modem: Modem,
                                       dev: nat -> Device, mask: bv32)
    returns (h: seq<Event>, mail: seq<bv32>)
    requires p <= POLLS
    ensures
      var r := PollFrom(p, word, acts, modem, Passes(dev, mask));
      && acts <= r.acts && |h| == |mail| > 0
      && Explains(h, mail, p, r.acts[|acts|..], r, modem, dev, mask) && h[0] == word && mail[0] == m
      && mail[|mail| - 1] == MailFrom(p, word, m, modem, dev, mask)
    decreases POLLS - p, 1
  {
    hide Explains, CalledFor, Passes, MailAfter, Reply, AckFor;
    var r, w := PollFrom(p, word, acts, modem, Passes(dev, mask)), modem(p, word);
    if p == POLLS {
      assert r.acts[|acts|..] == [];
      h, mail := ExplainNone(p, word, m, r, modem, dev, mask);
    } else if w.Completed? || w.Completed2? {
      assert r.acts[|acts|..] == [];
      h, mail := ExplainLast(p, word, m, r, modem, dev, mask);
    } else if w.Ack0? || w.Ack1? || w.Ack01? {
      h, mail := ExplainAck(p, word, acts, m, modem, dev, mask);
    } else {
      h, mail := ExplainFrom(p + 1, w, acts, m, modem, dev, mask);
      Extend(h, mail, p, r.acts[|acts|..], r, modem, dev, mask, word, m, r.acts[|acts|..]);
      h, mail := [word] + h, [m] + mail;
    }
  }

  lemma {:induction false} ExplainAck(p: nat, word: Event, acts: seq<Action>, m: bv32, modem: Modem,
                                      dev: nat -> Device, mask: bv32)
    returns (h: seq<Event>, mail: seq<bv32>)
    requires p < POLLS && (modem(p, word).Ack0? || modem(p, word).Ack1? || modem(p, word).Ack01?)
    ensures
      var r := PollFrom(p, word, acts, modem, Passes(dev, mask));
      && acts <= r.acts && |h| == |mail| > 0
      && Explains(h, mail, p, r.acts[|acts|..], r, modem, dev, mask) && h[0] == word && mail[0] == m
      && mail[|mail| - 1] == MailFrom(p, word, m, modem, dev, mask)
    decreases POLLS - p, 0
  {
    hide Explains, Handled, CalledFor, Passes, MailAfter, Reply, PollFrom, MailFrom;
    var r, w := PollFrom(p, word, acts, modem, Passes(dev, mask)), modem(p, word);
    var ant := AckFor(w);
    var ok := Passes(dev, mask)(p, ant);
    var act := Did(ant, w, ok);
    AckHandled(p, word, acts, m, modem, dev, mask);
    h, mail := ExplainFrom(p + 1, Reply(ant, ok), acts + [act], MailAfter(m, ant, dev(p)), modem, dev, mask);
    assert r.acts[|acts|..] == [act] + r.acts[|acts| + 1..];
    Extend(h, mail, p, r.acts[|acts| + 1..], r, modem, dev, mask, word, m, r.acts[|acts|..]);
    h, mail := [word] + h, [m] + mail;
  }

  lemma ExplainNone(p: nat, word: Event, m: bv32, r: Outcome, modem: Modem, dev: nat -> Device, mask: bv32)
    returns (h: seq<Event>, mail: seq<bv32>)
    requires p == POLLS && r.word == word && r.polls == p && !r.early
    ensures h == [word] && mail == [m] && Explains(h, mail, p, [], r, modem, dev, mask)
  {
    h, mail := [word], [m];
  }

  lemma ExplainLast(p: nat, word: Event, m: bv32, r: Outcome, modem: Modem, dev: nat -> Device, mask: bv32)
    returns (h: seq<Event>, mail: seq<bv32>)
    requires r.early && r.word == modem(p, word) && r.polls == p + 1 && (r.word.Completed? || r.word.Completed2?)
    ensures h == [word, r.word] && mail == [m, m] && Explains(h, mail, p, [], r, modem, dev, mask)
  {
    h, mail := [word, r.word], [m, m];
  }

  /** A whole handshake: what the host writes first, and at every poll what its word, the mailbox and the
      recalibrations become. With an honest modem each recalibration answers the host's own request. */
  lemma HandshakeTrace(kind: Kind, word: Event, m: bv32, modem: Modem, dev: nat -> Device, mask: bv32)
    returns (h: seq<Event>, mail: seq<bv32>)
    ensures
      var r := PollFrom(0, FirstWord(kind, word), [], modem, Passes(dev, mask));
      && Explains(h, mail, 0, r.acts, r, modem, dev, mask)
      && (kind.Incremental? ==> h[0] == Requested0)
      && (kind.Full? ==> h[0] == Requested01)
      && (kind.Unknown? ==> h[0] == word)
      && mail[0] == m && mail[|mail| - 1] == MailFrom(0, FirstWord(kind, word), m, modem, dev, mask)
    ensures !kind.Unknown? && Honest(modem) ==> OwnRequests(h, modem)
  {
    hide Explains, FullPasses, FastPasses, PollFrom, MailFrom;
    h, mail := ExplainFrom(0, FirstWord(kind, word), [], m, modem, dev, mask);
    var r := PollFrom(0, FirstWord(kind, word), [], modem, Passes(dev, mask));
    assert r.acts[0..] == r.acts;
    if !kind.Unknown? && Honest(modem) {
      HonestAnswers(h, mail, r.acts, r, modem, dev, mask);
    }
  }

  /** Every acknowledgement was given to the request it belongs to. */
  ghost predicate OwnRequests(h: seq<Event>, modem: Modem) {
    forall i :: 0 <= i < |h| - 1 ==>
      var w := modem(i, h[i]);
      && (w.Ack0? ==> h[i] == Requested0) && (w.Ack1? ==> h[i] == Requested1) && (w.Ack01? ==> h[i] == Requested01)
  }

  lemma HonestAnswers(h: seq<Event>, mail: seq<bv32>, acts: seq<Action>, r: Outcome, modem: Modem, dev: nat -> Device,
                      mask: bv32)
    requires Explains(h, mail, 0, acts, r, modem, dev, mask) && Honest(modem)
    requires h[0] == Requested0 || h[0] == Requested01
    ensures OwnRequests(h, modem)
  {
    forall i | 0 <= i < |h| - 1
      ensures Answers(h[i], modem(i, h[i])) && !h[i].Ack0? && !h[i].Ack1? && !h[i].Ack01?
    {
      if i > 0 {
        HostNeverAcks(h, mail, acts, r, modem, dev, mask, i - 1);
      }
    }
  }

  lemma HostNeverAcks(h: seq<Event>, mail: seq<bv32>, acts: seq<Action>, r: Outcome, modem: Modem, dev: nat -> Device,
                      mask: bv32, i: nat)
    requires Explains(h, mail, 0, acts, r, modem, dev, mask) && i < |h| - 1
    ensures !h[i + 1].Ack0? && !h[i + 1].Ack1? && !h[i + 1].Ack01?
  {
    hide FullPasses, FastPasses, FastMail, FullMail, Acked;
    assert PollExplained(modem(0 + i, h[i]), h[i + 1], mail[i], mail[i + 1], r.early && i == |h| - 2, acts, dev(0 + i),
                         mask);
  }

  /** A modem that never answers gets nothing done. */
  lemma SilentModem(kind: Kind, word: Event, modem: Modem, works: (nat, Antenna) -> bool)
    requires !kind.Unknown? && forall p, w :: modem(p, w) == w
    ensures PollFrom(0, FirstWord(kind, word), [], modem, works)
         == Outcome(if kind.Full? then Requested01 else Requested0, [], false, POLLS)
  {
    StaysSilent(0, if kind.Full? then Requested01 else Requested0, modem, works);
  }

  lemma {:induction false} StaysSilent(p: nat, word: Event, modem: Modem, works: (nat, Antenna) -> bool)
    requires p <= POLLS && (word == Requested0 || word == Requested01) && forall q, w :: modem(q, w) == w
    ensures PollFrom(p, word, [], modem, works) == Outcome(word, [], false, POLLS)
    decreases POLLS - p
  {
    if p < POLLS {
      StaysSilent(p + 1, word, modem, works);
    }
  }

  /** A modem that acknowledges every request at once gets both antennas done, at the first two polls or together at
      the first, and the host stops at the next one. */
  lemma ObligingModem(kind: Kind, word: Event, modem: Modem, works: (nat, Antenna) -> bool)
    requires !kind.Unknown? && forall p, ant :: works(p, ant)
    requires forall p :: modem(p, Requested0) == Ack0 && modem(p, Requested1) == Ack1 && modem(p, Requested01) == Ack01
    requires forall p :: modem(p, Completed) == Completed && modem(p, Completed2) == Completed2
    ensures PollFrom(0, FirstWord(kind, word), [], modem, works)
         == if kind.Full? then Outcome(Completed2, [Did(Both, Ack01, true)], true, 2)
            else Outcome(Completed, [Did(Ant0, Ack0, true), Did(Ant1, Ack1, true)], true, 3)
  {
    if kind.Full? {
      PollUnfolds(0, Requested01, [], modem, works);
      PollUnfolds(1, Completed2, [Did(Both, Ack01, true)], modem, works);
    } else {
      PollUnfolds(0, Requested0, [], modem, works);
      PollUnfolds(1, Requested1, [Did(Ant0, Ack0, true)], modem, works);
      PollUnfolds(2, Completed, [Did(Ant0, Ack0, true)] + [Did(Ant1, Ack1, true)], modem, works);
    }
  }

  // ----- The driver -----

  class Hsdcs {
    var r1: bv32
    var r2: bv32
    var saved1: bv32
    var saved2: bv32
    var mailbox1: bv32
    var word: Event
    const mask: bv32  // the converters in use

    constructor (r1: bv32, r2: bv32, mailbox1: bv32, word: Event, mask: bv32)
      ensures this.r1 == r1 && this.r2 == r2 && this.mailbox1 == mailbox1 && this.word == word && this.mask == mask
    {
      this.r1, this.r2, saved1, saved2 := r1, r2, 0, 0;
      this.mailbox1, this.word, this.mask := mailbox1, word, mask;
    }

    ghost function View(): Tbgen
      reads this
    {
      Tbgen(r1, r2, saved1, saved2)
    }

    method LowPowerConf(enable: bool, save: Save)
      modifies this`r1, this`r2, this`saved1, this`saved2
      ensures View() == LowPower(old(View()), enable, save)
    {
      hide SetLow;
      if save == Store {
        saved1 := r1;
        saved2 := r2;
      }
      r1 := WithLowPower(r1, enable);
      r2 := WithLowPower(r2, enable);
      if save == Restore {
        if r1 != saved1 {
          r1 := saved1;
        }
        if r2 != saved2 {
          r2 := saved2;
        }
      }
    }

    /** Sets or clears the low-power bit unless it already has that value. */
    method WithLowPower(r: bv32, enable: bool) returns (c: bv32)
      ensures c == SetLow(r, enable)
    {
      hide Set, Clear, Has, SetLow;
      SetLowIs(r);
      c := r;
      if enable {
        if !Has(c, LOW_POWER) {
          c := Set(c, LOW_POWER);
        }
      } else {
        if Has(c, LOW_POWER) {
          c := Clear(c, LOW_POWER);
        }
      }
    }

    /** Whatever the firmware does, both registers end as they began. */
    method FullRecal(d: Device) returns (ok: bool)
      modifies this`r1, this`r2, this`saved1, this`saved2, this`mailbox1
      ensures r1 == old(r1) && r2 == old(r2)
      ensures ok == FullPasses(d, mask)
      ensures mailbox1 == FullMail(old(mailbox1), Acked(d))
    {
      hide Set, Clear, LowPower, LastRead, Progress, FullPasses, Acked, FullMail;
      ghost var t := View();
      LowPowerConf(false, Store);
      ok := Exchange(d);
      LowPowerConf(true, Restore);
      StoreRestore(t);
    }

    /** The mailbox exchange of a full recalibration; it does not touch the low-power registers. */
    method Exchange(d: Device) returns (ok: bool)
      modifies this`mailbox1
      ensures ok == FullPasses(d, mask)
      ensures mailbox1 == FullMail(old(mailbox1), Acked(d))
    {
      hide Set, Clear, Has, HasAll, LastRead;
      var val2 := mailbox1;
      val2 := Set(val2, CAL_BIT0);
      val2 := Set(val2, CAL_BIT19);
      val2 := Clear(val2, CAL_BIT20);
      mailbox1 := val2;
      var val := PollRegister(AckProbe(d));
      if !Has(val, ACK) {
        return false;
      }
      val2 := Clear(val2, CAL_BIT0);
      mailbox1 := val2;
      val := PollRegister(InitProbe(d));
      if !Has(val, INIT_DONE) {
        return false;
      }
      val := PollRegister(RespProbe(d));
      var status := PollRegister(StatProbe(d, mask));
      ok := !(Has(val, mask) || !HasAll(status, mask));
    }

    method FastRecal(d: Device, chan: bv32) returns (ok: bool)
      modifies this`r1, this`r2, this`saved1, this`saved2, this`mailbox1
      ensures r1 == old(r1) && r2 == old(r2)
      ensures ok == FastPasses(d)
      ensures mailbox1 == FastMail(old(mailbox1), chan, ok)
    {
      hide Set, Clear, Keep, Select, LowPower, FastPasses, FastMail;
      ghost var t := View();
      LowPowerConf(false, Store);
      ok := FastExchange(d, chan);
      LowPowerConf(true, Restore);
      StoreRestore(t);
    }

    method FastExchange(d: Device, chan: bv32) returns (ok: bool)
      modifies this`mailbox1
      ensures ok == FastPasses(d)
      ensures mailbox1 == FastMail(old(mailbox1), chan, ok)
    {
      hide Set, Clear, Keep, Select, Progress, Moved, LastRead, FastProbe;
      var cal1 := Progress(d.resp(0));
      var oval := mailbox1;
      oval := Keep(oval, FAST_CLEAR_MASK);
      var val := Select(chan);
      val := Set(val, START_RECAL);
      oval := Set(oval, val);
      oval := Clear(oval, CAL_BIT19);
      oval := Clear(oval, CAL_BIT20);
      mailbox1 := oval;
      var cal2 := PollRegister(FastProbe(d));
      ok := Moved(cal2, cal1);
      if ok {
        val := mailbox1;
        ClearOwnBits(val);
        val := Clear(val, Keep(val, START_RECAL));
        mailbox1 := val;
      }
    }

    /** One poll of the handshake. */
    method HandlePoll(p: nat, modem: Modem, dev: nat -> Device, ghost acts: seq<Action>)
      returns (ghost more: seq<Action>, done: bool)
      modifies this
      ensures r1 == old(r1) && r2 == old(r2)
      ensures
        var w := modem(p, old(word));
        if w.Ack0? || w.Ack1? || w.Ack01? then
          var ant, ok := AckFor(w), Passes(dev, mask)(p, AckFor(w));
          && !done && word == Reply(ant, ok) && more == acts + [Did(ant, w, ok)]
          && mailbox1 == MailAfter(old(mailbox1), ant, dev(p))
        else (done <==> w.Completed? || w.Completed2?) && word == w && more == acts && mailbox1 == old(mailbox1)
    {
      hide FullPasses, FastPasses, FastMail, FullMail, Acked;
      word := modem(p, word);
      done := false;
      more := acts;
      match word {
        case Ack0 =>
          var ok := FastRecal(dev(p), 0x03);
          word := if ok then Requested1 else Failed0;
          more := acts + [Did(Ant0, Ack0, ok)];
        case Ack1 =>
          var ok := FastRecal(dev(p), 0x0C);
          word := if ok then Completed else Failed1;
          more := acts + [Did(Ant1, Ack1, ok)];
        case Completed =>
          done := true;
        case Completed2 =>
          done := true;
        case Ack01 =>
          var ok := FullRecal(dev(p));
          word := if ok then Completed2 else Failed01;
          more := acts + [Did(Both, Ack01, ok)];
        case _ =>
      }
    }

    /** The host's side of the handshake: at poll p the modem turns the word w into modem(p, w). */
    method RaiseModemCalReq(kind: Kind, modem: Modem, dev: nat -> Device) returns (ghost acts: seq<Action>, early: bool)
      modifies this
      ensures r1 == old(r1) && r2 == old(r2)
      ensures
        var r := PollFrom(0, FirstWord(kind, old(word)), [], modem, Passes(dev, mask));
        word == r.word && acts == r.acts && early == r.early
      ensures mailbox1 == MailFrom(0, FirstWord(kind, old(word)), old(mailbox1), modem, dev, mask)
    {
      hide FullPasses, FastPasses, PollFrom, MailFrom, MailAfter, Reply, AckFor, Passes;
      match kind {
        case Incremental => word := Requested0;
        case Full => word := Requested01;
        case Unknown =>
      }
      acts := [];
      ghost var works := Passes(dev, mask);
      ghost var all, mail := PollFrom(0, word, acts, modem, works), MailFrom(0, word, mailbox1, modem, dev, mask);
      var i := 0;
      ghost var p: nat := 0;
      while i <= RETRY_COUNT
        invariant i == 2 * p && p <= POLLS
        invariant r1 == old(r1) && r2 == old(r2)
        invariant PollFrom(p, word, acts, modem, works) == all
        invariant MailFrom(p, word, mailbox1, modem, dev, mask) == mail
      {
        PollUnfolds(p, word, acts, modem, works);
        MailUnfolds(p, word, mailbox1, modem, dev, mask);
        var done;
        acts, done := HandlePoll(i / 2, modem, dev, acts);
        if done {
          return acts, true;
        }
        i := i + 1;
        i := i + 1;
        p := p + 1;
      }
      PollUnfolds(p, word, acts, modem, works);
      MailUnfolds(p, word, mailbox1, modem, dev, mask);
      early := false;
    }
  }

  lemma MailUnfolds(p: nat, word: Event, m: bv32, modem: Modem, dev: nat -> Device, mask: bv32)
    requires p <= POLLS
    ensures MailFrom(p, word, m, modem, dev, mask) ==
      if p == POLLS then m
      else
        var w := modem(p, word);
        if w.Completed? || w.Completed2? then m
        else if w.Ack0? || w.Ack1? || w.Ack01? then
          var ant := AckFor(w);
          MailFrom(p + 1, Reply(ant, Passes(dev, mask)(p, ant)), MailAfter(m, ant, dev(p)), modem, dev, mask)
        else MailFrom(p + 1, w, m, modem, dev, mask)
  {
  }

  lemma PollUnfolds(p: nat, word: Event, acts: seq<Action>, modem: Modem, works: (nat, Antenna) -> bool)
    requires p <= POLLS
    ensures PollFrom(p, word, acts, modem, works) ==
      if p == POLLS then Outcome(word, acts, false, p)
      else
        var w := modem(p, word);
        if w.Completed? || w.Completed2? then Outcome(w, acts, true, p + 1)
        else if w.Ack0? || w.Ack1? || w.Ack01? then
          var ant, ok := AckFor(w), works(p, AckFor(w));
          PollFrom(p + 1, Reply(ant, ok), acts + [Did(ant, w, ok)], modem, works)
        else PollFrom(p + 1, w, acts, modem, works)
  {
  }
}
