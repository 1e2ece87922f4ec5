/** The parser of the file control parameters a SIM returns on SELECT (section 11.1.1.3 of ETSI TS 102 221):
    a template of tag-length-value objects with one-byte lengths. */
module FcpTemplate {
  import opened Words

  const TEMPLATE_TAG := 0x62
  const FILE_SIZE := 0x80
  const FILE_DESC := 0x82

  function Word(hi: Byte, lo: Byte): int { 256 * (hi as int) + lo as int }

  datatype Tlv = Tlv(tag: Byte, value: seq<Byte>)

  ghost predicate Encodable(tlvs: seq<Tlv>) {
    forall i :: 0 <= i < |tlvs| ==> |tlvs[i].value| < 256
  }

  function Encode(tlvs: seq<Tlv>): seq<Byte>
    requires Encodable(tlvs)
  {
    if tlvs == [] then [] else [tlvs[0].tag, |tlvs[0].value|] + tlvs[0].value + Encode(tlvs[1..])
  }

  /** What the parser fills in: the file size and the record length and count. */
  datatype Found = Found(fileLen: int, recLen: int, recCount: int)

  /** What the caller asks for: which of the two pointers is not null. */
  datatype Want = Want(size: bool, record: bool)

  /** The end of what is read to handle the object at pos. It does not depend on the length of an object 82. */
  function ReadEnd(b: seq<Byte>, pos: nat, w: Want): nat
    requires pos + 2 <= |b|
  {
    if w.record && b[pos] == FILE_DESC then pos + 7
    else if w.size && b[pos] == FILE_SIZE && (b[pos + 1] == 1 || b[pos + 1] == 2) then pos + 2 + b[pos + 1] as int
    else pos + 2
  }

  /** All reads of the loop over the objects between pos and end lie in the buffer. */
  predicate WalkInBounds(b: seq<Byte>, pos: nat, end: nat, w: Want)
    decreases end - pos
  {
    pos + 1 < end ==>
      && pos + 2 <= |b|
      && ReadEnd(b, pos, w) <= |b|
      && WalkInBounds(b, pos + 2 + b[pos + 1] as int, end, w)
  }

  /** The effect of the object at pos. */
  function Note(b: seq<Byte>, pos: nat, w: Want, f: Found): Found
    requires pos + 2 <= |b| && ReadEnd(b, pos, w) <= |b|
  {
    if w.record && b[pos] == FILE_DESC then f.(recLen := Word(b[pos + 4], b[pos + 5]), recCount := b[pos + 6])
    else if w.size && b[pos] == FILE_SIZE && b[pos + 1] == 1 then f.(fileLen := b[pos + 2])
    else if w.size && b[pos] == FILE_SIZE && b[pos + 1] == 2 then f.(fileLen := Word(b[pos + 2], b[pos + 3]))
    else f
  }

  /** The loop over the objects between pos and end. */
  function Walk(b: seq<Byte>, pos: nat, end: nat, w: Want, f: Found): (int, Found)
    requires WalkInBounds(b, pos, end, w)
    decreases end - pos
  {
    if pos + 1 >= end then (-1, f)
    else
      var noted := Note(b, pos, w, f);
      var next := pos + 2 + b[pos + 1] as int;
      if next == end then (0, noted) else Walk(b, next, end, w, noted)
  }

  /** All reads of the parser lie in the buffer. */
  predicate ParseInBounds(b: seq<Byte>, w: Want) {
    |b| >= 2 && (b[1] == TEMPLATE_TAG ==> |b| >= 3 && WalkInBounds(b, 3, 3 + b[2] as int, w))
  }

  function Parse(b: seq<Byte>, w: Want, f: Found): (int, Found)
    requires ParseInBounds(b, w)
  {
    if b[1] != TEMPLATE_TAG then (-1, f) else Walk(b, 3, 3 + b[2] as int, w, f)
  }

  // ----- Which templates are accepted -----

  lemma FirstObject(b: seq<Byte>, pos: nat, end: nat, tlvs: seq<Tlv>)
    requires Encodable(tlvs) && tlvs != [] && pos <= end <= |b| && b[pos..end] == Encode(tlvs)
    ensures
      var next := pos + 2 + |tlvs[0].value|;
      && pos + 2 <= next <= end
      && b[pos] == tlvs[0].tag && b[pos + 1] == |tlvs[0].value|
      && b[pos + 2..next] == tlvs[0].value && b[next..end] == Encode(tlvs[1..])
  {
    var t, rest := tlvs[0], Encode(tlvs[1..]);
    var head, n := [t.tag, |t.value|] + t.value, |t.value| + 2;
    var s := b[pos..end];
    assert s == head + rest;
    assert s[0] == t.tag && s[1] == |t.value|;
    assert s[2..n] == head[2..n] == t.value;
    assert s[n..] == rest;
    SliceOfSlice(b, pos, end, 2, n);
    SliceOfSlice(b, pos, end, n, |s|);
  }

  lemma SliceOfSlice(b: seq<Byte>, pos: nat, end: nat, i: nat, j: nat)
    requires pos <= end <= |b| && i <= j <= end - pos
    ensures b[pos..end][i..j] == b[pos + i..pos + j]
  {
    var s := b[pos..end];
    forall k | 0 <= k < j - i
      ensures s[i..j][k] == b[pos + i..pos + j][k]
    {
      assert s[i + k] == b[pos + (i + k)];
    }
  }

  lemma NothingEncoded()
    ensures Encode([]) == []
  {
  }

  /** The loop takes one object of an encoded list at a time. */
  lemma WalkStep(b: seq<Byte>, pos: nat, end: nat, tlvs: seq<Tlv>, w: Want, f: Found)
    requires pos <= end <= |b| && Encodable(tlvs) && tlvs != [] && b[pos..end] == Encode(tlvs)
    requires WalkInBounds(b, pos, end, w)
    ensures
      var next := pos + 2 + |tlvs[0].value|;
      && pos + 2 <= next <= end
      && b[pos] == tlvs[0].tag && b[pos + 1] == |tlvs[0].value| && b[pos + 2..next] == tlvs[0].value
      && ReadEnd(b, pos, w) <= |b|
      && (|tlvs| == 1 ==> Walk(b, pos, end, w, f) == (0, Note(b, pos, w, f)))
      && (|tlvs| > 1 ==>
          && WalkInBounds(b, next, end, w) && b[next..end] == Encode(tlvs[1..])
          && Walk(b, pos, end, w, f) == Walk(b, next, end, w, Note(b, pos, w, f)))
  {
    NothingEncoded();
    hide Encode, Note, ReadEnd;
    FirstObject(b, pos, end, tlvs);
    if |tlvs| > 1 {
      FirstObject(b, pos + 2 + |tlvs[0].value|, end, tlvs[1..]);
    } else {
      assert tlvs[1..] == [];
    }
  }

  lemma {:induction false} WalkAccepts(b: seq<Byte>, pos: nat, end: nat, tlvs: seq<Tlv>, w: Want, f: Found)
    requires pos <= end <= |b| && Encodable(tlvs) && tlvs != [] && b[pos..end] == Encode(tlvs)
    requires WalkInBounds(b, pos, end, w)
    ensures Walk(b, pos, end, w, f).0 == 0
    decreases |tlvs|
  {
    hide Encode, Walk, WalkInBounds, Note, ReadEnd;
    WalkStep(b, pos, end, tlvs, w, f);
    if |tlvs| > 1 {
      WalkAccepts(b, pos + 2 + |tlvs[0].value|, end, tlvs[1..], w, Note(b, pos, w, f));
    }
  }

  lemma {:induction false} WalkDecodes(b: seq<Byte>, pos: nat, end: nat, w: Want, f: Found) returns (tlvs: seq<Tlv>)
    requires end <= |b| && WalkInBounds(b, pos, end, w) && Walk(b, pos, end, w, f).0 == 0
    ensures pos <= end && Encodable(tlvs) && tlvs != [] && b[pos..end] == Encode(tlvs)
    decreases end - pos
  {
    var next := pos + 2 + b[pos + 1] as int;
    if next == end {
      tlvs := Prepend(b, pos, end, []);
    } else {
      var rest := WalkDecodes(b, next, end, w, Note(b, pos, w, f));
      tlvs := Prepend(b, pos, end, rest);
    }
  }

  lemma Prepend(b: seq<Byte>, pos: nat, end: nat, rest: seq<Tlv>) returns (tlvs: seq<Tlv>)
    requires pos + 1 < end <= |b| && pos + 2 + b[pos + 1] as int <= end
    requires Encodable(rest) && b[pos + 2 + b[pos + 1] as int..end] == Encode(rest)
    ensures Encodable(tlvs) && tlvs != [] && b[pos..end] == Encode(tlvs)
  {
    var next := pos + 2 + b[pos + 1] as int;
    tlvs := [Tlv(b[pos], b[pos + 2..next])] + rest;
    assert tlvs[1..] == rest;
    assert b[pos..end] == [b[pos], b[pos + 1]] + b[pos + 2..next] + b[next..end];
  }

  /** A walk whose reads are in bounds does not depend on what follows the buffer. */
  lemma {:induction false} WalkExtends(b: seq<Byte>, after: seq<Byte>, pos: nat, end: nat, w: Want, f: Found)
    requires WalkInBounds(b, pos, end, w)
    ensures WalkInBounds(b + after, pos, end, w) && Walk(b + after, pos, end, w, f) == Walk(b, pos, end, w, f)
    decreases end - pos
  {
    if pos + 1 < end {
      assert ReadEnd(b + after, pos, w) == ReadEnd(b, pos, w);
      assert Note(b + after, pos, w, f) == Note(b, pos, w, f);
      WalkExtends(b, after, pos + 2 + b[pos + 1] as int, end, w, Note(b, pos, w, f));
    }
  }

  ghost predicate IsTemplate(body: seq<Byte>) {
    exists tlvs :: Encodable(tlvs) && tlvs != [] && Encode(tlvs) == body
  }

  /** A template is accepted exactly when it has the right tag and its body is a non-empty concatenation of
      objects with nothing left over. What of the body lies beyond the buffer may be anything. */
  lemma AcceptedIffTemplate(b: seq<Byte>, after: seq<Byte>, w: Want, f: Found)
    requires ParseInBounds(b, w) && (b[1] == TEMPLATE_TAG ==> 3 + b[2] as int <= |b| + |after|)
    ensures Parse(b, w, f).0 == 0 <==> b[1] == TEMPLATE_TAG && IsTemplate((b + after)[3..3 + b[2] as int])
  {
    if b[1] == TEMPLATE_TAG {
      var all, end := b + after, 3 + b[2] as int;
      WalkExtends(b, after, 3, end, w, f);
      if IsTemplate(all[3..end]) {
        var tlvs :| Encodable(tlvs) && tlvs != [] && Encode(tlvs) == all[3..end];
        WalkAccepts(all, 3, end, tlvs, w, f);
      }
      if Walk(all, 3, end, w, f).0 == 0 {
        var tlvs := WalkDecodes(all, 3, end, w, f);
      }
    }
  }

  /** The size of the buffer is not consulted: a template may be accepted of which only the first five bytes
      are there. */
  lemma AcceptedAlthoughCutOff(w: Want, f: Found)
    ensures
      var b: seq<Byte> := [0, TEMPLATE_TAG, 10, 0x83, 8];
      ParseInBounds(b, w) && Parse(b, w, f) == (0, f)
  {
    var b: seq<Byte> := [0, TEMPLATE_TAG, 10, 0x83, 8];
    assert WalkInBounds(b, 13, 13, w);
    assert WalkInBounds(b, 3, 13, w);
  }

  // ----- What is read from them -----

  predicate IsSize(t: Tlv) {
    t.tag == FILE_SIZE && (|t.value| == 1 || |t.value| == 2)
  }

  function SizeIn(t: Tlv): int
    requires IsSize(t)
  {
    if |t.value| == 1 then t.value[0] else Word(t.value[0], t.value[1])
  }

  /** k is the last object that satisfies p, or -1 if none does. */
  ghost predicate IsLast(tlvs: seq<Tlv>, p: Tlv -> bool, k: int) {
    && -1 <= k < |tlvs|
    && (k >= 0 ==> p(tlvs[k]))
    && forall j :: k < j < |tlvs| ==> !p(tlvs[j])
  }

  lemma LastOfRest(tlvs: seq<Tlv>, p: Tlv -> bool, k: int)
    requires tlvs != [] && IsLast(tlvs, p, k)
    ensures k >= 1 ==> IsLast(tlvs[1..], p, k - 1) && tlvs[1..][k - 1] == tlvs[k]
    ensures k <= 0 ==> IsLast(tlvs[1..], p, -1)
  {
  }

  lemma NoteSize(b: seq<Byte>, pos: nat, t: Tlv, w: Want, f: Found)
    requires pos + 2 + |t.value| <= |b| && ReadEnd(b, pos, w) <= |b|
    requires b[pos] == t.tag && b[pos + 1] == |t.value| && b[pos + 2..pos + 2 + |t.value|] == t.value
    ensures Note(b, pos, w, f).fileLen == if w.size && IsSize(t) then SizeIn(t) else f.fileLen
  {
    var v := b[pos + 2..pos + 2 + |t.value|];
    assert |v| > 0 ==> v[0] == b[pos + 2];
    assert |v| > 1 ==> v[1] == b[pos + 3];
  }

  /** The file size is that of the last object 80 of length 1 or 2. */
  lemma {:induction false} WalkFindsSize(b: seq<Byte>, pos: nat, end: nat, tlvs: seq<Tlv>, w: Want, f: Found, k: int)
    requires pos <= end <= |b| && Encodable(tlvs) && tlvs != [] && b[pos..end] == Encode(tlvs)
    requires WalkInBounds(b, pos, end, w) && IsLast(tlvs, IsSize, k)
    ensures Walk(b, pos, end, w, f).1.fileLen == if w.size && k >= 0 then SizeIn(tlvs[k]) else f.fileLen
    decreases |tlvs|
  {
    hide Encode, Walk, WalkInBounds, Note, ReadEnd;
    WalkStep(b, pos, end, tlvs, w, f);
    NoteSize(b, pos, tlvs[0], w, f);
    LastOfRest(tlvs, IsSize, k);
    if |tlvs| > 1 {
      var next := pos + 2 + |tlvs[0].value|;
      WalkFindsSize(b, next, end, tlvs[1..], w, Note(b, pos, w, f), if k >= 1 then k - 1 else -1);
    }
  }

  predicate IsDesc(t: Tlv) {
    t.tag == FILE_DESC
  }

  /** Where the object k of a list starts. */
  function Start(tlvs: seq<Tlv>, k: nat): nat
    requires k <= |tlvs|
  {
    if k == 0 then 0 else 2 + |tlvs[0].value| + Start(tlvs[1..], k - 1)
  }

  lemma {:induction false} StartIsLength(tlvs: seq<Tlv>, k: nat)
    requires Encodable(tlvs) && k <= |tlvs|
    ensures Start(tlvs, k) == |Encode(tlvs[..k])|
  {
    if k > 0 {
      StartIsLength(tlvs[1..], k - 1);
      assert tlvs[..k][1..] == tlvs[1..][..k - 1];
    }
  }

  lemma {:induction false} ObjectFits(tlvs: seq<Tlv>, k: nat)
    requires Encodable(tlvs) && k < |tlvs|
    ensures Start(tlvs, k) + 2 + |tlvs[k].value| <= |Encode(tlvs)|
  {
    if k > 0 {
      ObjectFits(tlvs[1..], k - 1);
    }
  }

  /** The record length and count are the fifth to seventh bytes from the start of the last object 82, whatever
      the length of that object. */
  lemma {:induction false} WalkFindsRecord(b: seq<Byte>, pos: nat, end: nat, tlvs: seq<Tlv>, w: Want, f: Found, k: int)
    requires pos <= end <= |b| && Encodable(tlvs) && tlvs != [] && b[pos..end] == Encode(tlvs)
    requires WalkInBounds(b, pos, end, w) && IsLast(tlvs, IsDesc, k)
    ensures
      var r := Walk(b, pos, end, w, f).1;
      if w.record && k >= 0 then
        var p := pos + Start(tlvs, k);
        p + 7 <= |b| && r.recLen == Word(b[p + 4], b[p + 5]) && r.recCount == b[p + 6]
      else r.recLen == f.recLen && r.recCount == f.recCount
    decreases |tlvs|
  {
    hide Encode, Walk, WalkInBounds;
    WalkStep(b, pos, end, tlvs, w, f);
    LastOfRest(tlvs, IsDesc, k);
    if |tlvs| > 1 {
      var next := pos + 2 + |tlvs[0].value|;
      WalkFindsRecord(b, next, end, tlvs[1..], w, Note(b, pos, w, f), if k >= 1 then k - 1 else -1);
    }
  }

  // ----- When the reads stay in the buffer -----

  /** For a list that lies in the buffer, exactly when the seven bytes from the start of its last object 82 do. */
  lemma {:induction false} EncodedInBoundsIff(b: seq<Byte>, pos: nat, end: nat, tlvs: seq<Tlv>, w: Want, k: int)
    requires pos <= end <= |b| && Encodable(tlvs) && b[pos..end] == Encode(tlvs) && IsLast(tlvs, IsDesc, k)
    ensures WalkInBounds(b, pos, end, w) <==> (w.record && k >= 0 ==> pos + Start(tlvs, k) + 7 <= |b|)
    decreases |tlvs|
  {
    NothingEncoded();
    hide Encode;
    if tlvs != [] {
      FirstObject(b, pos, end, tlvs);
      LastOfRest(tlvs, IsDesc, k);
      EncodedInBoundsIff(b, pos + 2 + |tlvs[0].value|, end, tlvs[1..], w, if k >= 1 then k - 1 else -1);
    }
  }

  /** In particular if that object is long enough for what is read from it. */
  lemma EncodedInBounds(b: seq<Byte>, pos: nat, end: nat, tlvs: seq<Tlv>, w: Want, k: int)
    requires pos <= end <= |b| && Encodable(tlvs) && b[pos..end] == Encode(tlvs) && IsLast(tlvs, IsDesc, k)
    requires k >= 0 ==> |tlvs[k].value| >= 5
    ensures WalkInBounds(b, pos, end, w)
  {
    EncodedInBoundsIff(b, pos, end, tlvs, w, k);
    if k >= 0 {
      ObjectFits(tlvs, k);
    }
  }

  /** The highest position at which the loop can find an object if the template is len bytes long: after the
      first object, which takes at least two bytes, any position is possible. */
  function LastStart(len: Byte): nat {
    if len <= 3 then 3 else len as int + 1
  }

  /** How far the handling of an object may read. */
  function Span(w: Want): nat {
    if w.record then 7 else if w.size then 4 else 2
  }

  lemma {:induction false} SpanSuffices(b: seq<Byte>, pos: nat, end: nat, w: Want)
    requires pos + 1 < end ==> end - 2 + Span(w) <= |b|
    ensures WalkInBounds(b, pos, end, w)
    decreases end - pos
  {
    if pos + 1 < end {
      SpanSuffices(b, pos + 2 + b[pos + 1] as int, end, w);
    }
  }

  /** A buffer in which an object that is read as far as possible starts at LastStart. */
  function Worst(n: nat, len: Byte, w: Want): (b: seq<Byte>)
    requires n >= 3
    ensures |b| == n && b[1] == TEMPLATE_TAG && b[2] == len
    ensures len >= 4 && n > 4 ==> b[4] == len - 4
    ensures var p := LastStart(len);
      p + 1 < n ==> b[p] == (if w.record then FILE_DESC else FILE_SIZE) && b[p + 1] == 2
  {
    seq(n, i requires 0 <= i < n => WorstByte(i, len, w))
  }

  function WorstByte(i: nat, len: Byte, w: Want): Byte {
    if i == 1 then TEMPLATE_TAG
    else if i == 2 then len
    else if i == LastStart(len) then if w.record then FILE_DESC else FILE_SIZE
    else if i == LastStart(len) + 1 then 2
    else if i == 4 && len >= 4 then len - 4
    else 0
  }

  lemma WorstReads(n: nat, len: Byte, w: Want)
    requires n >= 3 && len >= 2 && ParseInBounds(Worst(n, len, w), w)
    ensures LastStart(len) + Span(w) <= n
  {
    var b, end := Worst(n, len, w), 3 + len as int;
    assert WalkInBounds(b, 3, end, w);
    if len >= 4 {
      assert b[4] == len - 4;
      assert WalkInBounds(b, LastStart(len), end, w);
    }
  }

  /** For a buffer of n bytes and a template of len bytes, all contents are read in bounds exactly when the
      object that starts last is. */
  lemma AllInBoundsIff(n: nat, len: Byte, w: Want)
    requires n >= 3
    ensures (forall b: seq<Byte> :: |b| == n && b[1] == TEMPLATE_TAG && b[2] == len ==> ParseInBounds(b, w))
            <==> len < 2 || LastStart(len) + Span(w) <= n
  {
    if len < 2 || LastStart(len) + Span(w) <= n {
      forall b: seq<Byte> | |b| == n && b[1] == TEMPLATE_TAG && b[2] == len
        ensures ParseInBounds(b, w)
      {
        if len == 3 {
          assert WalkInBounds(b, 5 + b[4] as int, 6, w);
        } else {
          SpanSuffices(b, 3, 3 + len as int, w);
        }
      }
    } else {
      var b := Worst(n, len, w);
      assert !ParseInBounds(b, w) by {
        if ParseInBounds(b, w) {
          WorstReads(n, len, w);
        }
      }
    }
  }

  /** An object 82 without a value at the very end is read past, and so is one in a buffer of 256 bytes. */
  lemma ReadPastBuffer()
    ensures !ParseInBounds([0, TEMPLATE_TAG, 2, FILE_DESC, 0], Want(false, true))
    ensures !ParseInBounds(Worst(256, 249, Want(false, true)), Want(false, true))
  {
    if ParseInBounds(Worst(256, 249, Want(false, true)), Want(false, true)) {
      WorstReads(256, 249, Want(false, true));
    }
  }

  /** Parsing an encoded template gives back what was put in, whatever precedes and follows it: the number in the
      last object 80 of one or two bytes, and the third to fifth bytes of the last object 82. */
  lemma RoundTrip(before: Byte, tlvs: seq<Tlv>, after: seq<Byte>, w: Want, f: Found, size: int, desc: int)
    requires Encodable(tlvs) && tlvs != [] && |Encode(tlvs)| < 256
    requires -1 <= size < |tlvs| && (size >= 0 ==> tlvs[size].tag == 0x80 && 1 <= |tlvs[size].value| <= 2)
    requires forall j :: size < j < |tlvs| ==> !(tlvs[j].tag == 0x80 && 1 <= |tlvs[j].value| <= 2)
    requires -1 <= desc < |tlvs| && (desc >= 0 ==> tlvs[desc].tag == 0x82 && |tlvs[desc].value| >= 5)
    requires forall j :: desc < j < |tlvs| ==> tlvs[j].tag != 0x82
    ensures
      var b := [before, 0x62, |Encode(tlvs)|] + Encode(tlvs) + after;
      && ParseInBounds(b, w) && Parse(b, w, f).0 == 0
      && var g := Parse(b, w, f).1;
      && (if w.size && size >= 0 then
            var v := tlvs[size].value;
            g.fileLen == if |v| == 1 then v[0] as int else 256 * v[0] as int + v[1] as int
          else g.fileLen == f.fileLen)
      && (if w.record && desc >= 0 then
            var v := tlvs[desc].value;
            g.recLen == 256 * v[2] as int + v[3] as int && g.recCount == v[4]
          else g.recLen == f.recLen && g.recCount == f.recCount)
  {
    var body := Encode(tlvs);
    var b := [before, TEMPLATE_TAG, |body|] + body + after;
    assert b[3..3 + |body|] == body;
    hide Encode, Walk, WalkInBounds, ParseInBounds, Parse, Start;
    EncodedIsParsed(b, tlvs, w, f, size, desc);
  }

  lemma EncodedIsParsed(b: seq<Byte>, tlvs: seq<Tlv>, w: Want, f: Found, size: int, desc: int)
    requires Encodable(tlvs) && tlvs != [] && IsLast(tlvs, IsSize, size) && IsLast(tlvs, IsDesc, desc)
    requires |b| >= 3 && b[1] == TEMPLATE_TAG && 3 + b[2] as int <= |b| && b[3..3 + b[2] as int] == Encode(tlvs)
    requires desc >= 0 ==> |tlvs[desc].value| >= 5
    ensures
      var sized, described := w.size && size >= 0, w.record && desc >= 0;
      && ParseInBounds(b, w)
      && Parse(b, w, f) == (0, Found(if sized then SizeIn(tlvs[size]) else f.fileLen,
                                     if described then Word(tlvs[desc].value[2], tlvs[desc].value[3]) else f.recLen,
                                     if described then tlvs[desc].value[4] else f.recCount))
  {
    assert size < |tlvs| && desc < |tlvs|;
    hide Encode, Walk, WalkInBounds, IsLast, Start, Word, SizeIn;
    var end := 3 + b[2] as int;
    EncodedInBounds(b, 3, end, tlvs, w, desc);
    WalkAccepts(b, 3, end, tlvs, w, f);
    WalkFindsSize(b, 3, end, tlvs, w, f, size);
    WalkFindsRecord(b, 3, end, tlvs, w, f, desc);
    if desc >= 0 {
      ObjectAt(b, 3, end, tlvs, desc);
    }
  }

  /** An encoded object is its tag, its length and its value. */
  lemma {:induction false} ObjectAt(b: seq<Byte>, pos: nat, end: nat, tlvs: seq<Tlv>, k: nat)
    requires pos <= end <= |b| && Encodable(tlvs) && b[pos..end] == Encode(tlvs) && k < |tlvs|
    ensures
      var p, v := pos + Start(tlvs, k), tlvs[k].value;
      && p + 2 + |v| <= end && b[p] == tlvs[k].tag && b[p + 1] == |v|
      && forall i :: 0 <= i < |v| ==> v[i] == b[p + 2 + i]
    decreases k
  {
    hide Encode;
    FirstObject(b, pos, end, tlvs);
    if k > 0 {
      ObjectAt(b, pos + 2 + |tlvs[0].value|, end, tlvs[1..], k - 1);
    } else {
      var v := b[pos + 2..pos + 2 + |tlvs[0].value|];
      assert forall i :: 0 <= i < |v| ==> v[i] == b[pos + 2 + i];
    }
  }

  // ----- The parser, writing through pointers -----

  class FileLen {
    var value: int
    constructor (value: int)
      ensures this.value == value
    {
      this.value := value;
    }
  }

  class UsimRec {
    var len: int
    var count: int
    constructor (len: int, count: int)
      ensures this.len == len && this.count == count
    {
      this.len := len;
      this.count := count;
    }
  }

  method ParseFcpTemplate(b: array<Byte>, fileLen: FileLen?, rec: UsimRec?, ghost f: Found) returns (ret: int)
    requires ParseInBounds(b[..], Want(fileLen != null, rec != null))
    requires fileLen != null ==> fileLen.value == f.fileLen
    requires rec != null ==> rec.len == f.recLen && rec.count == f.recCount
    modifies fileLen, rec
    ensures
      var (code, g) := Parse(b[..], Want(fileLen != null, rec != null), f);
      && ret == code
      && (fileLen != null ==> fileLen.value == g.fileLen)
      && (rec != null ==> rec.len == g.recLen && rec.count == g.recCount)
  {
    hide Word;
    ghost var s := b[..];
    if b[1] != TEMPLATE_TAG {
      return -1;
    }
    var end := 3 + b[2] as int;
    var pos := 3;
    ghost var g, w := f, Want(fileLen != null, rec != null);
    while pos + 1 < end
      invariant 3 <= pos
      invariant WalkInBounds(s, pos, end, w) && Walk(s, pos, end, w, g) == Walk(s, 3, end, w, f)
      invariant fileLen != null ==> fileLen.value == g.fileLen
      invariant rec != null ==> rec.len == g.recLen && rec.count == g.recCount
      decreases end - pos
    {
      g := Note(s, pos, w, g);
      if b[pos] == FILE_DESC {
        if rec != null {
          rec.len := Word(b[pos + 4], b[pos + 5]);
          rec.count := b[pos + 6];
        }
      } else if b[pos] == FILE_SIZE {
        if fileLen != null {
          if b[pos + 1] == 1 || b[pos + 1] == 2 {
            if b[pos + 1] == 1 {
              fileLen.value := b[pos + 2];
            } else {
              fileLen.value := Word(b[pos + 2], b[pos + 3]);
            }
          }
        }
      }
      pos := pos + 2 + b[pos + 1] as int;
      if pos == end {
        return 0;
      }
    }
    ret := -1;
  }
}
