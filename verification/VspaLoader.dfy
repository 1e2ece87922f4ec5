/** Loading a firmware image into a vector core.  The bytes of each section go through a staging buffer that
    is the start of the very memory the image lies in, so loading overwrites the image it reads from.

    Memory is indexed from the physical start of the region.  The image starts at `fileStart`, chunks are
    staged at `stage`, and the DMA engine reads them from index 0. */
module VspaLoader {
  import opened Words

  const MAX_DMA_TRANSFER := 65536
  const PRAM_ADDR_SPAN := 0x80000  // one more than the address mask
  const VSPA_DRAM_SIZE := 0x50000

  datatype Section = Section(name: nat, vma: nat, size: nat, offset: nat)

  /** Where the image's own tables send a section: nowhere known, a space that is not loaded, or a
      transfer mode of the DMA engine. */
  datatype MemSpace = Unmapped | NoLoad | Mode(ctrl: nat)

  datatype Status = Ok | TooBig | Unaligned | BadAddress | Timeout

  /** A byte of core memory: transfer mode and address. */
  datatype Loc = Loc(ctrl: nat, addr: nat)

  /** The image header, the host's map of sections, and the form of a section header. */
  datatype Layout = Layout(fileStart: nat, shoff: nat, entSize: nat, shnum: nat, strndx: nat,
                           decode: seq<Byte> -> Section, memspace: nat -> MemSpace,
                           axiAlign: nat, fwSize: nat)
  {
    ghost predicate InMemory(n: nat) {
      axiAlign > 0 && strndx < shnum && fileStart + shoff + shnum * entSize <= n
    }

    function Header(mem: seq<Byte>, k: nat): Section
      requires InMemory(|mem|) && k < shnum
    {
      RowFits(k, shnum, entSize);
      var at := fileStart + shoff + k * entSize;
      decode(mem[at..at + entSize])
    }
  }

  /** Row k of a table of n rows ends inside the table. */
  lemma RowFits(k: nat, n: nat, size: nat)
    requires k < n
    ensures k * size + size <= n * size
    decreases n
  {
    assert n * size == (n - 1) * size + size;
    if k + 1 < n {
      RowFits(k, n - 1, size);
    }
  }

  /** Alignment in an unsigned word. */
  function Aligned32(x: nat, a: nat): nat
    requires a > 0
  {
    AlignUp(x, a) % TWO32
  }

  /** Names that begin like one of these belong to overlays. */
  const OVERLAY_PREFIXES: seq<seq<Byte>> := [
    [46, 115, 121, 110, 99, 95],   // .sync_
    [46, 115, 108, 111, 116, 95],  // .slot_
    [46, 112, 101, 98, 109, 95],   // .pebm_
    [46, 104, 114, 97, 109, 95],   // .hram_
    [112, 101, 98, 109, 95]]       // pebm_

  predicate IsOverlayName(mem: seq<Byte>, at: nat) {
    exists i :: 0 <= i < |OVERLAY_PREFIXES| &&
      at + |OVERLAY_PREFIXES[i]| <= |mem| && mem[at..at + |OVERLAY_PREFIXES[i]|] == OVERLAY_PREFIXES[i]
  }

  // ----- What loading should do: one copy per section, from the image as it was -----

  /** Core memory after `bytes` are copied to `dst`. */
  function CopyTo(v: map<Loc, Byte>, ctrl: nat, dst: nat, bytes: seq<Byte>): map<Loc, Byte> {
    if bytes == [] then v
    else
      var n := |bytes| - 1;
      CopyTo(v, ctrl, dst, bytes[..n])[Loc(ctrl, dst + n) := bytes[n]]
  }

  /** The copied bytes are there and every other byte is as it was. */
  lemma {:induction false} CopyToPlaces(v: map<Loc, Byte>, ctrl: nat, dst: nat, bytes: seq<Byte>, x: Loc)
    ensures
      var w := CopyTo(v, ctrl, dst, bytes);
      if x.ctrl == ctrl && dst <= x.addr < dst + |bytes| then x in w && w[x] == bytes[x.addr - dst]
      else (x in w <==> x in v) && (x in v ==> w[x] == v[x])
    decreases |bytes|
  {
    if bytes != [] {
      CopyToPlaces(v, ctrl, dst, bytes[..|bytes| - 1], x);
    }
  }

  /** Two adjacent copies are one. */
  lemma {:induction false} CopyInTwo(v: map<Loc, Byte>, ctrl: nat, dst: nat, a: seq<Byte>, b: seq<Byte>)
    ensures CopyTo(CopyTo(v, ctrl, dst, a), ctrl, dst + |a|, b) == CopyTo(v, ctrl, dst, a + b)
    decreases |b|
  {
    if b == [] {
      assert a + b == a;
    } else {
      var n := |b| - 1;
      assert (a + b)[..|a + b| - 1] == a + b[..n];
      CopyInTwo(v, ctrl, dst, a, b[..n]);
    }
  }

  /** What arrives when `size` bytes at src are sent in chunks of at most 64 KiB that are staged at `stage`: each
      chunk begins with the bytes below `stage` instead of its own, and loses as many of its last ones. */
  function Sent(img: seq<Byte>, stage: nat, src: nat, size: nat): (bytes: seq<Byte>)
    requires stage <= src && src + size <= |img|
    ensures |bytes| == size
  {
    seq(size, i requires 0 <= i < size => SentByte(img, stage, src, i))
  }

  function SentByte(img: seq<Byte>, stage: nat, src: nat, i: nat): Byte
    requires stage <= src && src + i < |img|
  {
    var r := i % MAX_DMA_TRANSFER;
    if r < stage then img[r] else img[src + i - stage]
  }

  /** The section itself arrives, whatever memory holds, exactly when it is staged at the physical start. */
  lemma SentIffStagedAtStart(n: nat, stage: nat, src: nat, size: nat)
    requires stage <= src && src + size <= n && size > 0
    ensures (forall img: seq<Byte> :: |img| == n ==> Sent(img, stage, src, size) == img[src..src + size])
            <==> stage == 0
  {
    if stage == 0 {
      forall img: seq<Byte> | |img| == n
        ensures Sent(img, stage, src, size) == img[src..src + size]
      {
        SentAtStart(img, src, size);
      }
    } else {
      var img := seq(n, i => if i == src then 1 else 0);
      assert Sent(img, stage, src, size)[0] == 0;
      assert img[src..src + size][0] == 1;
    }
  }

  lemma SentAtStart(img: seq<Byte>, src: nat, size: nat)
    requires src + size <= |img|
    ensures Sent(img, 0, src, size) == img[src..src + size]
  {
  }

  /** What happens to a section. */
  datatype Fate = Skip | Refuse(status: Status) | Load(sec: Section, size: nat, ctrl: nat)

  function FateOf(l: Layout, mem: seq<Byte>, strBase: nat, k: nat): Fate
    requires l.InMemory(|mem|) && k < l.shnum
  {
    var sec := l.Header(mem, k);
    var size := Aligned32(sec.size, l.axiAlign);
    if IsOverlayName(mem, strBase + sec.name) || l.memspace(k).Unmapped? then Skip
    else if size == 0 then Skip
    else if size > l.fwSize then Refuse(TooBig)
    else if sec.vma % l.axiAlign != 0 then Refuse(Unaligned)
    else if l.memspace(k).NoLoad? then Skip
    else Load(sec, size, l.memspace(k).ctrl)
  }

  function StrBase(l: Layout, mem: seq<Byte>): nat
    requires l.InMemory(|mem|)
  {
    l.fileStart + l.Header(mem, l.strndx).offset
  }

  /** The source of a loaded section lies inside the image's memory and past the place of staging. */
  ghost predicate Fits(l: Layout, stage: nat, n: nat, f: Fate) {
    f.Load? ==> stage <= l.fileStart && l.fileStart + f.sec.offset + f.size <= n
  }

  /** What the original image says of each section. */
  function Fates(l: Layout, img: seq<Byte>): (fates: seq<Fate>)
    requires l.InMemory(|img|)
    ensures |fates| == l.shnum
  {
    var strBase := StrBase(l, img);
    seq(l.shnum, k requires 0 <= k < l.shnum => FateOf(l, img, strBase, k))
  }

  /** Core memory, and the first refusal if any, after sections with these fates: one copy for each. */
  function LoadAll(l: Layout, stage: nat, img: seq<Byte>, fates: seq<Fate>, v: map<Loc, Byte>)
    : (map<Loc, Byte>, Status)
    requires forall f :: f in fates ==> Fits(l, stage, |img|, f)
    decreases |fates|
  {
    if fates == [] then (v, Ok)
    else
      var (before, status) := LoadAll(l, stage, img, fates[..|fates| - 1], v);
      if status != Ok then (before, status) else LoadOne(l, stage, img, fates[|fates| - 1], before)
  }

  function LoadOne(l: Layout, stage: nat, img: seq<Byte>, f: Fate, v: map<Loc, Byte>): (map<Loc, Byte>, Status)
    requires Fits(l, stage, |img|, f)
  {
    match f
    case Skip => (v, Ok)
    case Refuse(e) => (v, e)
    case Load(sec, size, ctrl) =>
      var start := sec.vma % PRAM_ADDR_SPAN;
      var n := Accepted(start, size);
      (CopyTo(v, ctrl, start, Sent(img, stage, l.fileStart + sec.offset, size)[..n]),
       if n == size then Ok else BadAddress)
  }

  /** How many of `size` bytes for core address `start` are sent before a chunk is refused: one that does not
      start inside the core's data memory. */
  function Accepted(start: nat, size: nat): (n: nat)
    ensures n <= size
    decreases size
  {
    if size == 0 || start >= VSPA_DRAM_SIZE then 0
    else if size <= MAX_DMA_TRANSFER then size
    else MAX_DMA_TRANSFER + Accepted(start + MAX_DMA_TRANSFER, size - MAX_DMA_TRANSFER)
  }

  /** A section is refused exactly when its last chunk would start past the core's memory. */
  lemma {:induction false} RefusedIff(start: nat, size: nat)
    requires size > 0
    ensures Accepted(start, size) == size
            <==> start + (size - 1) / MAX_DMA_TRANSFER * MAX_DMA_TRANSFER < VSPA_DRAM_SIZE
    decreases size
  {
    if size > MAX_DMA_TRANSFER {
      RefusedIff(start + MAX_DMA_TRANSFER, size - MAX_DMA_TRANSFER);
      assert (size - 1) / MAX_DMA_TRANSFER == (size - MAX_DMA_TRANSFER - 1) / MAX_DMA_TRANSFER + 1;
    } else {
      assert (size - 1) / MAX_DMA_TRANSFER == 0;
    }
  }

  /** What is sent of a section: all of it, or whole chunks up to the first that starts past the memory. */
  lemma {:induction false} AcceptedIs(start: nat, size: nat)
    ensures
      var n := Accepted(start, size);
      n < size ==>
        && n % MAX_DMA_TRANSFER == 0 && start + n >= VSPA_DRAM_SIZE
        && (n > 0 ==> start + n - MAX_DMA_TRANSFER < VSPA_DRAM_SIZE)
    decreases size
  {
    if size > MAX_DMA_TRANSFER && start < VSPA_DRAM_SIZE {
      AcceptedIs(start + MAX_DMA_TRANSFER, size - MAX_DMA_TRANSFER);
    }
  }

  /** The load reports the first section, in order, that is refused or does not fit, and Ok if there is none. */
  lemma {:induction false} FirstFailureReported(l: Layout, stage: nat, img: seq<Byte>, fates: seq<Fate>,
                                                v: map<Loc, Byte>, k: nat)
    requires k <= |fates| && forall f :: f in fates ==> Fits(l, stage, |img|, f)
    requires forall f :: f in fates[..k] ==> Succeeds(f)
    requires k < |fates| ==> !Succeeds(fates[k])
    ensures LoadAll(l, stage, img, fates, v).1 ==
      if k == |fates| then Ok else if fates[k].Refuse? then fates[k].status else BadAddress
    decreases |fates|
  {
    hide Accepted, CopyTo, Sent;
    if fates != [] {
      var n := |fates| - 1;
      if k <= n {
        assert fates[..n][..k] == fates[..k];
        if k < n {
          FirstFailureReported(l, stage, img, fates[..n], v, k);
        } else {
          FirstFailureReported(l, stage, img, fates[..n], v, n);
        }
      } else {
        assert fates[n] in fates[..k];
        assert forall f :: f in fates[..n] ==> f in fates[..k];
        assert fates[..n][..n] == fates[..n];
        FirstFailureReported(l, stage, img, fates[..n], v, n);
      }
    }
  }

  ghost predicate Succeeds(f: Fate) {
    match f
    case Skip => true
    case Refuse(e) => e == Ok
    case Load(sec, size, _) => Accepted(sec.vma % PRAM_ADDR_SPAN, size) == size
  }

  lemma {:induction false} InsideIsAccepted(start: nat, size: nat)
    requires start + size <= VSPA_DRAM_SIZE
    ensures Accepted(start, size) == size
    decreases size
  {
    if size > MAX_DMA_TRANSFER {
      InsideIsAccepted(start + MAX_DMA_TRANSFER, size - MAX_DMA_TRANSFER);
    }
  }

  ghost predicate SameAt(v: map<Loc, Byte>, w: map<Loc, Byte>, x: Loc) {
    (x in w <==> x in v) && (x in v ==> w[x] == v[x])
  }

  /** Whether or not a section is accepted as a whole, loading it touches nothing past the core's memory,
      whatever that holds, exactly when what is sent of it ends there. */
  lemma StaysInsideIff(l: Layout, stage: nat, img: seq<Byte>, f: Fate)
    requires f.Load? && Fits(l, stage, |img|, f)
    ensures
      var start := f.sec.vma % PRAM_ADDR_SPAN;
      var n := Accepted(start, f.size);
      (forall v: map<Loc, Byte>, x: Loc :: x.addr >= VSPA_DRAM_SIZE ==> SameAt(v, LoadOne(l, stage, img, f, v).0, x))
      <==> n == 0 || start + n <= VSPA_DRAM_SIZE
  {
    hide CopyTo, Sent, Accepted;
    var start := f.sec.vma % PRAM_ADDR_SPAN;
    var n := Accepted(start, f.size);
    var bytes := Sent(img, stage, l.fileStart + f.sec.offset, f.size)[..n];
    if n == 0 || start + n <= VSPA_DRAM_SIZE {
      forall v: map<Loc, Byte>, x: Loc | x.addr >= VSPA_DRAM_SIZE
        ensures SameAt(v, LoadOne(l, stage, img, f, v).0, x)
      {
        CopyToPlaces(v, f.ctrl, start, bytes, x);
      }
    } else {
      var v: map<Loc, Byte>, x := map[], Loc(f.ctrl, start + n - 1);
      CopyToPlaces(v, f.ctrl, start, bytes, x);
      assert !SameAt(v, LoadOne(l, stage, img, f, v).0, x);
    }
  }

  /** A section of 32 bytes for 0x4fff0 is accepted, and half of it goes past the core's memory. */
  lemma SentPastMemory()
    ensures Accepted(0x4fff0, 0x20) == 0x20 && 0x4fff0 + 0x20 == VSPA_DRAM_SIZE + 0x10
  {
  }

  /** The destination of a fate covers x. */
  ghost predicate Covers(f: Fate, x: Loc) {
    f.Load? && x.ctrl == f.ctrl && f.sec.vma % PRAM_ADDR_SPAN <= x.addr < f.sec.vma % PRAM_ADDR_SPAN + f.size
  }

  /** After a load that refuses nothing, every byte of a loaded section that no later section covers is the one
      sent for it, which is the byte of the original image if that was staged at the physical start, and bytes
      no section covers are untouched. */
  lemma {:induction false} LoadedByteArrives(l: Layout, stage: nat, img: seq<Byte>, fates: seq<Fate>,
                                             v: map<Loc, Byte>, k: int, x: Loc)
    requires forall f :: f in fates ==> Fits(l, stage, |img|, f)
    requires LoadAll(l, stage, img, fates, v).1 == Ok
    requires -1 <= k < |fates| && (k >= 0 ==> Covers(fates[k], x))
    requires forall j :: k < j < |fates| ==> !Covers(fates[j], x)
    ensures
      var w := LoadAll(l, stage, img, fates, v).0;
      if k >= 0 then
        var src, i := l.fileStart + fates[k].sec.offset, x.addr - fates[k].sec.vma % PRAM_ADDR_SPAN;
        && stage <= src && src + i < |img|
        && x in w && w[x] == SentByte(img, stage, src, i)
        && (stage == 0 ==> w[x] == img[src + i])
      else (x in w <==> x in v) && (x in v ==> w[x] == v[x])
    decreases |fates|
  {
    hide CopyTo;
    if fates != [] {
      var n := |fates| - 1;
      var f := fates[n];
      assert f in fates;
      var before := LoadAll(l, stage, img, fates[..n], v).0;
      if f.Load? {
        var sent := Sent(img, stage, l.fileStart + f.sec.offset, f.size);
        assert sent[..f.size] == sent;
        CopyToPlaces(before, f.ctrl, f.sec.vma % PRAM_ADDR_SPAN, sent, x);
      }
      if k < n {
        LoadedByteArrives(l, stage, img, fates[..n], v, k, x);
      }
    }
  }

  // ----- What the headers decide -----

  ghost predicate Begins(mem: seq<Byte>, at: nat, text: string) {
    at + |text| <= |mem| && forall i :: 0 <= i < |text| ==> mem[at + i] == text[i] as int
  }

  /** The name at this place is that of an overlay section. */
  ghost predicate NamesOverlay(mem: seq<Byte>, at: nat) {
    || Begins(mem, at, ".sync_") || Begins(mem, at, ".slot_") || Begins(mem, at, ".pebm_")
    || Begins(mem, at, ".hram_") || Begins(mem, at, "pebm_")
  }

  lemma PrefixIs(mem: seq<Byte>, at: nat, i: nat, text: string)
    requires i < |OVERLAY_PREFIXES| && |text| == |OVERLAY_PREFIXES[i]|
    requires forall j :: 0 <= j < |text| ==> OVERLAY_PREFIXES[i][j] == text[j] as int
    ensures Begins(mem, at, text) <==>
      at + |OVERLAY_PREFIXES[i]| <= |mem| && mem[at..at + |OVERLAY_PREFIXES[i]|] == OVERLAY_PREFIXES[i]
  {
    var n := |text|;
    if at + n <= |mem| {
      var slice := mem[at..at + n];
      assert forall j :: 0 <= j < n ==> slice[j] == mem[at + j];
    }
  }

  lemma OverlayNameIs(mem: seq<Byte>, at: nat)
    ensures IsOverlayName(mem, at) <==> NamesOverlay(mem, at)
  {
    hide Begins;
    PrefixIs(mem, at, 0, ".sync_");
    PrefixIs(mem, at, 1, ".slot_");
    PrefixIs(mem, at, 2, ".pebm_");
    PrefixIs(mem, at, 3, ".hram_");
    PrefixIs(mem, at, 4, "pebm_");
  }

  /** Row k of the section headers is decoded from its bytes. */
  lemma HeaderIs(l: Layout, img: seq<Byte>, k: nat, row: seq<Byte>)
    requires l.InMemory(|img|) && k < l.shnum && |row| == l.entSize
    requires forall j :: 0 <= j < l.entSize ==>
      0 <= l.fileStart + l.shoff + k * l.entSize + j < |img| && row[j] == img[l.fileStart + l.shoff + k * l.entSize + j]
    ensures l.Header(img, k) == l.decode(row)
  {
    RowFits(k, l.shnum, l.entSize);
    var at := l.fileStart + l.shoff + k * l.entSize;
    assert row == img[at..at + l.entSize];
  }

  /** Where the name of section k is: at its offset in the section of names. */
  function NameAt(l: Layout, img: seq<Byte>, k: nat): nat
    requires l.InMemory(|img|) && k < l.shnum
  {
    l.fileStart + l.Header(img, l.strndx).offset + l.Header(img, k).name
  }

  /** What is done with section k, by its header: `size` is the least multiple of the AXI width that holds the
      section, and counts as an unsigned word. */
  lemma FateByHeader(l: Layout, img: seq<Byte>, k: nat, size: nat)
    requires l.InMemory(|img|) && k < l.shnum
    requires size % l.axiAlign == 0 && l.Header(img, k).size <= size < l.Header(img, k).size + l.axiAlign
    ensures
      var sec, n, fate := l.Header(img, k), size % TWO32, Fates(l, img)[k];
      var considered := !NamesOverlay(img, NameAt(l, img, k)) && !l.memspace(k).Unmapped? && n > 0;
      var aligned := sec.vma % l.axiAlign == 0;
      && (fate == Refuse(TooBig) <==> considered && n > l.fwSize)
      && (fate == Refuse(Unaligned) <==> considered && n <= l.fwSize && !aligned)
      && (fate.Skip? <==> !considered || (n <= l.fwSize && aligned && l.memspace(k).NoLoad?))
      && (fate.Load? <==> considered && n <= l.fwSize && aligned && l.memspace(k).Mode?)
      && (fate.Load? ==> fate == Load(sec, n, l.memspace(k).ctrl))
  {
    hide IsOverlayName, NamesOverlay, AlignUp, Layout.Header, Layout.InMemory;
    OverlayNameIs(img, NameAt(l, img, k));
    AlignUpIs(l.Header(img, k).size, l.axiAlign, size);
  }

  /** By its header, section k goes to core memory and its place covers x. */
  ghost predicate LandsAt(l: Layout, img: seq<Byte>, k: nat, x: Loc)
    requires l.InMemory(|img|) && k < l.shnum
  {
    var sec := l.Header(img, k);
    && !NamesOverlay(img, NameAt(l, img, k)) && l.memspace(k) == Mode(x.ctrl)
    && sec.vma % PRAM_ADDR_SPAN <= x.addr < sec.vma % PRAM_ADDR_SPAN + AlignUp(sec.size, l.axiAlign)
  }

  lemma MissesIfNotLanding(l: Layout, img: seq<Byte>, k: nat, x: Loc)
    requires l.InMemory(|img|) && k < l.shnum && !LandsAt(l, img, k, x)
    ensures !Covers(Fates(l, img)[k], x)
  {
    hide Fates, NamesOverlay, AlignUp, Layout.Header, NameAt;
    var size := l.Header(img, k).size;
    AlignBounds(size, l.axiAlign);
    FateByHeader(l, img, k, AlignUp(size, l.axiAlign));
  }

  lemma LoadedIfNotRefused(l: Layout, img: seq<Byte>, k: nat, ctrl: nat)
    requires l.InMemory(|img|) && k < l.shnum
    requires Fates(l, img)[k] != Refuse(TooBig) && Fates(l, img)[k] != Refuse(Unaligned)
    requires !NamesOverlay(img, NameAt(l, img, k)) && l.memspace(k) == Mode(ctrl)
    requires 0 < l.Header(img, k).size <= TWO32 - l.axiAlign
    ensures
      var fate, sec := Fates(l, img)[k], l.Header(img, k);
      fate.Load? && fate.sec == sec && fate.ctrl == ctrl && sec.size <= fate.size
  {
    hide Fates, NamesOverlay, AlignUp, Layout.Header, NameAt;
    var size := l.Header(img, k).size;
    AlignBounds(size, l.axiAlign);
    FateByHeader(l, img, k, AlignUp(size, l.axiAlign));
  }

  /** After a load staged at the physical start that reports no error, every byte of a section that has no
      overlay name and has a transfer mode is where its header says, unless a later section lands there. */
  lemma SectionArrives(l: Layout, img: seq<Byte>, v: map<Loc, Byte>, k: nat, i: nat, x: Loc)
    requires l.InMemory(|img|) && k < l.shnum && forall f :: f in Fates(l, img) ==> Fits(l, 0, |img|, f)
    requires LoadAll(l, 0, img, Fates(l, img), v).1 == Ok
    requires !NamesOverlay(img, NameAt(l, img, k)) && l.memspace(k) == Mode(x.ctrl)
    requires i < l.Header(img, k).size <= TWO32 - l.axiAlign && x.addr == l.Header(img, k).vma % PRAM_ADDR_SPAN + i
    requires forall j :: k < j < l.shnum ==> !LandsAt(l, img, j, x)
    ensures
      var w, at := LoadAll(l, 0, img, Fates(l, img), v).0, l.fileStart + l.Header(img, k).offset + i;
      at < |img| && x in w && w[x] == img[at]
  {
    hide LoadAll, Fates, NamesOverlay, NameAt, LandsAt, Fits, Layout.Header, Layout.InMemory;
    var fates := Fates(l, img);
    NotRefused(l, 0, img, fates, v, k);
    LoadedIfNotRefused(l, img, k, x.ctrl);
    forall j | k < j < |fates|
      ensures !Covers(fates[j], x)
    {
      MissesIfNotLanding(l, img, j, x);
    }
    LoadedByteArrives(l, 0, img, fates, v, k, x);
  }

  lemma {:induction false} NotRefused(l: Layout, stage: nat, img: seq<Byte>, fates: seq<Fate>, v: map<Loc, Byte>,
                                      k: nat)
    requires (forall f :: f in fates ==> Fits(l, stage, |img|, f)) && k < |fates|
    requires LoadAll(l, stage, img, fates, v).1 == Ok
    ensures fates[k] != Refuse(TooBig) && fates[k] != Refuse(Unaligned)
    decreases |fates|
  {
    var n := |fates| - 1;
    assert fates[n] in fates;
    if k < n {
      NotRefused(l, stage, img, fates[..n], v, k);
    }
  }

  // ----- The order of the image that makes this come true -----

  /** Index of the first byte after the section proper, without its alignment padding. */
  function EndOf(l: Layout, f: Fate): nat
    requires f.Load?
  {
    l.fileStart + f.sec.offset + f.sec.size
  }

  /** Loaded sections come in file order, the section headers and names come after them, and alignment
      adds no more bytes to a section than lie before it and past the place of staging. */
  ghost predicate Ordered(l: Layout, stage: nat, img: seq<Byte>)
    requires l.InMemory(|img|)
  {
    var fates := Fates(l, img);
    && (forall f :: f in fates ==> Fits(l, stage, |img|, f))
    && (forall i :: 0 <= i < |fates| && fates[i].Load? ==>
        && stage + fates[i].size <= EndOf(l, fates[i]) <= l.fileStart + l.shoff)
    && (forall i, j :: 0 <= i < j < |fates| && fates[i].Load? ==>
        && EndOf(l, fates[i]) <= StrBase(l, img) + l.Header(img, j).name
        && (fates[j].Load? ==> EndOf(l, fates[i]) <= l.fileStart + fates[j].sec.offset))
  }

  /** Below the place of staging and from index `from` on, memory is as it was. */
  ghost predicate Intact(mem: seq<Byte>, img: seq<Byte>, stage: nat, from: nat) {
    |mem| == |img| && forall j :: 0 <= j < |img| && (j < stage || from <= j) ==> mem[j] == img[j]
  }

  lemma SliceIntact(mem: seq<Byte>, img: seq<Byte>, stage: nat, from: nat, at: nat, n: nat)
    requires Intact(mem, img, stage, from) && from <= at && at + n <= |img|
    ensures mem[at..at + n] == img[at..at + n]
  {
  }

  lemma NameIntact(mem: seq<Byte>, img: seq<Byte>, stage: nat, from: nat, at: nat)
    requires Intact(mem, img, stage, from) && from <= at
    ensures IsOverlayName(mem, at) == IsOverlayName(img, at)
  {
    forall i | 0 <= i < |OVERLAY_PREFIXES| && at + |OVERLAY_PREFIXES[i]| <= |mem|
      ensures mem[at..at + |OVERLAY_PREFIXES[i]|] == img[at..at + |OVERLAY_PREFIXES[i]|]
    {
      SliceIntact(mem, img, stage, from, at, |OVERLAY_PREFIXES[i]|);
    }
  }

  lemma HeaderIntact(l: Layout, mem: seq<Byte>, img: seq<Byte>, stage: nat, from: nat, k: nat)
    requires l.InMemory(|img|) && Intact(mem, img, stage, from) && k < l.shnum && from <= l.fileStart + l.shoff
    ensures |mem| == |img| && l.Header(mem, k) == l.Header(img, k)
  {
    RowFits(k, l.shnum, l.entSize);
    SliceIntact(mem, img, stage, from, l.fileStart + l.shoff + k * l.entSize, l.entSize);
  }

  /** A section is treated as the original image says, as long as its header and name are still there. */
  lemma FateIntact(l: Layout, mem: seq<Byte>, img: seq<Byte>, stage: nat, strBase: nat, from: nat, k: nat)
    requires l.InMemory(|img|) && Intact(mem, img, stage, from) && k < l.shnum
    requires from <= l.fileStart + l.shoff && from <= strBase + l.Header(img, k).name
    ensures FateOf(l, mem, strBase, k) == FateOf(l, img, strBase, k)
  {
    HeaderIntact(l, mem, img, stage, from, k);
    NameIntact(mem, img, stage, from, strBase + l.Header(img, k).name);
    hide Layout.Header, Aligned32, IsOverlayName, Intact;
  }

  // ----- Staging one chunk -----

  /** Memory after n bytes are moved from src to the staging place. */
  function Staged(mem: seq<Byte>, stage: nat, src: nat, n: nat): seq<Byte>
    requires stage <= src && src + n <= |mem|
  {
    mem[..stage] + mem[src..src + n] + mem[stage + n..]
  }

  lemma StagedPlaces(mem: seq<Byte>, stage: nat, src: nat, n: nat)
    requires stage <= src && src + n <= |mem|
    ensures
      var staged := Staged(mem, stage, src, n);
      && |staged| == |mem|
      && forall j :: 0 <= j < |mem| ==> staged[j] == if stage <= j < stage + n then mem[src + j - stage] else mem[j]
  {
  }

  /** What the DMA engine picks up: it always reads from the physical start of the region. */
  function Delivered(mem: seq<Byte>, stage: nat, src: nat, n: nat): seq<Byte>
    requires stage <= src && src + n <= |mem|
  {
    Staged(mem, stage, src, n)[..n]
  }

  /** A chunk arrives whole, whatever memory holds, exactly when staging starts at the physical start.
      The first core stages there.  Every later core stages at the aligned address while the engine still
      reads from the unaligned one, so for those alignment must have moved nothing. */
  lemma DeliveredIffStagedAtStart(size: nat, stage: nat, src: nat, n: nat)
    requires stage <= src && src + n <= size && n > 0
    ensures (forall mem: seq<Byte> :: |mem| == size ==> Delivered(mem, stage, src, n) == mem[src..src + n])
            <==> stage == 0
  {
    if stage == 0 {
      forall mem: seq<Byte> | |mem| == size
        ensures Delivered(mem, stage, src, n) == mem[src..src + n]
      {
      }
    } else {
      var mem := seq(size, i => if i == src then 1 else 0);
      assert Delivered(mem, stage, src, n)[0] == 0;
      assert mem[src..src + n][0] == 1;
    }
  }

  /** Staging a chunk leaves everything from `next` on alone, whatever memory holds, exactly when the chunk
      ends before `next` or is already in place: why alignment must not add more bytes to a section than lie
      before it. */
  lemma SurvivesIffBelow(size: nat, stage: nat, src: nat, n: nat, next: nat)
    requires stage <= src && src + n <= size && stage <= next < size
    ensures (forall mem: seq<Byte> :: |mem| == size ==> Intact(Staged(mem, stage, src, n), mem, stage, next))
            <==> stage + n <= next || src == stage
  {
    if stage + n <= next || src == stage {
      forall mem: seq<Byte> | |mem| == size
        ensures Intact(Staged(mem, stage, src, n), mem, stage, next)
      {
        StagedPlaces(mem, stage, src, n);
      }
    } else {
      var mem := seq(size, i => if i == next then 1 else 0);
      StagedPlaces(mem, stage, src, n);
      assert Staged(mem, stage, src, n)[next] == mem[src + next - stage] == 0;
      assert !Intact(Staged(mem, stage, src, n), mem, stage, next);
    }
  }

  lemma OffsetInChunk(q: nat, r: nat)
    requires r < MAX_DMA_TRANSFER
    ensures (q * MAX_DMA_TRANSFER + r) % MAX_DMA_TRANSFER == r
  {
  }

  lemma ByteSent(mem: seq<Byte>, img: seq<Byte>, stage: nat, src: nat, q: nat, n: nat, r: nat)
    requires stage <= src && src + q * MAX_DMA_TRANSFER + n <= |img| && r < n <= MAX_DMA_TRANSFER
    requires Intact(mem, img, stage, src + q * MAX_DMA_TRANSFER)
    ensures
      var done := q * MAX_DMA_TRANSFER;
      Staged(mem, stage, src + done, n)[r] == SentByte(img, stage, src, done + r)
  {
    OffsetInChunk(q, r);
    StagedPlaces(mem, stage, src + q * MAX_DMA_TRANSFER, n);
  }

  /** What is sent of a chunk is its part of what is sent of the section. */
  lemma ChunkSent(mem: seq<Byte>, img: seq<Byte>, stage: nat, src: nat, size: nat, q: nat, n: nat)
    requires stage <= src && src + size <= |img| && n <= MAX_DMA_TRANSFER && q * MAX_DMA_TRANSFER + n <= size
    requires Intact(mem, img, stage, src + q * MAX_DMA_TRANSFER)
    ensures
      var done := q * MAX_DMA_TRANSFER;
      Delivered(mem, stage, src + done, n) == Sent(img, stage, src, size)[done..done + n]
  {
    var done := q * MAX_DMA_TRANSFER;
    var sent, chunk := Sent(img, stage, src, size), Delivered(mem, stage, src + done, n);
    forall r | 0 <= r < n
      ensures chunk[r] == sent[done..done + n][r]
    {
      ByteSent(mem, img, stage, src, q, n, r);
    }
  }

  // ----- The loader -----

  class Loader {
    const mem: array<Byte>
    const stage: nat
    var vspa: map<Loc, Byte>

    constructor (mem: array<Byte>, stage: nat, vspa: map<Loc, Byte>)
      ensures this.mem == mem && this.stage == stage && this.vspa == vspa
    {
      this.mem := mem;
      this.stage := stage;
      this.vspa := vspa;
    }

    /** memmove to the place of staging. */
    method Move(src: nat, n: nat)
      requires stage <= src && src + n <= mem.Length
      modifies mem
      ensures mem[..] == Staged(old(mem[..]), stage, src, n)
    {
      forall i | 0 <= i < n {
        mem[stage + i] := mem[src + i];
      }
      StagedPlaces(old(mem[..]), stage, src, n);
    }

    /** The DMA engine: copies n bytes from the physical start, or times out. */
    method Transmit(ctrl: nat, dst: nat, n: nat) returns (ok: bool)
      requires n <= mem.Length
      modifies this
      ensures ok ==> vspa == CopyTo(old(vspa), ctrl, dst, mem[..n])
    {
      if * {
        ok := false;
      } else {
        vspa := CopyTo(vspa, ctrl, dst, mem[..n]);
        ok := true;
      }
    }

    /** Stages and sends one chunk; memory past it stays as it was. */
    method SendChunk(src: nat, n: nat, dst: nat, ctrl: nat, ghost img: seq<Byte>, ghost end: nat) returns (ok: bool)
      requires stage <= src && src + n <= mem.Length && stage + n <= end
      requires Intact(mem[..], img, stage, src) && Intact(mem[..], img, stage, end)
      modifies this, mem
      ensures Intact(mem[..], img, stage, src + n) && Intact(mem[..], img, stage, end)
      ensures ok ==> vspa == CopyTo(old(vspa), ctrl, dst, Delivered(old(mem[..]), stage, src, n))
    {
      StagedPlaces(mem[..], stage, src, n);
      Move(src, n);
      assert mem[..][..n] == mem[..n];
      ok := Transmit(ctrl, dst, n);
    }

    /** Sends `size` bytes at `phys` to core address `offset` in chunks of at most 64 KiB. */
    method DmaWrite(phys: nat, size: nat, offset: nat, ctrl: nat, ghost img: seq<Byte>, ghost end: nat)
      returns (status: Status)
      requires size > 0 && stage <= phys && phys + size <= mem.Length && |img| == mem.Length
      requires Intact(mem[..], img, stage, phys) && Intact(mem[..], img, stage, end) && stage + size <= end
      modifies this, mem
      ensures status == Ok || status == BadAddress || status == Timeout
      ensures Intact(mem[..], img, stage, end)
      ensures status != Timeout ==>
        var start := offset % PRAM_ADDR_SPAN;
        var n := Accepted(start, size);
        && vspa == CopyTo(old(vspa), ctrl, start, Sent(img, stage, phys, size)[..n])
        && (status == Ok <==> n == size)
    {
      hide Intact, CopyTo, Sent, Delivered;
      ghost var start, sent := offset % PRAM_ADDR_SPAN, Sent(img, stage, phys, size);
      var left := size;
      var done := 0;
      ghost var chunks := 0;
      CopyNothing(vspa, ctrl, start);
      while true
        invariant 0 <= done && done + left == size && left > 0 && done == chunks * MAX_DMA_TRANSFER
        invariant start + done < VSPA_DRAM_SIZE + MAX_DMA_TRANSFER || done == 0
        invariant Accepted(start, size) == done + Accepted(start + done, left)
        invariant Intact(mem[..], img, stage, phys + done) && Intact(mem[..], img, stage, end)
        invariant vspa == CopyTo(old(vspa), ctrl, start, sent[..done])
        decreases left
      {
        var n := if left > MAX_DMA_TRANSFER then MAX_DMA_TRANSFER else left;
        var dst := (offset + done) % PRAM_ADDR_SPAN;
        MaskedAddress(offset, done);
        if dst >= VSPA_DRAM_SIZE {
          return BadAddress;
        }
        left := left - n;
        ChunkSent(mem[..], img, stage, phys, size, chunks, n);
        var ok := SendChunk(phys + done, n, dst, ctrl, img, end);
        if !ok {
          return Timeout;
        }
        CopyInTwo(old(vspa), ctrl, start, sent[..done], sent[done..done + n]);
        assert sent[..done] + sent[done..done + n] == sent[..done + n];
        done, chunks := done + n, chunks + 1;
        if left == 0 {
          break;
        }
      }
      status := Ok;
    }

    /** The loop over the section headers, read from memory that loading overwrites. */
    method LoadSections(l: Layout) returns (status: Status)
      requires l.InMemory(mem.Length) && Ordered(l, stage, mem[..])
      modifies this, mem
      ensures status != Timeout ==> (vspa, status) == LoadAll(l, stage, old(mem[..]), Fates(l, old(mem[..])), old(vspa))
    {
      hide FateOf, Fates, Ordered, Intact, LoadAll, LoadOne, Sent, CopyTo, UpTo, StrBase, Fits;
      hide Layout.Header, Layout.InMemory;
      ghost var img := mem[..];
      ghost var fates := Fates(l, img);
      var strBase := StrBase(l, mem[..]);
      ghost var from: nat := 0;
      NothingLoaded(l, stage, img, vspa);
      var k := 0;
      while k < l.shnum
        invariant 0 <= k <= l.shnum
        invariant Intact(mem[..], img, stage, from) && from <= l.fileStart + l.shoff
        invariant forall j :: k <= j < l.shnum ==> UpTo(l, img, from, j)
        invariant forall f :: f in fates ==> Fits(l, stage, |img|, f)
        invariant (vspa, Ok) == LoadAll(l, stage, img, fates[..k], old(vspa))
      {
        LoadNext(l, stage, img, fates, k, old(vspa));
        status, from := LoadSection(l, strBase, k, img, from);
        if status == Timeout {
          return;
        }
        if status != Ok {
          LoadStops(l, stage, img, fates, k + 1, old(vspa));
          return;
        }
        k := k + 1;
      }
      assert fates[..k] == fates;
      status := Ok;
    }

    /** One pass of that loop. */
    method LoadSection(l: Layout, strBase: nat, k: nat, ghost img: seq<Byte>, ghost from: nat)
      returns (status: Status, ghost next: nat)
      requires l.InMemory(|img|) && Ordered(l, stage, img) && k < l.shnum && strBase == StrBase(l, img)
      requires Intact(mem[..], img, stage, from) && from <= l.fileStart + l.shoff
      requires forall j :: k <= j < l.shnum ==> UpTo(l, img, from, j)
      requires Fits(l, stage, |img|, Fates(l, img)[k])
      modifies this, mem
      ensures status != Timeout ==> (vspa, status) == LoadOne(l, stage, img, Fates(l, img)[k], old(vspa))
      ensures Intact(mem[..], img, stage, next) && next <= l.fileStart + l.shoff
      ensures forall j :: k < j < l.shnum ==> UpTo(l, img, next, j)
    {
      hide FateOf, Fates, Ordered, Intact, Sent, CopyTo, UpTo, StrBase, Layout.Header, Layout.InMemory;
      SameFate(l, mem[..], img, stage, from, k);
      next := from;
      match FateOf(l, mem[..], strBase, k) {
        case Skip =>
          status := Ok;
        case Refuse(e) =>
          status := e;
        case Load(sec, size, ctrl) =>
          OrderedNext(l, stage, img, k);
          next := EndOf(l, Fates(l, img)[k]);
          AsBefore(mem[..], img, stage, from, l.fileStart + sec.offset);
          AsBefore(mem[..], img, stage, from, next);
          status := DmaWrite(l.fileStart + sec.offset, size, sec.vma, ctrl, img, next);
      }
    }
  }

  /** Nothing of section j is needed from below `from`. */
  ghost predicate UpTo(l: Layout, img: seq<Byte>, from: nat, j: nat)
    requires l.InMemory(|img|) && j < l.shnum
  {
    && from <= StrBase(l, img) + l.Header(img, j).name
    && (Fates(l, img)[j].Load? ==> from <= l.fileStart + Fates(l, img)[j].sec.offset)
  }

  lemma NothingLoaded(l: Layout, stage: nat, img: seq<Byte>, v: map<Loc, Byte>)
    requires l.InMemory(|img|) && Ordered(l, stage, img)
    ensures Intact(img, img, stage, 0)
    ensures forall j :: 0 <= j < l.shnum ==> UpTo(l, img, 0, j)
    ensures forall f :: f in Fates(l, img) ==> Fits(l, stage, |img|, f)
    ensures LoadAll(l, stage, img, Fates(l, img)[..0], v) == (v, Ok)
  {
    hide FateOf;
  }

  lemma OrderedNext(l: Layout, stage: nat, img: seq<Byte>, k: nat)
    requires l.InMemory(|img|) && Ordered(l, stage, img) && k < l.shnum && Fates(l, img)[k].Load?
    ensures
      var end := EndOf(l, Fates(l, img)[k]);
      && stage + Fates(l, img)[k].size <= end <= l.fileStart + l.shoff
      && forall j :: k < j < l.shnum ==> UpTo(l, img, end, j)
  {
    hide FateOf;
  }

  lemma SameFate(l: Layout, mem: seq<Byte>, img: seq<Byte>, stage: nat, from: nat, k: nat)
    requires l.InMemory(|img|) && Intact(mem, img, stage, from) && k < l.shnum
    requires from <= l.fileStart + l.shoff && UpTo(l, img, from, k)
    ensures |mem| == |img| && FateOf(l, mem, StrBase(l, img), k) == Fates(l, img)[k]
    ensures var f := Fates(l, img)[k]; f.Load? ==> f.size > 0 && from <= l.fileStart + f.sec.offset <= EndOf(l, f)
  {
    FateIntact(l, mem, img, stage, StrBase(l, img), from, k);
  }

  lemma AsBefore(mem: seq<Byte>, img: seq<Byte>, stage: nat, from: nat, later: nat)
    requires Intact(mem, img, stage, from) && from <= later
    ensures Intact(mem, img, stage, later)
  {
  }

  lemma LoadNext(l: Layout, stage: nat, img: seq<Byte>, fates: seq<Fate>, k: nat, v: map<Loc, Byte>)
    requires k < |fates| && forall f :: f in fates ==> Fits(l, stage, |img|, f)
    requires LoadAll(l, stage, img, fates[..k], v).1 == Ok
    ensures LoadAll(l, stage, img, fates[..k + 1], v)
         == LoadOne(l, stage, img, fates[k], LoadAll(l, stage, img, fates[..k], v).0)
  {
    hide LoadOne;
    assert fates[..k + 1][..k] == fates[..k];
  }

  /** The first refusal is the outcome. */
  lemma {:induction false} LoadStops(l: Layout, stage: nat, img: seq<Byte>, fates: seq<Fate>, k: nat, v: map<Loc, Byte>)
    requires k <= |fates| && forall f :: f in fates ==> Fits(l, stage, |img|, f)
    requires LoadAll(l, stage, img, fates[..k], v).1 != Ok
    ensures LoadAll(l, stage, img, fates, v) == LoadAll(l, stage, img, fates[..k], v)
    decreases |fates|
  {
    hide LoadOne;
    if k == |fates| {
      assert fates[..k] == fates;
    } else {
      assert fates[..|fates| - 1][..k] == fates[..k];
      LoadStops(l, stage, img, fates[..|fates| - 1], k, v);
    }
  }

  lemma CopyNothing(v: map<Loc, Byte>, ctrl: nat, dst: nat)
    ensures CopyTo(v, ctrl, dst, []) == v
  {
  }

  lemma MaskedAddress(offset: nat, done: nat)
    requires offset % PRAM_ADDR_SPAN + done < PRAM_ADDR_SPAN
    ensures (offset + done) % PRAM_ADDR_SPAN == offset % PRAM_ADDR_SPAN + done
  {
  }
}
