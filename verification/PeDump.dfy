/** The file image rebuilt from a module's memory. */
module PeDump {
  import opened Words
  import opened Machine

  // --- the output file ---

  /** What `bytes`, written from offset `at` on, leave in a file; a gap before them reads as zero. */
  function Put(file: seq<Byte>, at: nat, bytes: seq<Byte>): (r: seq<Byte>)
    ensures bytes == [] ==> r == file
    ensures bytes != [] ==> |r| == if at + |bytes| > |file| then at + |bytes| else |file|
    ensures forall x :: 0 <= x < |r| ==>
              r[x] == if at <= x < at + |bytes| then bytes[x - at] else if x < |file| then file[x] else 0
  {
    if bytes == [] then file
    else
      var padded := if at > |file| then file + Zeros(at - |file|) else file;
      padded[..at] + bytes + (if at + |bytes| < |file| then file[at + |bytes|..] else [])
  }

  class OutFile {
    var bytes: seq<Byte>
    var pos: nat

    constructor ()
      ensures bytes == [] && pos == 0
    {
      bytes, pos := [], 0;
    }

    /** fseek from the start: the offset is taken as a signed long, and a negative one leaves the position alone. */
    method Seek(offset: Word)
      modifies `pos
      ensures pos == Sought(old(pos), offset)
    {
      if offset < 0x8000_0000 {
        pos := offset;
      }
    }

    method Write(data: seq<Byte>)
      modifies this
      ensures bytes == Put(old(bytes), old(pos), data) && pos == old(pos) + |data|
    {
      bytes := Put(bytes, pos, data);
      pos := pos + |data|;
    }
  }

  function Sought(pos: nat, offset: Word): nat {
    if offset < 0x8000_0000 then offset else pos
  }

  // --- the headers in memory ---

  datatype Section = Section(name: seq<Byte>, vsize: Word, va: Word, rawSize: Word, rawOff: Word)

  const SECTION_HEADER := 40

  function LoadHalf(m: Memory, a: Word): (h: nat)
    ensures h < 0x1_0000
  {
    var low: int, high: int := m[a], m[Wrap(a + 1)];
    low + 0x100 * high
  }

  function SectionAt(m: Memory, a: Word): Section {
    Section(Load(m, a, 8), LoadWord(m, Wrap(a + 8)), LoadWord(m, Wrap(a + 12)), LoadWord(m, Wrap(a + 16)), LoadWord(m, Wrap(a + 20)))
  }

  function Sections(m: Memory, first: Word, n: nat): (s: seq<Section>)
    ensures |s| == n && forall i :: 0 <= i < n ==> s[i] == SectionAt(m, Wrap(first + SECTION_HEADER * i))
  {
    seq(n, i requires 0 <= i => SectionAt(m, Wrap(first + SECTION_HEADER * i)))
  }

  const TVM: seq<Byte> := [0x2E, 0x74, 0x76, 0x6D]
  const TLS: seq<Byte> := [0x2E, 0x74, 0x6C, 0x73, 0]

  /** A name starting with ".tvm", or the C string ".tls". */
  predicate Skipped(sec: Section) {
    TVM <= sec.name || TLS <= sec.name
  }

  function WriteSize(sec: Section): Word {
    if sec.rawSize > 0 then sec.rawSize else sec.vsize
  }

  /** What is written for a section. */
  function Source(m: Memory, base: Word, sec: Section): (s: seq<Byte>)
    ensures |s| == WriteSize(sec)
  {
    if Skipped(sec) then Zeros(WriteSize(sec)) else Load(m, Wrap(base + sec.va), WriteSize(sec))
  }

  /** Where section `i` is written, when the position is `pos` before the first one. */
  function StartOf(secs: seq<Section>, pos: nat, i: nat): nat
    requires i < |secs|
  {
    Sought(if i == 0 then pos else StartOf(secs, pos, i - 1) + WriteSize(secs[i - 1]), secs[i].rawOff)
  }

  /** A stretch of bytes and where it goes. */
  datatype Chunk = Chunk(start: nat, bytes: seq<Byte>)

  /** What the sections write, in order, when the position is `pos` before the first one. */
  function Chunks(m: Memory, base: Word, secs: seq<Section>, pos: nat): (cs: seq<Chunk>)
    ensures |cs| == |secs|
    ensures forall i :: 0 <= i < |cs| ==> cs[i] == Chunk(StartOf(secs, pos, i), Source(m, base, secs[i]))
  {
    seq(|secs|, i requires 0 <= i < |secs| => Chunk(StartOf(secs, pos, i), Source(m, base, secs[i])))
  }

  function PutAll(file: seq<Byte>, chunks: seq<Chunk>): (r: seq<Byte>)
    ensures |r| >= |file|
  {
    if chunks == [] then file
    else
      var n := |chunks| - 1;
      Put(PutAll(file, chunks[..n]), chunks[n].start, chunks[n].bytes)
  }

  lemma Untouched(file: seq<Byte>)
    ensures PutAll(file, []) == file
  {
  }

  lemma PutOne(file: seq<Byte>, chunks: seq<Chunk>, i: nat)
    requires i < |chunks|
    ensures PutAll(file, chunks[..i + 1]) == Put(PutAll(file, chunks[..i]), chunks[i].start, chunks[i].bytes)
  {
    assert chunks[..i + 1][..i] == chunks[..i];
  }

  lemma NextStart(secs: seq<Section>, pos: nat, i: nat)
    requires i < |secs|
    ensures StartOf(secs, pos, i) == Sought(if i == 0 then pos else StartOf(secs, pos, i - 1) + WriteSize(secs[i - 1]), secs[i].rawOff)
  {
  }

  /** The file once the sections have been written over the headers. */
  function Dumped(m: Memory, base: Word, headers: seq<Byte>, secs: seq<Section>): (r: seq<Byte>)
    ensures |r| >= |headers|
  {
    PutAll(headers, Chunks(m, base, secs, |headers|))
  }

  /** One turn of the section loop. */
  method WriteSection(m: Memory, base: Word, sec: Section, f: OutFile)
    modifies f
    ensures f.bytes == Put(old(f.bytes), Sought(old(f.pos), sec.rawOff), Source(m, base, sec))
    ensures f.pos == Sought(old(f.pos), sec.rawOff) + WriteSize(sec)
  {
    hide Skipped, Load, Put;
    var writeSize := if sec.rawSize > 0 then sec.rawSize else sec.vsize;
    f.Seek(sec.rawOff);
    if Skipped(sec) {
      f.Write(Zeros(writeSize));
    } else {
      f.Write(Load(m, Wrap(base + sec.va), writeSize));
    }
  }

  /** The whole section loop, on a file that holds the headers. */
  method WriteSections(m: Memory, base: Word, first: Word, n: nat, f: OutFile)
    requires f.pos == |f.bytes|
    modifies f
    ensures f.bytes == Dumped(m, base, old(f.bytes), Sections(m, first, n))
  {
    hide SectionAt, Source, WriteSize, Put, Sought, StartOf, Chunks, Sections, PutAll, Load, LoadWord;
    ghost var headers, secs := f.bytes, Sections(m, first, n);
    ghost var chunks := Chunks(m, base, secs, |headers|);
    var i := 0;
    Untouched(headers);
    assert chunks[..0] == [];
    while i < n
      invariant i <= n
      invariant f.bytes == PutAll(headers, chunks[..i])
      invariant f.pos == if i == 0 then |headers| else StartOf(secs, |headers|, i - 1) + WriteSize(secs[i - 1])
    {
      WriteSection(m, base, SectionAt(m, Wrap(first + SECTION_HEADER * i)), f);
      PutOne(headers, chunks, i);
      NextStart(secs, |headers|, i);
      i := i + 1;
    }
    assert chunks[..n] == chunks;
  }

  // --- the layout of the headers, and the dump ---

  function NtHeaders(m: Memory, base: Word): Word {
    Wrap(base + LoadWord(m, Wrap(base + 0x3C)))
  }

  function FirstSection(m: Memory, nt: Word): Word {
    Wrap(nt + 24 + LoadHalf(m, Wrap(nt + 20)))
  }

  function Headers(m: Memory, base: Word): seq<Byte> {
    Load(m, base, LoadWord(m, Wrap(NtHeaders(m, base) + 84)))
  }

  function SectionsOf(m: Memory, base: Word): seq<Section> {
    var nt := NtHeaders(m, base);
    Sections(m, FirstSection(m, nt), LoadHalf(m, Wrap(nt + 6)))
  }

  /** The file is written when the module was found, both signatures are right and the file could be opened. */
  predicate Dumpable(m: Memory, base: Word, opens: bool) {
    base != 0 && LoadHalf(m, base) == 0x5A4D && LoadWord(m, NtHeaders(m, base)) == 0x4550 && opens
  }

  method DumpPe(m: Memory, base: Word, opens: bool) returns (file: Option<seq<Byte>>)
    ensures file == if Dumpable(m, base, opens) then Some(Dumped(m, base, Headers(m, base), SectionsOf(m, base))) else None
  {
    hide LoadWord, Load, LoadHalf, Dumped, Sections;
    if base == 0 || LoadHalf(m, base) != 0x5A4D {
      return None;
    }
    var nt: int := NtHeaders(m, base);
    if LoadWord(m, nt) != 0x4550 || !opens {
      return None;
    }
    var f := new OutFile();
    f.Write(Load(m, base, LoadWord(m, Wrap(nt + 84))));
    assert f.bytes == Headers(m, base);
    WriteSections(m, base, FirstSection(m, nt), LoadHalf(m, Wrap(nt + 6)), f);
    return Some(f.bytes);
  }

  /** Where the format keeps what the dump needs: the NT headers through e_lfanew, the number of sections, the size of the
      headers, and the section table behind the optional header. */
  lemma HeadersAre(m: Memory, base: Word)
    ensures var nt := Wrap(base + LoadWord(m, Wrap(base + 60)));
            && |Headers(m, base)| == LoadWord(m, Wrap(nt + 84)) && |SectionsOf(m, base)| == LoadHalf(m, Wrap(nt + 6))
            && (forall x :: 0 <= x < |Headers(m, base)| ==> Headers(m, base)[x] == m[Wrap(base + x)])
  {
    hide LoadWord, LoadHalf;
  }

  /** The fields of section `i`, at their places in its 40-byte header. */
  lemma SectionIs(m: Memory, base: Word, i: nat)
    requires i < |SectionsOf(m, base)|
    ensures var nt := Wrap(base + LoadWord(m, Wrap(base + 60)));
            var a := Wrap(Wrap(nt + 24 + LoadHalf(m, Wrap(nt + 20))) + 40 * i);
            var sec := SectionsOf(m, base)[i];
            && |sec.name| == 8 && (forall k :: 0 <= k < 8 ==> sec.name[k] == m[Wrap(a + k)])
            && sec.vsize == LoadWord(m, Wrap(a + 8)) && sec.va == LoadWord(m, Wrap(a + 12))
            && sec.rawSize == LoadWord(m, Wrap(a + 16)) && sec.rawOff == LoadWord(m, Wrap(a + 20))
  {
    hide LoadWord, LoadHalf;
  }

  /** Skipped are the names that start with ".tvm" and the name ".tls". */
  lemma SkippedExactlyWhen(sec: Section)
    requires |sec.name| == 8
    ensures var n := sec.name;
            Skipped(sec) <==> n[..2] == [0x2E, 0x74] && (n[2..4] == [0x76, 0x6D] || n[2..5] == [0x6C, 0x73, 0])
  {
    var n := sec.name;
    assert n[..4] == n[..2] + n[2..4] && n[..5] == n[..2] + n[2..5];
    assert TVM == [0x2E, 0x74] + [0x76, 0x6D] && TLS == [0x2E, 0x74] + [0x6C, 0x73, 0];
  }

  /** A dump needs a module, "MZ" at its start, "PE" and two zeros at its NT headers, and a file. */
  lemma DumpableExactlyWhen(m: Memory, base: Word, opens: bool)
    ensures var nt := Wrap(base + LoadWord(m, Wrap(base + 60)));
            Dumpable(m, base, opens) <==>
              base != 0 && m[base] == 0x4D && m[Wrap(base + 1)] == 0x5A && Load(m, nt, 4) == [0x50, 0x45, 0, 0] && opens
  {
    var nt := Wrap(base + LoadWord(m, Wrap(base + 60)));
    LEofFromLE(Load(m, nt, 4));
    LowByteFirst(0x50, 0x45, 0, 0);
    hide Load, LE, FromLE;
  }

  /** What a section writes: as many bytes as its raw size, or else its virtual size, of zeros or of memory. */
  lemma SourceIs(m: Memory, base: Word, sec: Section)
    ensures |Source(m, base, sec)| == if sec.rawSize > 0 then sec.rawSize else sec.vsize
    ensures forall x :: 0 <= x < |Source(m, base, sec)| ==>
              Source(m, base, sec)[x] == if Skipped(sec) then 0 else m[Wrap(base + sec.va + x)]
  {
    hide Skipped, Wrap;
    forall x | 0 <= x < |Source(m, base, sec)|
      ensures Source(m, base, sec)[x] == if Skipped(sec) then 0 else m[Wrap(base + sec.va + x)]
    {
      WrapShift(base + sec.va, x);
    }
  }

  /** Where it writes them: at its raw offset, or, when fseek refuses the offset, behind what was written before. */
  lemma ChunkIs(m: Memory, base: Word, secs: seq<Section>, pos: nat, i: nat)
    requires i < |secs|
    ensures var cs, sec := Chunks(m, base, secs, pos), secs[i];
            && cs[i].bytes == Source(m, base, sec)
            && (sec.rawOff < 0x8000_0000 ==> cs[i].start == sec.rawOff)
            && (sec.rawOff >= 0x8000_0000 ==> cs[i].start == if i == 0 then pos else cs[i - 1].start + |cs[i - 1].bytes|)
  {
    hide Source;
  }

  // --- what the file holds ---

  predicate Covers(c: Chunk, x: nat) {
    c.start <= x < c.start + |c.bytes|
  }

  /** Chunk `i` is the last one that covers offset `x`. */
  ghost predicate LastCover(chunks: seq<Chunk>, i: nat, x: nat) {
    i < |chunks| && Covers(chunks[i], x) && forall j :: i < j < |chunks| ==> !Covers(chunks[j], x)
  }

  ghost predicate Uncovered(chunks: seq<Chunk>, x: nat) {
    forall j :: 0 <= j < |chunks| ==> !Covers(chunks[j], x)
  }

  /** The file ends where the headers or the furthest nonempty chunk end. */
  lemma {:induction false} LengthOfDump(headers: seq<Byte>, chunks: seq<Chunk>)
    ensures var n := |PutAll(headers, chunks)|;
            && |headers| <= n && (forall i :: 0 <= i < |chunks| && chunks[i].bytes != [] ==> chunks[i].start + |chunks[i].bytes| <= n)
            && (n == |headers| || exists i :: 0 <= i < |chunks| && chunks[i].bytes != [] && n == chunks[i].start + |chunks[i].bytes|)
    decreases |chunks|
  {
    if chunks != [] {
      var front := chunks[..|chunks| - 1];
      LengthOfDump(headers, front);
      assert forall i :: 0 <= i < |front| ==> chunks[i] == front[i];
    }
  }

  /** Where no chunk is written the file holds the headers, then zero. */
  lemma {:induction false} ByteUncovered(headers: seq<Byte>, chunks: seq<Chunk>, x: nat)
    requires Uncovered(chunks, x) && x < |PutAll(headers, chunks)|
    ensures PutAll(headers, chunks)[x] == if x < |headers| then headers[x] else 0
    decreases |chunks|
  {
    hide Put;
    if chunks != [] {
      var n := |chunks| - 1;
      var front := chunks[..n];
      assert !Covers(chunks[n], x);
      assert forall j :: 0 <= j < n ==> front[j] == chunks[j];
      hide Uncovered;
      assert Uncovered(front, x);
      if x < |PutAll(headers, front)| {
        ByteUncovered(headers, front, x);
      }
    }
  }

  /** Elsewhere it holds the byte of the last chunk written there. */
  lemma {:induction false} ByteCovered(headers: seq<Byte>, chunks: seq<Chunk>, i: nat, x: nat)
    requires LastCover(chunks, i, x)
    ensures x < |PutAll(headers, chunks)| && PutAll(headers, chunks)[x] == chunks[i].bytes[x - chunks[i].start]
    decreases |chunks|
  {
    hide Put;
    var n := |chunks| - 1;
    if i < n {
      var front := chunks[..n];
      assert !Covers(chunks[n], x);
      assert LastCover(front, i, x);
      ByteCovered(headers, front, i, x);
    }
  }

  // --- mapping the file back ---

  /** The sections' file ranges lie above the headers, below 2 GiB and apart from each other. */
  predicate PlainLayout(secs: seq<Section>, headerLength: nat) {
    && (forall i :: 0 <= i < |secs| ==> headerLength <= secs[i].rawOff < 0x8000_0000)
    && (forall i, j :: 0 <= i < j < |secs| ==>
          secs[i].rawOff + WriteSize(secs[i]) <= secs[j].rawOff || secs[j].rawOff + WriteSize(secs[j]) <= secs[i].rawOff)
  }

  /** What a loader maps at a section's address. */
  function Mapped(file: seq<Byte>, sec: Section): (s: seq<Byte>) {
    if sec.rawOff + sec.rawSize <= |file| then file[sec.rawOff..sec.rawOff + sec.rawSize] else []
  }

  predicate Apart(chunks: seq<Chunk>, headerLength: nat) {
    && (forall i :: 0 <= i < |chunks| ==> headerLength <= chunks[i].start)
    && (forall i, j :: 0 <= i < j < |chunks| ==>
          chunks[i].start + |chunks[i].bytes| <= chunks[j].start || chunks[j].start + |chunks[j].bytes| <= chunks[i].start)
  }

  lemma PlainChunks(m: Memory, base: Word, secs: seq<Section>, headerLength: nat)
    requires PlainLayout(secs, headerLength)
    ensures Apart(Chunks(m, base, secs, headerLength), headerLength)
    ensures forall i :: 0 <= i < |secs| ==>
              Chunks(m, base, secs, headerLength)[i] == Chunk(secs[i].rawOff, Source(m, base, secs[i]))
  {
    hide Source, WriteSize, Chunks;
    var chunks := Chunks(m, base, secs, headerLength);
    forall i | 0 <= i < |secs| ensures chunks[i] == Chunk(secs[i].rawOff, Source(m, base, secs[i])) {
      assert StartOf(secs, headerLength, i) == secs[i].rawOff;
    }
    hide StartOf;
    assert forall i :: 0 <= i < |secs| ==> |chunks[i].bytes| == WriteSize(secs[i]);
  }

  /** Chunks that lie apart are all found whole, and so are the headers before them. */
  lemma ApartChunksKept(headers: seq<Byte>, chunks: seq<Chunk>, i: nat)
    requires Apart(chunks, |headers|) && i < |chunks| && chunks[i].bytes != []
    ensures var file, c := PutAll(headers, chunks), chunks[i];
            headers <= file && c.start + |c.bytes| <= |file| && file[c.start..c.start + |c.bytes|] == c.bytes
  {
    hide PutAll;
    var file, c := PutAll(headers, chunks), chunks[i];
    LengthOfDump(headers, chunks);
    forall k | 0 <= k < |c.bytes| ensures file[c.start + k] == c.bytes[k] {
      ByteCovered(headers, chunks, i, c.start + k);
    }
    forall x | 0 <= x < |headers| ensures file[x] == headers[x] {
      ByteUncovered(headers, chunks, x);
    }
  }

  /** With a plain layout, loading the dump gives back the memory of every section that was not skipped, and the headers. */
  lemma DumpMapsBack(m: Memory, base: Word, headers: seq<Byte>, secs: seq<Section>, i: nat)
    requires PlainLayout(secs, |headers|) && i < |secs| && secs[i].rawSize > 0
    ensures var file := Dumped(m, base, headers, secs);
            && headers <= file
            && Mapped(file, secs[i]) == if Skipped(secs[i]) then Zeros(secs[i].rawSize)
                                        else Load(m, Wrap(base + secs[i].va), secs[i].rawSize)
  {
    hide Skipped, Load, PutAll, Chunks, Apart, PlainLayout;
    PlainChunks(m, base, secs, |headers|);
    ApartChunksKept(headers, Chunks(m, base, secs, |headers|), i);
  }

  // --- when the headers survive ---

  /** Section `i` is the last one written over offset `x`. */
  ghost predicate LastWritten(secs: seq<Section>, pos: nat, i: nat, x: nat) {
    && i < |secs| && StartOf(secs, pos, i) <= x < StartOf(secs, pos, i) + WriteSize(secs[i])
    && forall j :: i < j < |secs| ==> !(StartOf(secs, pos, j) <= x < StartOf(secs, pos, j) + WriteSize(secs[j]))
  }

  lemma LastWrittenCovers(m: Memory, base: Word, secs: seq<Section>, pos: nat, x: nat)
    ensures forall i: nat :: LastWritten(secs, pos, i, x) <==> LastCover(Chunks(m, base, secs, pos), i, x)
    ensures Uncovered(Chunks(m, base, secs, pos), x) || exists i: nat :: LastWritten(secs, pos, i, x)
  {
    hide StartOf, Source, WriteSize, Chunks;
    var chunks := Chunks(m, base, secs, pos);
    LastExists(chunks, x);
    assert forall i :: 0 <= i < |secs| ==> chunks[i].start == StartOf(secs, pos, i) && |chunks[i].bytes| == WriteSize(secs[i]);
    forall i: nat ensures LastWritten(secs, pos, i, x) <==> LastCover(chunks, i, x) {
      if i < |secs| {
        assert forall j :: i <= j < |secs| ==>
            (Covers(chunks[j], x) <==> StartOf(secs, pos, j) <= x < StartOf(secs, pos, j) + WriteSize(secs[j]));
      }
    }
    if i: nat :| LastCover(chunks, i, x) {
      assert LastWritten(secs, pos, i, x);
    }
  }

  lemma {:induction false} LastExists(chunks: seq<Chunk>, x: nat)
    ensures Uncovered(chunks, x) || exists i: nat :: LastCover(chunks, i, x)
    decreases |chunks|
  {
    if chunks != [] {
      var n := |chunks| - 1;
      var front := chunks[..n];
      LastExists(front, x);
      if Covers(chunks[n], x) {
        assert LastCover(chunks, n, x);
      } else if i: nat :| LastCover(front, i, x) {
        assert LastCover(chunks, i, x);
      }
    }
  }

  lemma IsCovered(chunks: seq<Chunk>, i: nat, x: nat)
    requires LastCover(chunks, i, x)
    ensures i < |chunks| && Covers(chunks[i], x)
  {
  }

  lemma HeaderByteNotWritten(m: Memory, base: Word, secs: seq<Section>, headerLength: nat, x: nat)
    requires x < headerLength && forall i: nat :: !LastWritten(secs, headerLength, i, x)
    ensures Dumped(m, base, Load(m, base, headerLength), secs)[x] == m[Wrap(base + x)]
  {
    hide StartOf, Source, Chunks, PutAll, LastWritten, LastCover, Uncovered;
    LastWrittenCovers(m, base, secs, headerLength, x);
    ByteUncovered(Load(m, base, headerLength), Chunks(m, base, secs, headerLength), x);
  }

  lemma HeaderByteWritten(m: Memory, base: Word, secs: seq<Section>, headerLength: nat, i: nat, x: nat)
    requires x < headerLength && LastWritten(secs, headerLength, i, x)
    ensures Dumped(m, base, Load(m, base, headerLength), secs)[x] ==
              if Skipped(secs[i]) then 0 else m[Wrap(base + secs[i].va + x - StartOf(secs, headerLength, i))]
  {
    hide Skipped, Chunks, PutAll, StartOf, Uncovered;
    var chunks := Chunks(m, base, secs, headerLength);
    LastWrittenCovers(m, base, secs, headerLength, x);
    ByteCovered(Load(m, base, headerLength), chunks, i, x);
    IsCovered(chunks, i, x);
    var start := StartOf(secs, headerLength, i);
    assert chunks[i] == Chunk(start, Source(m, base, secs[i]));
    WrapShift(base + secs[i].va, x - start);
  }

  /** The file that is written for the module at `base`. */
  function FileOf(m: Memory, base: Word): (r: seq<Byte>)
    ensures |r| >= |Headers(m, base)|
  {
    Dumped(m, base, Headers(m, base), SectionsOf(m, base))
  }

  /** What a section writes over header offset `x`. */
  function OverwrittenBy(m: Memory, base: Word, secs: seq<Section>, headerLength: nat, i: nat, x: nat): Byte
    requires i < |secs|
  {
    if Skipped(secs[i]) then 0 else m[Wrap(base + secs[i].va + x - StartOf(secs, headerLength, i))]
  }

  /** For every memory of the process: a header byte survives the dump if and only if the section that is last written
      over it, if there is one, happens to write that very byte there. */
  lemma HeaderByteKeptExactlyWhen(m: Memory, base: Word, x: nat)
    requires x < |Headers(m, base)|
    ensures var n, secs := |Headers(m, base)|, SectionsOf(m, base);
            Headers(m, base)[x] == m[Wrap(base + x)] &&
            (FileOf(m, base)[x] == m[Wrap(base + x)] <==>
              forall i: nat :: LastWritten(secs, n, i, x) ==> OverwrittenBy(m, base, secs, n, i, x) == m[Wrap(base + x)])
  {
    hide StartOf, Skipped, Dumped, SectionsOf, LastWritten, NtHeaders;
    var n, secs := |Headers(m, base)|, SectionsOf(m, base);
    if i: nat :| LastWritten(secs, n, i, x) {
      WrittenIsSection(secs, n, i, x);
      HeaderByteWritten(m, base, secs, n, i, x);
      forall j: nat | LastWritten(secs, n, j, x) ensures j == i {
        OnlyOneLast(secs, n, i, j, x);
      }
    } else {
      HeaderByteNotWritten(m, base, secs, n, x);
    }
  }

  lemma WrittenIsSection(secs: seq<Section>, pos: nat, i: nat, x: nat)
    requires LastWritten(secs, pos, i, x)
    ensures i < |secs|
  {
  }

  lemma OnlyOneLast(secs: seq<Section>, pos: nat, i: nat, j: nat, x: nat)
    requires LastWritten(secs, pos, i, x) && LastWritten(secs, pos, j, x)
    ensures i == j
  {
    hide StartOf, WriteSize;
  }

  /** Uninitialised data, with neither size nor place in the file, is dumped over the start of the headers: the file of
      a dumpable module whose last section is such then starts with the section's first byte, so it keeps the "M" of
      its signature if and only if the data happens to start with one. */
  lemma UninitialisedDataOverwritesHeaders(m: Memory, base: Word)
    requires Dumpable(m, base, true) && |Headers(m, base)| > 0 && SectionsOf(m, base) != []
    requires var bss := SectionsOf(m, base)[|SectionsOf(m, base)| - 1];
             bss.rawSize == 0 && bss.rawOff == 0 && bss.vsize > 0 && !Skipped(bss)
    ensures var bss := SectionsOf(m, base)[|SectionsOf(m, base)| - 1];
            FileOf(m, base)[0] == m[Wrap(base + bss.va)] && (FileOf(m, base)[0] == 0x4D <==> m[Wrap(base + bss.va)] == 0x4D)
  {
    hide Skipped, SectionsOf, Dumpable, Dumped, NtHeaders;
    var n, secs := |Headers(m, base)|, SectionsOf(m, base);
    assert LastWritten(secs, n, |secs| - 1, 0);
    assert StartOf(secs, n, |secs| - 1) == 0;
    HeaderByteWritten(m, base, secs, n, |secs| - 1, 0);
  }

  /** What the dump of a module holds, read off the module's own headers: where the section that is last written over
      offset `x` has a raw offset below 2 GiB, `x` lies in its raw range (its virtual size when it has no raw size), and
      the byte is that of the section in memory, or 0 when the section is named ".tvm..." or ".tls". */
  lemma SectionByteDumped(m: Memory, base: Word, i: nat, x: nat)
    requires LastWritten(SectionsOf(m, base), |Headers(m, base)|, i, x)
    ensures var nt := Wrap(base + LoadWord(m, Wrap(base + 60)));
            var a := Wrap(Wrap(nt + 24 + LoadHalf(m, Wrap(nt + 20))) + 40 * i);
            var name, vsize, va, rawSize, rawOff :=
              Load(m, a, 8), LoadWord(m, Wrap(a + 8)), LoadWord(m, Wrap(a + 12)), LoadWord(m, Wrap(a + 16)), LoadWord(m, Wrap(a + 20));
            && i < LoadHalf(m, Wrap(nt + 6)) && x < |FileOf(m, base)|
            && (rawOff < 0x8000_0000 ==>
                  && rawOff <= x < rawOff + (if rawSize > 0 then rawSize else vsize)
                  && FileOf(m, base)[x] ==
                       if name[..2] == [0x2E, 0x74] && (name[2..4] == [0x76, 0x6D] || name[2..5] == [0x6C, 0x73, 0]) then 0
                       else m[Wrap(base + va + x - rawOff)])
  {
    hide LoadWord, LoadHalf, Load, Skipped, StartOf, WriteSize, Source, PutAll, Sections, Chunks, FirstSection;
    var n, secs := |Headers(m, base)|, SectionsOf(m, base);
    var chunks := Chunks(m, base, secs, n);
    WrittenIsSection(secs, n, i, x);
    SectionIs(m, base, i);
    NameIs(m, base, i);
    SkippedExactlyWhen(secs[i]);
    HeadersAre(m, base);
    LastWrittenCovers(m, base, secs, n, x);
    ChunkIs(m, base, secs, n, i);
    SourceIs(m, base, secs[i]);
    ByteCovered(Headers(m, base), chunks, i, x);
    IsCovered(chunks, i, x);
  }

  lemma NameIs(m: Memory, base: Word, i: nat)
    requires i < |SectionsOf(m, base)|
    ensures var nt := Wrap(base + LoadWord(m, Wrap(base + 60)));
            SectionsOf(m, base)[i].name == Load(m, Wrap(Wrap(nt + 24 + LoadHalf(m, Wrap(nt + 20))) + 40 * i), 8)
  {
    hide LoadWord, LoadHalf, Load;
  }

  // --- a module that loses its signature ---

  /** The bytes of a small module: DOS and NT headers, one section header ".bss", and nothing else. */
  function ExampleByte(off: int): Byte {
    match off
    case 0 => 0x4D
    case 1 => 0x5A
    case 0x3C => 0x40
    case 0x40 => 0x50
    case 0x41 => 0x45
    case 0x46 => 1
    case 0x54 => 0xE0
    case 0x95 => 0x02
    case 0x138 => 0x2E
    case 0x139 => 0x62
    case 0x13A => 0x73
    case 0x13B => 0x73
    case 0x141 => 0x10
    case 0x145 => 0x10
    case _ => 0
  }

  const EXAMPLE_BASE: Word := 0x40_0000

  function ExampleBytes(n: nat): (s: seq<Byte>)
    ensures |s| == n && forall x :: 0 <= x < n ==> s[x] == ExampleByte(x - EXAMPLE_BASE)
  {
    seq<Byte>(n, x requires 0 <= x < n => ExampleByte(x - EXAMPLE_BASE))
  }

  function ExampleMemory(): (m: Memory)
    ensures forall x: Word :: m[x] == ExampleByte(x - EXAMPLE_BASE)
  {
    ExampleBytes(SIZE)
  }

  function ExampleWord(off: int): int {
    ExampleByte(off) as int + 0x100 * ExampleByte(off + 1) as int + 0x1_0000 * ExampleByte(off + 2) as int +
    0x100_0000 * ExampleByte(off + 3) as int
  }

  lemma ExampleRead(m: Memory, a: Word, off: nat)
    requires m == ExampleMemory() && a == EXAMPLE_BASE + off && off < 0x2000
    ensures LoadWord(m, a) == ExampleWord(off) && m[a] == ExampleByte(off)
    ensures LoadHalf(m, a) == ExampleByte(off) as int + 0x100 * ExampleByte(off + 1) as int
  {
    hide ExampleByte, ExampleMemory;
    LoadIsSlice(m, a, 4);
    assert m[a..a + 4] == [m[a], m[a + 1], m[a + 2], m[a + 3]];
    WordIsWrapped(a + 1);
  }

  /** On it the dump writes a file, and the file no longer starts with the module's signature. */
  lemma SignatureLost()
    ensures var m := ExampleMemory();
            && Dumpable(m, EXAMPLE_BASE, true) && Headers(m, EXAMPLE_BASE) != []
            && m[EXAMPLE_BASE] == 0x4D && FileOf(m, EXAMPLE_BASE)[0] == 0
  {
    var m := ExampleMemory();
    hide FileOf, SectionsOf, Headers, ExampleMemory, Dumpable, Skipped;
    ExampleDumpable(m);
    ExampleSection(m);
    UninitialisedDataOverwritesHeaders(m, EXAMPLE_BASE);
  }

  lemma ExampleNt(m: Memory)
    requires m == ExampleMemory()
    ensures NtHeaders(m, EXAMPLE_BASE) == EXAMPLE_BASE + 0x40
  {
    hide ExampleMemory, LoadWord;
    ExampleRead(m, EXAMPLE_BASE + 0x3C, 0x3C);
  }

  lemma ExampleDumpable(m: Memory)
    requires m == ExampleMemory()
    ensures Dumpable(m, EXAMPLE_BASE, true) && |Headers(m, EXAMPLE_BASE)| == 0x200 && m[EXAMPLE_BASE] == 0x4D
  {
    hide ExampleMemory, LoadWord, LoadHalf, NtHeaders, Load;
    ExampleNt(m);
    ExampleRead(m, EXAMPLE_BASE, 0);
    ExampleRead(m, EXAMPLE_BASE + 0x40, 0x40);
    ExampleRead(m, EXAMPLE_BASE + 0x94, 0x94);
  }

  lemma ExampleSection(m: Memory)
    requires m == ExampleMemory()
    ensures var secs := SectionsOf(m, EXAMPLE_BASE);
            && |secs| == 1 && !Skipped(secs[0]) && secs[0].rawSize == 0 && secs[0].rawOff == 0
            && secs[0].vsize == 0x1000 && secs[0].va == 0x1000
    ensures m[Wrap(EXAMPLE_BASE + 0x1000)] == 0
  {
    hide ExampleMemory, LoadWord, LoadHalf, NtHeaders, Load, Skipped;
    ExampleNt(m);
    ExampleRead(m, EXAMPLE_BASE + 0x46, 0x46);
    ExampleRead(m, EXAMPLE_BASE + 0x54, 0x54);
    ExampleRead(m, EXAMPLE_BASE + 0x140, 0x140);
    ExampleRead(m, EXAMPLE_BASE + 0x144, 0x144);
    ExampleRead(m, EXAMPLE_BASE + 0x148, 0x148);
    ExampleRead(m, EXAMPLE_BASE + 0x14C, 0x14C);
    ExampleRead(m, EXAMPLE_BASE + 0x1000, 0x1000);
    assert SectionsOf(m, EXAMPLE_BASE)[0] == SectionAt(m, EXAMPLE_BASE + 0x138);
    ExampleName(m);
  }

  lemma ExampleName(m: Memory)
    requires m == ExampleMemory()
    ensures !Skipped(SectionAt(m, EXAMPLE_BASE + 0x138))
  {
    hide ExampleMemory, LoadWord;
    ExampleRead(m, EXAMPLE_BASE + 0x139, 0x139);
    var name := Load(m, EXAMPLE_BASE + 0x138, 8);
    assert name[1] == 0x62 by { WordIsWrapped(EXAMPLE_BASE + 0x139); }
    assert TVM[1] == 0x74 && TLS[1] == 0x74;
  }
}
