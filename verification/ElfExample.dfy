/** One small image byte by byte: a loadable segment with zero-filled memory behind
    its 262 bytes, a dynamic table and one needed library.  It stands as bytes, so
    every offset, width and number of the format is fixed by it. */
module ElfExample {
  import opened Bits
  import opened Elf
  import opened ElfParser
  import opened ElfFacts
  import opened ElfLayout
  import opened ElfLaws

  function Joined(rows: seq<seq<U8>>): seq<U8> {
    if rows == [] then [] else rows[0] + Joined(rows[1..])
  }

  function FileHeader(): seq<seq<U8>> {
    [[0x7f, 0x45, 0x4c, 0x46, 2, 1, 1, 0],
     [0, 0, 0, 0, 0, 0, 0, 0],
     [3, 0, 62, 0, 1, 0, 0, 0],
     [0x34, 0x12, 0, 0, 0, 0, 0, 0],
     [64, 0, 0, 0, 0, 0, 0, 0],
     [0, 0, 0, 0, 0, 0, 0, 0],
     [0, 0, 0, 0, 64, 0, 56, 0],
     [2, 0, 0, 0, 0, 0, 0, 0]]
  }

  function LoadHeader(): seq<seq<U8>> {
    [[1, 0, 0, 0, 6, 0, 0, 0],
     [0, 0, 0, 0, 0, 0, 0, 0],
     [0, 0x10, 0, 0, 0, 0, 0, 0],
     [0, 0x50, 0, 0, 0, 0, 0, 0],
     [6, 1, 0, 0, 0, 0, 0, 0],
     [6, 2, 0, 0, 0, 0, 0, 0],
     [0, 0x10, 0, 0, 0, 0, 0, 0]]
  }

  function DynamicHeader(): seq<seq<U8>> {
    [[2, 0, 0, 0, 4, 0, 0, 0],
     [0xb0, 0, 0, 0, 0, 0, 0, 0],
     [0xb0, 0x10, 0, 0, 0, 0, 0, 0],
     [0xb0, 0x50, 0, 0, 0, 0, 0, 0],
     [0x50, 0, 0, 0, 0, 0, 0, 0],
     [0x50, 0, 0, 0, 0, 0, 0, 0],
     [8, 0, 0, 0, 0, 0, 0, 0]]
  }

  /** String table at 0x1100, six bytes long. */
  function StringEntries(): seq<seq<U8>> {
    [[5, 0, 0, 0, 0, 0, 0, 0], [0, 0x11, 0, 0, 0, 0, 0, 0],
     [10, 0, 0, 0, 0, 0, 0, 0], [6, 0, 0, 0, 0, 0, 0, 0]]
  }

  /** Library at 1; relocations; the end. */
  function OtherEntries(): seq<seq<U8>> {
    [[1, 0, 0, 0, 0, 0, 0, 0], [1, 0, 0, 0, 0, 0, 0, 0],
     [7, 0, 0, 0, 0, 0, 0, 0], [0, 0, 0, 0, 0, 0, 0, 0],
     [0, 0, 0, 0, 0, 0, 0, 0], [0, 0, 0, 0, 0, 0, 0, 0]]
  }

  function Names(): seq<U8> {
    [0, 'l' as int, 'i' as int, 'b' as int, 'c' as int, 0]
  }

  function Image(): seq<U8> {
    Joined(FileHeader()) + Joined(LoadHeader()) + Joined(DynamicHeader()) + Joined(StringEntries())
    + Joined(OtherEntries()) + Names()
  }

  // ---------------------------------------------------------------- its parts

  lemma SameBytes(img: seq<U8>, at: nat, part: seq<U8>)
    requires Stands(img, at, part)
    ensures forall k {:trigger part[k]} :: 0 <= k < |part| ==> img[at + k] == part[k]
  {
    var s := img[at..at + |part|];
    assert forall k :: 0 <= k < |s| ==> s[k] == img[at + k];
  }

  lemma NextRow(img: seq<U8>, at: nat, rows: seq<seq<U8>>, k: nat)
    requires k < |rows| && |rows[k]| == 8
    ensures |Joined(rows[k..])| == 8 + |Joined(rows[k + 1..])|
    ensures Stands(img, at, Joined(rows[k..])) ==> at + 8 <= |img| && Stands(img, at + 8, Joined(rows[k + 1..]))
    ensures Stands(img, at, Joined(rows[k..])) ==>
              && Read64(img, at) == Read64(rows[k], 0)
              && Read32(img, at) == Read32(rows[k], 0) && Read32(img, at + 4) == Read32(rows[k], 4)
    ensures Stands(img, at, Joined(rows[k..])) ==> Read16(img, at) == Read16(rows[k], 0)
    ensures Stands(img, at, Joined(rows[k..])) ==> Read16(img, at + 2) == Read16(rows[k], 2)
    ensures Stands(img, at, Joined(rows[k..])) ==> Read16(img, at + 4) == Read16(rows[k], 4)
    ensures Stands(img, at, Joined(rows[k..])) ==> Read16(img, at + 6) == Read16(rows[k], 6)
    ensures Joined(rows[|rows|..]) == [] && rows[0..] == rows
  {
    assert rows[k..][1..] == rows[k + 1..];
    StandsParts(img, at, rows[k], Joined(rows[k + 1..]));
    if Stands(img, at, rows[k]) {
      SameBytes(img, at, rows[k]);
    }
  }

  lemma LoadRead(img: seq<U8>, at: nat)
    ensures |Joined(LoadHeader())| == 56
    ensures Stands(img, at, Joined(LoadHeader())) ==>
              at + 56 <= |img| && PhdrAt(img, at) == Phdr(1, 6, 0, 0x1000, 0x106, 0x206, 0x1000)
  {
    hide Stands, Joined;
    NextRow(img, at, LoadHeader(), 0);
    NextRow(img, at + 8, LoadHeader(), 1);
    NextRow(img, at + 16, LoadHeader(), 2);
    NextRow(img, at + 24, LoadHeader(), 3);
    NextRow(img, at + 32, LoadHeader(), 4);
    NextRow(img, at + 40, LoadHeader(), 5);
    NextRow(img, at + 48, LoadHeader(), 6);
  }

  lemma DynamicRead(img: seq<U8>, at: nat)
    ensures |Joined(DynamicHeader())| == 56
    ensures Stands(img, at, Joined(DynamicHeader())) ==>
              at + 56 <= |img| && PhdrAt(img, at) == Phdr(2, 4, 0xb0, 0x10b0, 0x50, 0x50, 8)
  {
    hide Stands, Joined;
    NextRow(img, at, DynamicHeader(), 0);
    NextRow(img, at + 8, DynamicHeader(), 1);
    NextRow(img, at + 16, DynamicHeader(), 2);
    NextRow(img, at + 24, DynamicHeader(), 3);
    NextRow(img, at + 32, DynamicHeader(), 4);
    NextRow(img, at + 40, DynamicHeader(), 5);
    NextRow(img, at + 48, DynamicHeader(), 6);
  }

  lemma StringEntriesRead(img: seq<U8>, at: nat)
    ensures |Joined(StringEntries())| == 32
    ensures Stands(img, at, Joined(StringEntries())) ==>
              at + 32 <= |img| && DynAt(img, at) == Dyn(5, 0x1100) && DynAt(img, at + 16) == Dyn(10, 6)
  {
    hide Stands, Joined;
    NextRow(img, at, StringEntries(), 0);
    NextRow(img, at + 8, StringEntries(), 1);
    NextRow(img, at + 16, StringEntries(), 2);
    NextRow(img, at + 24, StringEntries(), 3);
  }

  lemma OtherEntriesRead(img: seq<U8>, at: nat)
    ensures |Joined(OtherEntries())| == 48
    ensures Stands(img, at, Joined(OtherEntries())) ==>
              && at + 48 <= |img|
              && DynAt(img, at) == Dyn(1, 1) && DynAt(img, at + 16) == Dyn(7, 0) && DynAt(img, at + 32) == Dyn(0, 0)
  {
    hide Stands, Joined;
    NextRow(img, at, OtherEntries(), 0);
    NextRow(img, at + 8, OtherEntries(), 1);
    NextRow(img, at + 16, OtherEntries(), 2);
    NextRow(img, at + 24, OtherEntries(), 3);
    NextRow(img, at + 32, OtherEntries(), 4);
    NextRow(img, at + 40, OtherEntries(), 5);
  }

  lemma IdentBytes(img: seq<U8>)
    requires Stands(img, 0, [0x7f, 0x45, 0x4c, 0x46, 2, 1, 1, 0])
    ensures |img| >= 8 && img[..4] == [0x7f, 0x45, 0x4c, 0x46] && img[4] == 2 && img[5] == 1 && img[6] == 1
  {
    var s := img[0..8];
    assert s[4] == img[4] && s[5] == img[5] && s[6] == img[6];
    assert img[..4] == s[..4];
  }

  lemma IdentRead(img: seq<U8>)
    requires Stands(img, 0, Joined(FileHeader()))
    ensures |img| >= 8 && img[..4] == [0x7f, 0x45, 0x4c, 0x46] && img[4] == 2 && img[5] == 1 && img[6] == 1
  {
    var row := FileHeader()[0];
    assert row == [0x7f, 0x45, 0x4c, 0x46, 2, 1, 1, 0];
    assert Joined(FileHeader()) == row + Joined(FileHeader()[1..]);
    hide Stands, Joined, FileHeader;
    StandsParts(img, 0, row, Joined(FileHeader()[1..]));
    IdentBytes(img);
  }

  lemma FrontRead(img: seq<U8>)
    requires Stands(img, 0, Joined(FileHeader()))
    ensures |img| >= 32 && Stands(img, 32, Joined(FileHeader()[4..]))
    ensures |Joined(FileHeader())| == 32 + |Joined(FileHeader()[4..])|
    ensures Read16(img, 16) == 3 && Read16(img, 18) == 62 && Read32(img, 20) == 1 && Read64(img, 24) == 0x1234
  {
    hide Stands, Joined;
    NextRow(img, 0, FileHeader(), 0);
    NextRow(img, 8, FileHeader(), 1);
    NextRow(img, 16, FileHeader(), 2);
    NextRow(img, 24, FileHeader(), 3);
  }

  lemma BackRead(img: seq<U8>)
    requires Stands(img, 32, Joined(FileHeader()[4..]))
    ensures |img| >= 64 && |Joined(FileHeader()[4..])| == 32
    ensures Read64(img, 32) == 64 && Read16(img, 52) == 64 && Read16(img, 54) == 56 && Read16(img, 56) == 2
  {
    hide Stands, Joined;
    NextRow(img, 32, FileHeader(), 4);
    NextRow(img, 40, FileHeader(), 5);
    NextRow(img, 48, FileHeader(), 6);
    NextRow(img, 56, FileHeader(), 7);
  }

  lemma FileHeaderRead(img: seq<U8>)
    requires Stands(img, 0, Joined(FileHeader()))
    ensures |Joined(FileHeader())| == 64 <= |img|
    ensures HeaderStatus(img) == if |img| < 176 then ProgramHeaders else Ok
    ensures Phoff(img) == 64 && Phnum(img) == 2
    ensures Read16(img, 16) == 3 && Read16(img, 18) == 62 && Read64(img, 24) == 0x1234
  {
    IdentRead(img);
    FrontRead(img);
    BackRead(img);
    hide Stands, Joined, Read16, Read32, Read64;
  }

  // ---------------------------------------------------------------- the parse

  lemma SixParts(a: seq<U8>, b: seq<U8>, c: seq<U8>, d: seq<U8>, e: seq<U8>, f: seq<U8>)
    ensures var s := a + b + c + d + e + f;
            && Stands(s, 0, a) && Stands(s, |a|, b) && Stands(s, |a| + |b|, c)
            && Stands(s, |a| + |b| + |c|, d) && Stands(s, |a| + |b| + |c| + |d|, e)
            && Stands(s, |a| + |b| + |c| + |d| + |e|, f)
  {
    var s := a + b + c + d + e + f;
    assert Stands(s, 0, s) by {
      assert s[0..|s|] == s;
    }
    hide Stands;
    StandsParts(s, 0, a + b + c + d + e, f);
    StandsParts(s, 0, a + b + c + d, e);
    StandsParts(s, 0, a + b + c, d);
    StandsParts(s, 0, a + b, c);
    StandsParts(s, 0, a, b);
  }

  lemma Lengths()
    ensures |Joined(FileHeader())| == 64 && |Joined(LoadHeader())| == |Joined(DynamicHeader())| == 56
    ensures |Joined(StringEntries())| == 32 && |Joined(OtherEntries())| == 48
  {
    hide FileHeader, LoadHeader, DynamicHeader, StringEntries, OtherEntries, Joined, Stands;
    HeaderLength();
    LoadRead([], 0);
    DynamicRead([], 0);
    StringEntriesRead([], 0);
    OtherEntriesRead([], 0);
  }

  lemma Placed()
    ensures |Image()| == 262 && Stands(Image(), 0, Joined(FileHeader())) && Stands(Image(), 64, Joined(LoadHeader()))
    ensures Stands(Image(), 120, Joined(DynamicHeader())) && Stands(Image(), 176, Joined(StringEntries()))
    ensures Stands(Image(), 208, Joined(OtherEntries())) && Stands(Image(), 256, Names())
  {
    hide FileHeader, LoadHeader, DynamicHeader, StringEntries, OtherEntries, Joined, Stands;
    Lengths();
    SixParts(Joined(FileHeader()), Joined(LoadHeader()), Joined(DynamicHeader()), Joined(StringEntries()),
             Joined(OtherEntries()), Names());
  }

  lemma HeaderLength()
    ensures |Joined(FileHeader())| == 64
  {
    var a := Joined(FileHeader());
    assert Stands(a, 0, a) by {
      assert a[0..|a|] == a;
    }
    hide Joined, Stands;
    FileHeaderRead(a);
  }

  const LOAD := Phdr(1, 6, 0, 0x1000, 0x106, 0x206, 0x1000)
  const DYNAMIC := Phdr(2, 4, 0xb0, 0x10b0, 0x50, 0x50, 8)

  lemma HeadersOf()
    ensures |Image()| == 262 && HeaderStatus(Image()) == Ok && Phdrs(Image()) == [LOAD, DYNAMIC]
    ensures Read16(Image(), 16) == 3 && Read64(Image(), 24) == 0x1234
  {
    hide Image, FileHeader, LoadHeader, DynamicHeader, StringEntries, OtherEntries, Names;
    hide Stands, Joined, HeaderStatus, Phoff, Phnum, PhdrAt, DynAt, Read16, Read64, Phdrs;
    Placed();
    FileHeaderRead(Image());
    LoadRead(Image(), 64);
    DynamicRead(Image(), 120);
    TableEntry(Image(), 0);
    TableEntry(Image(), 1);
  }

  lemma EntriesOf()
    ensures |Image()| == 262 && DynamicOk(|Image()|, DYNAMIC)
    ensures Dyns(Image(), DYNAMIC) == [Dyn(5, 0x1100), Dyn(10, 6), Dyn(1, 1), Dyn(7, 0), Dyn(0, 0)]
  {
    hide Image, FileHeader, LoadHeader, DynamicHeader, StringEntries, OtherEntries, Names;
    hide Stands, Joined, DynAt;
    Placed();
    StringEntriesRead(Image(), 176);
    OtherEntriesRead(Image(), 208);
  }

  function Entries(): seq<Dyn> {
    [Dyn(5, 0x1100), Dyn(10, 6), Dyn(1, 1), Dyn(7, 0), Dyn(0, 0)]
  }

  lemma HeadersFine(allowInterp: bool)
    ensures |Image()| == 262 && SegmentsStatus(Image(), allowInterp, [LOAD, DYNAMIC], 2) == Ok
  {
    hide Image, LoadOk, DynamicOk, InterpOk, HeaderVerdict, SegmentsStatus;
    EntriesOf();
    var phs := [LOAD, DYNAMIC];
    FirstVerdict(Image(), allowInterp, phs, 2);
    LoadFine();
    VerdictMeans(Image(), allowInterp, phs, 0);
    VerdictMeans(Image(), allowInterp, phs, 1);
  }

  lemma LoadFine()
    ensures LoadOk(262, LOAD)
  {
    hide PowerOfTwo, Pow2;
    Pow2Values();
    LoadMeans(262, LOAD);
  }

  lemma EntriesEnd()
    ensures FirstNull(Entries()) == 4 && Live(Entries()) == Entries()[..4]
    ensures Live(Entries()) == [Dyn(5, 0x1100)] + [Dyn(10, 6)] + [Dyn(1, 1)] + [Dyn(7, 0)]
  {
    var ds := Entries();
    assert ds[0].tag != 0 && ds[1].tag != 0 && ds[2].tag != 0 && ds[3].tag != 0 && ds[4].tag == 0;
    hide FirstNull;
    assert FirstNull(ds) == 4;
  }

  lemma EntriesMean()
    ensures NeededOffsets(Live(Entries())) == [1]
    ensures LastValue(Live(Entries()), 5) == 0x1100 && LastValue(Live(Entries()), 10) == 6
    ensures HasRela(Live(Entries())) && !HasTextrel(Live(Entries()))
  {
    hide Live, NeededOffsets, LastValue, HasRela, HasTextrel, TextrelEntry, Entries;
    var d0, d1, d2, d3 := Dyn(5, 0x1100), Dyn(10, 6), Dyn(1, 1), Dyn(7, 0);
    EntriesEnd();
    assert [] + [d0] == [d0];
    NothingYet();
    EntryExtends([], d0);
    EntryExtends([d0], d1);
    EntryExtends([d0] + [d1], d2);
    EntryExtends([d0] + [d1] + [d2], d3);
    EntryMeans(d0);
    EntryMeans(d1);
    EntryMeans(d2);
    EntryMeans(d3);
  }

  lemma NothingYet()
    ensures NeededOffsets([]) == [] && LastValue([], 5) == LastValue([], 10) == 0 && !HasRela([]) && !HasTextrel([])
  {
  }

  lemma NameThere()
    ensures |Image()| == 262 && Image()[257..261] == Letters() && Image()[261] == 0
  {
    hide Image, Stands, Joined;
    Placed();
    NamesAt(Image());
  }

  function Letters(): seq<U8> {
    ['l' as int, 'i' as int, 'b' as int, 'c' as int]
  }

  lemma NamesAt(img: seq<U8>)
    requires Stands(img, 256, Names())
    ensures |img| >= 262 && img[257..261] == Letters() && img[261] == 0
  {
    var s := img[256..262];
    assert s[5] == img[261] && s[1..5] == img[257..261];
  }

  /** The library's name: one character in, in the six bytes at 0x100. */
  lemma TableThere()
    ensures Translate([LOAD, DYNAMIC], 0x1100) == Some(Place(0x100, 6))
    ensures |Image()| == 262 && NulWithin(Image(), 0x101, 5) && CString(Image(), 0x101, 5) == Letters()
  {
    NameThere();
    hide Image;
    assert Image()[261] == 0;
    StringEnds(Image());
  }

  lemma StringEnds(img: seq<U8>)
    requires |img| == 262 && img[257..261] == Letters() && img[261] == 0
    ensures CString(img, 257, 5) == Letters()
  {
    var s := img[257..261];
    assert img[257] == s[0] && img[258] == s[1] && img[259] == s[2] && img[260] == s[3];
  }

  /** The parser accepts the image: zero-filled memory behind a segment is fine. */
  lemma Accepted(allowInterp: bool)
    ensures |Image()| == 262 && ParseStatus(Image(), allowInterp) == Ok
  {
    hide Image, ParseStatus, HeaderStatus, Phdrs, SegmentsStatus, DynamicStatus, Dyns;
    HeadersOf();
    HeadersFine(allowInterp);
    PartsInOrder(Image(), allowInterp);
    var phs := [LOAD, DYNAMIC];
    assert phs[0].kind == 1 && phs[1].kind == 2;
    EntriesOf();
    EntriesFine();
  }

  lemma EntriesFine()
    ensures DynamicStatus(Image(), [LOAD, DYNAMIC], Entries()) == Ok
  {
    hide Image, Live, NeededOffsets, LastValue, Translate, NulWithin, HasRela, HasTextrel;
    EntriesMean();
    TableThere();
    var ds := Entries();
    assert ds[4].tag == 0;
    DynamicCodes(Image(), [LOAD, DYNAMIC], ds);
  }

  /** And this is what it writes down. */
  lemma Described(summary: Summary)
    requires |Image()| == 262 && HeaderStatus(Image()) == Ok && summary.Valid() && Describes(summary, Image())
    ensures summary.elfType == 3 && summary.elfMachine == 62 && summary.entry == 0x1234
    ensures summary.loadSegments == 1 && summary.writableLoadSegments == 1
    ensures summary.executableLoadSegments == summary.writableExecutableLoadSegments == 0
    ensures summary.hasDynamic == 1 && summary.hasInterp == 0
    ensures summary.neededCount == 1 && summary.hasRela == 1 && summary.hasTextrel == 0
    ensures summary.interpreter[..] == Padded([], 96) && summary.needed[..] == Padded(Letters(), 768)
  {
    hide Image, HeaderStatus, Phdrs, Describes, Read16, Read64;
    HeadersOf();
    FileMeans(Image(), summary);
    HeaderFields(summary);
    DynamicFields(summary);
  }

  lemma HeaderFields(summary: Summary)
    requires |Image()| == 262 && HeaderStatus(Image()) == Ok && summary.Valid() && Describes(summary, Image())
    ensures summary.loadSegments == 1 && summary.writableLoadSegments == 1
    ensures summary.executableLoadSegments == summary.writableExecutableLoadSegments == 0
    ensures summary.hasDynamic == 1 && summary.hasInterp == 0
  {
    hide Image, HeaderStatus, Phdrs, Describes;
    HeadersOf();
    SummaryMeans(Image(), summary);
    var phs := [LOAD, DYNAMIC];
    assert (set i | 0 <= i < |phs| && phs[i].kind == 1) == {0};
    assert (set i | 0 <= i < |phs| && phs[i].kind == 1 && phs[i].flags / 2 % 2 == 1) == {0};
    assert (set i | 0 <= i < |phs| && phs[i].kind == 1 && phs[i].flags % 2 == 1) == {};
    assert (set i | 0 <= i < |phs| && phs[i].kind == 1 && phs[i].flags % 4 == 3) == {};
    assert phs[1].kind == 2;
  }

  lemma DynamicFields(summary: Summary)
    requires |Image()| == 262 && HeaderStatus(Image()) == Ok && summary.Valid() && Describes(summary, Image())
    ensures summary.neededCount == 1 && summary.hasRela == 1 && summary.hasTextrel == 0
    ensures summary.needed[..] == Padded(Letters(), 768)
  {
    hide Image, HeaderStatus, Phdrs, Live, NeededOffsets, LastValue, Translate, NulWithin, HasRela, HasTextrel;
    hide Summary.DescribesHeaders, Summary.DescribesFile, Dyns, DynamicOk;
    HeadersOf();
    EntriesOf();
    EntriesMean();
    TableThere();
    var phs := [LOAD, DYNAMIC];
    assert phs[0].kind == 1 && phs[1].kind == 2;
    assert FirstOf(phs, PT_DYNAMIC) == 1;
    hide FirstOf;
    assert Dyns(Image(), DYNAMIC) == Entries();
    TableMeans(phs, Live(Entries()));
    OneName(summary.needed[..], Image());
  }

  lemma OneName(buffer: seq<U8>, img: seq<U8>)
    requires |buffer| == 768 && |img| == 262 && CString(img, 0x101, 5) == Letters()
    requires RowsHold(buffer, img, Place(0x100, 6), [1], 1)
    ensures buffer == Padded(Letters(), 768)
  {
    hide CString, BufferHolds;
    assert NameAt(img, Place(0x100, 6), 1) == Letters();
    forall i | 0 <= i < 8 ensures Row(buffer, i) == Padded(if i == 0 then Letters() else [], 96) {
      BufferMeans(Row(buffer, i), if i == 0 then Letters() else []);
    }
    hide RowsHold;
    forall j | 0 <= j < 768 ensures buffer[j] == Padded(Letters(), 768)[j] {
      assert buffer[j] == Row(buffer, j / 96)[j % 96];
    }
  }
}
