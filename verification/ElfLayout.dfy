/** Where the fields of an ELF64 image lie, told by printing them instead of
    reading them: each structure is the list of its fields with their widths, in
    the order of the C structs, and what is printed this way reads back. */
module ElfLayout {
  import opened Bits
  import opened Elf
  import opened ElfParser
  import opened ElfFacts
  import opened ElfLaws

  datatype Field = Field(value: nat, width: nat)

  /** The fields one after the other, each least significant byte first. */
  function Printed(fs: seq<Field>): (b: seq<U8>) {
    if fs == [] then [] else LittleEndian(fs[0].value, fs[0].width) + Printed(fs[1..])
  }

  predicate Stands(img: seq<U8>, at: nat, b: seq<U8>) {
    at + |b| <= |img| && img[at..at + |b|] == b
  }

  datatype Ehdr = Ehdr(ident: seq<U8>, kind: U16, machine: U16, version: U32, entry: U64, phoff: U64, shoff: U64,
                       flags: U32, ehsize: U16, phentsize: U16, phnum: U16, shentsize: U16, shnum: U16,
                       shstrndx: U16)

  function EhdrFields(h: Ehdr): seq<Field> {
    [Field(h.kind, 2), Field(h.machine, 2), Field(h.version, 4), Field(h.entry, 8), Field(h.phoff, 8),
     Field(h.shoff, 8), Field(h.flags, 4), Field(h.ehsize, 2), Field(h.phentsize, 2), Field(h.phnum, 2),
     Field(h.shentsize, 2), Field(h.shnum, 2), Field(h.shstrndx, 2)]
  }

  function PrintEhdr(h: Ehdr): seq<U8> {
    h.ident + Printed(EhdrFields(h))
  }

  function PrintPhdr(ph: Phdr, paddr: U64): seq<U8> {
    Printed([Field(ph.kind, 4), Field(ph.flags, 4), Field(ph.offset, 8), Field(ph.vaddr, 8), Field(paddr, 8),
             Field(ph.filesz, 8), Field(ph.memsz, 8), Field(ph.align, 8)])
  }

  function PrintDyn(d: Dyn): seq<U8> {
    Printed([Field(d.tag, 8), Field(d.value, 8)])
  }

  // ---------------------------------------------------------------- reading what is printed

  lemma StandsParts(img: seq<U8>, at: nat, a: seq<U8>, b: seq<U8>)
    ensures Stands(img, at, a + b) <==> Stands(img, at, a) && Stands(img, at + |a|, b)
  {
    if at + |a| + |b| <= |img| {
      var s := img[at..at + |a| + |b|];
      assert s[..|a|] == img[at..at + |a|] && s[|a|..] == img[at + |a|..at + |a| + |b|];
      assert s == s[..|a|] + s[|a|..];
      assert (a + b)[..|a|] == a && (a + b)[|a|..] == b;
    }
  }

  /** The first field of a printed structure, and what follows it. */
  lemma FirstField(img: seq<U8>, at: nat, fs: seq<Field>)
    requires fs != []
    ensures Stands(img, at, Printed(fs)) <==>
            && Stands(img, at, LittleEndian(fs[0].value, fs[0].width))
            && Stands(img, at + fs[0].width, Printed(fs[1..]))
  {
    hide LittleEndian, Stands;
    StandsParts(img, at, LittleEndian(fs[0].value, fs[0].width), Printed(fs[1..]));
  }

  /** One byte of a number and those above it. */
  lemma NextByte(v: nat, n: nat)
    ensures LittleEndian(v, n + 1) == [v % 0x100] + LittleEndian(v / 0x100, n)
  {
  }

  lemma TwoBytes(v: nat, n: nat)
    ensures LittleEndian(v, n + 2) == LittleEndian(v % 0x1_0000, 2) + LittleEndian(v / 0x1_0000, n)
  {
    var low := v % 0x1_0000;
    NextByte(v, n + 1);
    NextByte(v / 0x100, n);
    NextByte(low, 1);
    NextByte(low / 0x100, 0);
    hide LittleEndian;
    assert LittleEndian(low / 0x100 / 0x100, 0) == [];
    assert v / 0x100 / 0x100 == v / 0x1_0000 && low % 0x100 == v % 0x100;
    assert low / 0x100 % 0x100 == v / 0x100 % 0x100;
  }

  lemma FourBytes(v: nat, n: nat)
    ensures LittleEndian(v, n + 4) == LittleEndian(v % 0x1_0000_0000, 4) + LittleEndian(v / 0x1_0000_0000, n)
  {
    hide LittleEndian;
    var low := v % 0x1_0000_0000;
    TwoBytes(v, n + 2);
    TwoBytes(v / 0x1_0000, n);
    TwoBytes(low, 2);
    TwoBytes(low / 0x1_0000, 0);
    assert LittleEndian(low / 0x1_0000 / 0x1_0000, 0) == [];
    assert v / 0x1_0000 / 0x1_0000 == v / 0x1_0000_0000 && low % 0x1_0000 == v % 0x1_0000;
    assert low / 0x1_0000 % 0x1_0000 == v / 0x1_0000 % 0x1_0000;
  }

  /** Two, four and eight bytes are the printed number iff it is what is read. */
  lemma Reads16(img: seq<U8>, at: nat, v: U16)
    requires at + 2 <= |img|
    ensures Stands(img, at, LittleEndian(v, 2)) <==> Read16(img, at) == v
  {
    var b := LittleEndian(v, 2);
    assert LittleEndian(v / 0x100, 1) == [v / 0x100 % 0x100];
    assert b == [v % 0x100, v / 0x100];
    assert img[at..at + 2] == [img[at], img[at + 1]];
  }

  lemma Reads32(img: seq<U8>, at: nat, v: U32)
    requires at + 4 <= |img|
    ensures Stands(img, at, LittleEndian(v, 4)) <==> Read32(img, at) == v
  {
    hide LittleEndian, Stands, Read16;
    TwoBytes(v, 2);
    StandsParts(img, at, LittleEndian(v % 0x1_0000, 2), LittleEndian(v / 0x1_0000, 2));
    Reads16(img, at, v % 0x1_0000);
    Reads16(img, at + 2, v / 0x1_0000);
  }

  lemma Reads64(img: seq<U8>, at: nat, v: U64)
    requires at + 8 <= |img|
    ensures Stands(img, at, LittleEndian(v, 8)) <==> Read64(img, at) == v
  {
    hide LittleEndian, Stands, Read32;
    FourBytes(v, 4);
    StandsParts(img, at, LittleEndian(v % 0x1_0000_0000, 4), LittleEndian(v / 0x1_0000_0000, 4));
    Reads32(img, at, v % 0x1_0000_0000);
    Reads32(img, at + 4, v / 0x1_0000_0000);
  }

  /** A field of the C structs: two, four or eight bytes of a number that fits. */
  predicate Proper(f: Field) {
    || (f.width == 2 && f.value < 0x1_0000)
    || (f.width == 4 && f.value < 0x1_0000_0000)
    || (f.width == 8 && f.value < WRAP64)
  }

  function ReadField(img: seq<U8>, at: nat, width: nat): U64
    requires at + width <= |img| && (width == 2 || width == 4 || width == 8)
  {
    if width == 2 then Read16(img, at) else if width == 4 then Read32(img, at) else Read64(img, at)
  }

  /** From the k-th field to the next one. */
  lemma NextField(img: seq<U8>, at: nat, fs: seq<Field>, k: nat)
    requires k < |fs| && Proper(fs[k]) && at + fs[k].width <= |img|
    ensures Stands(img, at, Printed(fs[k..])) <==>
            && ReadField(img, at, fs[k].width) == fs[k].value
            && Stands(img, at + fs[k].width, Printed(fs[k + 1..]))
  {
    FirstField(img, at, fs[k..]);
    assert fs[k..][1..] == fs[k + 1..];
    hide Stands, LittleEndian, Read16, Read32, Read64, Printed;
    var f := fs[k];
    if f.width == 2 {
      Reads16(img, at, f.value);
    } else if f.width == 4 {
      Reads32(img, at, f.value);
    } else {
      Reads64(img, at, f.value);
    }
  }

  lemma NoFields(img: seq<U8>, at: nat, fs: seq<Field>)
    requires at <= |img|
    ensures fs[0..] == fs && Stands(img, at, Printed(fs[|fs|..]))
  {
    assert img[at..at] == [];
  }

  /** A program header stands in the image iff it is what is read there. */
  lemma PhdrPrinted(img: seq<U8>, at: nat, ph: Phdr, paddr: U64)
    requires at + 56 <= |img|
    ensures Stands(img, at, PrintPhdr(ph, paddr)) <==> PhdrAt(img, at) == ph && Read64(img, at + 24) == paddr
  {
    hide Stands, Printed, Read32, Read64;
    var fs := [Field(ph.kind, 4), Field(ph.flags, 4), Field(ph.offset, 8), Field(ph.vaddr, 8), Field(paddr, 8),
               Field(ph.filesz, 8), Field(ph.memsz, 8), Field(ph.align, 8)];
    NextField(img, at, fs, 0);
    NextField(img, at + 4, fs, 1);
    NextField(img, at + 8, fs, 2);
    NextField(img, at + 16, fs, 3);
    NextField(img, at + 24, fs, 4);
    NextField(img, at + 32, fs, 5);
    NextField(img, at + 40, fs, 6);
    NextField(img, at + 48, fs, 7);
    NoFields(img, at + 56, fs);
  }

  lemma DynPrinted(img: seq<U8>, at: nat, d: Dyn)
    requires at + 16 <= |img|
    ensures Stands(img, at, PrintDyn(d)) <==> DynAt(img, at) == d
  {
    hide Stands, Printed, Read64;
    var fs := [Field(d.tag, 8), Field(d.value, 8)];
    NextField(img, at, fs, 0);
    NextField(img, at + 8, fs, 1);
    NoFields(img, at + 16, fs);
  }

  lemma EhdrPrinted(img: seq<U8>, h: Ehdr)
    requires |img| >= 64 && |h.ident| == 16
    ensures Stands(img, 0, PrintEhdr(h)) <==>
            && img[..16] == h.ident && Read16(img, 16) == h.kind && Read16(img, 18) == h.machine
            && Read32(img, 20) == h.version && Read64(img, 24) == h.entry && Read64(img, 32) == h.phoff
            && Read64(img, 40) == h.shoff && Read32(img, 48) == h.flags && Read16(img, 52) == h.ehsize
            && Read16(img, 54) == h.phentsize && Read16(img, 56) == h.phnum && Read16(img, 58) == h.shentsize
            && Read16(img, 60) == h.shnum && Read16(img, 62) == h.shstrndx
  {
    var fs := EhdrFields(h);
    StandsParts(img, 0, h.ident, Printed(fs));
    assert Stands(img, 0, h.ident) <==> img[..16] == h.ident;
    hide Stands, Printed, Read16, Read32, Read64, EhdrFields;
    FrontFields(img, h);
    BackFields(img, h);
    assert fs[0..] == fs;
  }

  lemma FrontFields(img: seq<U8>, h: Ehdr)
    requires |img| >= 64
    ensures var fs := EhdrFields(h);
            Stands(img, 16, Printed(fs[0..])) <==>
            && Read16(img, 16) == h.kind && Read16(img, 18) == h.machine && Read32(img, 20) == h.version
            && Read64(img, 24) == h.entry && Read64(img, 32) == h.phoff && Read64(img, 40) == h.shoff
            && Stands(img, 48, Printed(fs[6..]))
  {
    hide Stands, Printed, Read16, Read32, Read64;
    var fs := EhdrFields(h);
    NextField(img, 16, fs, 0);
    NextField(img, 18, fs, 1);
    NextField(img, 20, fs, 2);
    NextField(img, 24, fs, 3);
    NextField(img, 32, fs, 4);
    NextField(img, 40, fs, 5);
  }

  lemma BackFields(img: seq<U8>, h: Ehdr)
    requires |img| >= 64
    ensures var fs := EhdrFields(h);
            Stands(img, 48, Printed(fs[6..])) <==>
            && Read32(img, 48) == h.flags && Read16(img, 52) == h.ehsize && Read16(img, 54) == h.phentsize
            && Read16(img, 56) == h.phnum && Read16(img, 58) == h.shentsize && Read16(img, 60) == h.shnum
            && Read16(img, 62) == h.shstrndx
  {
    hide Stands, Printed, Read16, Read32, Read64;
    var fs := EhdrFields(h);
    NextField(img, 48, fs, 6);
    NextField(img, 52, fs, 7);
    NextField(img, 54, fs, 8);
    NextField(img, 56, fs, 9);
    NextField(img, 58, fs, 10);
    NextField(img, 60, fs, 11);
    NextField(img, 62, fs, 12);
    NoFields(img, 64, fs);
  }

  // ---------------------------------------------------------------- the file header

  /** Every image of at least 64 bytes starts with some file header. */
  lemma SomeHeader(img: seq<U8>) returns (h: Ehdr)
    requires |img| >= 64
    ensures |h.ident| == 16 && Stands(img, 0, PrintEhdr(h))
  {
    hide Stands, Read16, Read32, Read64;
    h := Ehdr(img[..16], Read16(img, 16), Read16(img, 18), Read32(img, 20), Read64(img, 24), Read64(img, 32),
              Read64(img, 40), Read32(img, 48), Read16(img, 52), Read16(img, 54), Read16(img, 56), Read16(img, 58),
              Read16(img, 60), Read16(img, 62));
    EhdrPrinted(img, h);
  }

  /** And the fields of that header alone decide its verdict, in this order. */
  lemma HeaderDecides(img: seq<U8>, h: Ehdr)
    requires |h.ident| == 16 && Stands(img, 0, PrintEhdr(h)) && |img| >= 64
    ensures HeaderStatus(img) ==
            if h.ident[..7] != [0x7f, 0x45, 0x4c, 0x46, 2, 1, 1] || h.version != 1 || h.ehsize != 64 then NotElf
            else if h.machine != 62 then Arch
            else if h.kind != 2 && h.kind != 3 then Type
            else if !(1 <= h.phnum <= 64) || h.phentsize != 56 || h.phoff + 56 * h.phnum > |img| then ProgramHeaders
            else Ok
  {
    hide Stands, PrintEhdr, Read16, Read32, Read64;
    EhdrPrinted(img, h);
    assert h.ident[..7] == img[..7] == img[..4] + [img[4], img[5], img[6]];
    if img[..7] == [0x7f, 0x45, 0x4c, 0x46, 2, 1, 1] {
      assert img[..4] == img[..7][..4];
      assert img[4] == img[..7][4] && img[5] == img[..7][5] && img[6] == img[..7][6];
    }
  }

  lemma ShortImage(img: seq<U8>)
    ensures HeaderStatus(img) == Truncated <==> |img| < 64
  {
    hide Read16, Read32, Read64;
  }

  // ---------------------------------------------------------------- the tables

  /** The header is printed there, with some physical address. */
  ghost predicate PhdrStands(img: seq<U8>, at: nat, ph: Phdr) {
    exists paddr: U64 :: Stands(img, at, PrintPhdr(ph, paddr))
  }

  lemma HeaderRead(img: seq<U8>, at: nat, ph: Phdr)
    requires at + 56 <= |img|
    ensures PhdrAt(img, at) == ph <==> PhdrStands(img, at, ph)
  {
    hide Stands, PrintPhdr, Read64, PhdrAt;
    PhdrPrinted(img, at, ph, Read64(img, at + 24));
    if paddr: U64 :| Stands(img, at, PrintPhdr(ph, paddr)) {
      PhdrPrinted(img, at, ph, paddr);
    }
  }

  lemma TableEntry(img: seq<U8>, i: nat)
    requires HeaderStatus(img) == Ok && i < Phnum(img)
    ensures Phoff(img) + 56 * i + 56 <= |img| && Phdrs(img)[i] == PhdrAt(img, Phoff(img) + 56 * i)
  {
    PhdrEnd(img, i);
    hide HeaderStatus, Phoff, Phnum, PhdrAt;
  }

  /** The program headers of an accepted file header are the list printed, one
      every 56 bytes, where it says. */
  lemma TableRead(img: seq<U8>, h: Ehdr, phs: seq<Phdr>)
    requires |h.ident| == 16 && Stands(img, 0, PrintEhdr(h)) && HeaderStatus(img) == Ok
    ensures Phdrs(img) == phs <==>
            |phs| == h.phnum && forall i :: 0 <= i < |phs| ==> PhdrStands(img, h.phoff + 56 * i, phs[i])
  {
    hide HeaderStatus, Stands, PrintEhdr, PhdrStands, Read16, Read32, Read64, PhdrAt, Phdrs;
    EhdrPrinted(img, h);
    if |phs| == h.phnum {
      forall i | 0 <= i < |phs|
        ensures Phdrs(img)[i] == phs[i] <==> PhdrStands(img, h.phoff + 56 * i, phs[i])
      {
        TableEntry(img, i);
        HeaderRead(img, h.phoff + 56 * i, phs[i]);
      }
    }
  }

  /** The dynamic entries of a segment are the list printed in it. */
  lemma EntriesRead(img: seq<U8>, ph: Phdr, ds: seq<Dyn>)
    requires |img| <= MAX64 && DynamicOk(|img|, ph)
    ensures Dyns(img, ph) == ds <==>
            && 16 * |ds| == ph.filesz
            && forall i :: 0 <= i < |ds| ==> Stands(img, ph.offset + 16 * i, PrintDyn(ds[i]))
  {
    hide Stands, PrintDyn, DynAt;
    if 16 * |ds| == ph.filesz {
      forall i | 0 <= i < |ds|
        ensures Dyns(img, ph)[i] == ds[i] <==> Stands(img, ph.offset + 16 * i, PrintDyn(ds[i]))
      {
        DynPrinted(img, ph.offset + 16 * i, ds[i]);
      }
    }
  }

  // ---------------------------------------------------------------- the verdict on printed tables

  /** One header in numbers: a segment to load, a dynamic table or an interpreter. */
  ghost predicate HeaderNumbers(img: seq<U8>, allowInterp: bool, ph: Phdr) {
    && (ph.kind in {1, 2, 3} ==> (ph.kind == 1 || ph.kind == 2 || allowInterp) && ph.offset + ph.filesz <= |img|)
    && (ph.kind == 1 ==>
          && ph.filesz <= ph.memsz
          && (ph.align > 1 ==> SomePower(ph.align) && ph.vaddr % ph.align == ph.offset % ph.align))
    && (ph.kind == 2 ==> ph.filesz % 16 == 0)
    && (ph.kind == 3 && ph.offset + ph.filesz <= |img| ==> NulWithin(img, ph.offset, ph.filesz))
  }

  ghost function Kinds(phs: seq<Phdr>, kind: nat): set<nat> {
    set i | 0 <= i < |phs| && phs[i].kind == kind
  }

  lemma OneHeader(img: seq<U8>, allowInterp: bool, ph: Phdr)
    requires |img| <= MAX64
    ensures EachHeaderOk(img, allowInterp, [ph]) <==> HeaderNumbers(img, allowInterp, ph)
  {
    hide LoadOk, InterpOk, DynamicOk, NulWithin, SomePower;
    LoadMeans(|img|, ph);
    InterpMeans(img, ph);
    DynamicMeans(|img|, ph);
    assert InterpOk(img, ph) ==> ph.offset + ph.filesz <= |img|;
    assert [ph][0] == ph;
    assert EachHeaderOk(img, allowInterp, [ph]) <==>
           && (ph.kind == 1 ==> LoadOk(|img|, ph))
           && (ph.kind == 3 ==> allowInterp && InterpOk(img, ph))
           && (ph.kind == 2 ==> DynamicOk(|img|, ph));
    hide EachHeaderOk;
  }

  lemma EachHeader(img: seq<U8>, allowInterp: bool, phs: seq<Phdr>)
    requires |img| <= MAX64
    ensures EachHeaderOk(img, allowInterp, phs) <==>
            forall i :: 0 <= i < |phs| ==> HeaderNumbers(img, allowInterp, phs[i])
  {
    hide HeaderNumbers;
    forall i | 0 <= i < |phs|
      ensures HeaderNumbers(img, allowInterp, phs[i]) <==> EachHeaderOk(img, allowInterp, [phs[i]])
    {
      OneHeader(img, allowInterp, phs[i]);
    }
    hide LoadOk, InterpOk, DynamicOk;
    assert forall i :: 0 <= i < |phs| ==> [phs[i]][0] == phs[i];
  }

  lemma KindsCounted(phs: seq<Phdr>)
    ensures Count(phs, IS_LOAD) == |Kinds(phs, 1)|
    ensures Count(phs, IS_DYNAMIC) == |Kinds(phs, 2)|
    ensures Count(phs, IS_INTERP) == |Kinds(phs, 3)|
  {
    hide Count;
    CountMeans(phs, IS_LOAD);
    CountMeans(phs, IS_DYNAMIC);
    CountMeans(phs, IS_INTERP);
    assert Kinds(phs, 1) == (set i | 0 <= i < |phs| && IS_LOAD(phs[i]));
    assert Kinds(phs, 2) == (set i | 0 <= i < |phs| && IS_DYNAMIC(phs[i]));
    assert Kinds(phs, 3) == (set i | 0 <= i < |phs| && IS_INTERP(phs[i]));
  }

  /** The verdict on an image that carries a proper file header and a printed table:
      it is accepted iff every header is sound by itself, there are one to eight
      segments to load, at most one table and one interpreter, and the entries
      are sound. */
  lemma PrintedVerdict(img: seq<U8>, allowInterp: bool, h: Ehdr, phs: seq<Phdr>)
    requires |img| <= MAX64 && |h.ident| == 16 && Stands(img, 0, PrintEhdr(h)) && HeaderStatus(img) == Ok
    requires |phs| == h.phnum && forall i :: 0 <= i < |phs| ==> PhdrStands(img, h.phoff + 56 * i, phs[i])
    ensures Phdrs(img) == phs
    ensures ParseStatus(img, allowInterp) == Ok <==>
            && (forall i :: 0 <= i < |phs| ==> HeaderNumbers(img, allowInterp, phs[i]))
            && 1 <= |Kinds(phs, 1)| <= 8 && |Kinds(phs, 2)| <= 1 && |Kinds(phs, 3)| <= 1
            && (forall i :: 0 <= i < |phs| && phs[i].kind == 2 && DynamicOk(|img|, phs[i]) ==>
                  DynamicStatus(img, phs, Dyns(img, phs[i])) == Ok)
  {
    hide HeaderStatus, Stands, PrintEhdr, PhdrStands, HeaderNumbers, Phdrs, ParseStatus, EachHeaderOk, Kinds, Count;
    hide DynamicOk, DynamicTableOk, DynamicStatus, Dyns;
    TableRead(img, h, phs);
    AcceptedIffWellFormed(img, allowInterp);
    EachHeader(img, allowInterp, phs);
    KindsCounted(phs);
    forall i | 0 <= i < |phs| && phs[i].kind == 2 && DynamicOk(|img|, phs[i])
      ensures DynamicTableOk(img, phs, Dyns(img, phs[i])) <==> DynamicStatus(img, phs, Dyns(img, phs[i])) == Ok
    {
      DynamicStatusOk(img, phs, Dyns(img, phs[i]));
    }
  }
}
