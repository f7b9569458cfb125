/** What an ELF64 image means to the metadata parser of elfrt: the fields of its
    tables, and when the parser must accept or refuse it (System V gABI,
    chapter 5, "Program Header" and "Dynamic Section"). */
module Elf {
  import opened Bits

  const EHDR_SIZE: nat := 64
  const PHDR_SIZE: nat := 56
  const DYN_SIZE: nat := 16
  const MAX_PHNUM: nat := 64
  const MAX_LOAD_SEGMENTS: nat := 8
  const MAX_NEEDED: nat := 8
  const NAME_MAX: nat := 96

  const ET_EXEC: nat := 2
  const ET_DYN: nat := 3
  const EM_X86_64: nat := 62
  const PT_LOAD: nat := 1
  const PT_DYNAMIC: nat := 2
  const PT_INTERP: nat := 3
  const PF_X: nat := 1
  const PF_W: nat := 2
  const DT_NULL: nat := 0
  const DT_NEEDED: nat := 1
  const DT_STRTAB: nat := 5
  const DT_RELA: nat := 7
  const DT_STRSZ: nat := 10
  const DT_TEXTREL: nat := 22
  const DT_FLAGS: nat := 30
  const DF_TEXTREL: nat := 4

  datatype Status = Ok | Argument | Truncated | NotElf | Arch | Type | ProgramHeaders | Segment | Dynamic | Policy

  // ---------------------------------------------------------------- fields

  function Read16(img: seq<U8>, at: nat): U16
    requires at + 2 <= |img|
  {
    img[at] + 0x100 * img[at + 1] as int
  }

  function Read32(img: seq<U8>, at: nat): U32
    requires at + 4 <= |img|
  {
    Read16(img, at) as int + 0x1_0000 * Read16(img, at + 2) as int
  }

  function Read64(img: seq<U8>, at: nat): U64
    requires at + 8 <= |img|
  {
    Read32(img, at) as int + 0x1_0000_0000 * Read32(img, at + 4) as int
  }

  /** A program header; the physical address is never looked at. */
  datatype Phdr = Phdr(kind: U32, flags: U32, offset: U64, vaddr: U64, filesz: U64, memsz: U64, align: U64) {
    predicate Has(flag: nat) {
      And(flags, flag) != 0
    }
  }

  datatype Dyn = Dyn(tag: U64, value: U64)

  function PhdrAt(img: seq<U8>, at: nat): Phdr
    requires at + PHDR_SIZE <= |img|
  {
    Phdr(Read32(img, at), Read32(img, at + 4), Read64(img, at + 8), Read64(img, at + 16),
         Read64(img, at + 32), Read64(img, at + 40), Read64(img, at + 48))
  }

  function DynAt(img: seq<U8>, at: nat): Dyn
    requires at + DYN_SIZE <= |img|
  {
    Dyn(Read64(img, at), Read64(img, at + 8))
  }

  predicate RangeValid(total: U64, offset: U64, length: U64) {
    offset <= total && length <= total - offset
  }

  // ---------------------------------------------------------------- strings

  /** Distance to the first NUL, or `limit` when there is none before it. */
  function StrLen(img: seq<U8>, start: nat, limit: nat): (n: nat)
    requires start + limit <= |img|
    ensures n <= limit
    ensures forall i :: start <= i < start + n ==> img[i] != 0
    ensures n < limit ==> img[start + n] == 0
    decreases limit
  {
    if limit == 0 || img[start] == 0 then 0 else 1 + StrLen(img, start + 1, limit - 1)
  }

  /** A string of at most 95 characters ends inside the `available` bytes. */
  predicate Terminated(img: seq<U8>, start: nat, available: nat)
    requires start + available <= |img|
  {
    StrLen(img, start, available) < available && StrLen(img, start, available) < NAME_MAX
  }

  function CString(img: seq<U8>, start: nat, available: nat): seq<U8>
    requires start + available <= |img|
  {
    img[start..start + StrLen(img, start, available)]
  }

  /** A cleared name buffer into which `s` was copied. */
  predicate BufferHolds(buffer: seq<U8>, s: seq<U8>) {
    && |s| < |buffer|
    && s <= buffer
    && forall i :: |s| <= i < |buffer| ==> buffer[i] == 0
  }

  // ---------------------------------------------------------------- file header

  function HeaderStatus(img: seq<U8>): (s: Status)
    ensures s == Ok ==> |img| >= EHDR_SIZE
  {
    if |img| < EHDR_SIZE then Truncated
    else if img[..4] != [0x7f, 0x45, 0x4c, 0x46] || img[4] != 2 || img[5] != 1 || img[6] != 1
            || Read32(img, 20) != 1 || Read16(img, 52) != EHDR_SIZE then NotElf
    else if Read16(img, 18) != EM_X86_64 then Arch
    else if Read16(img, 16) != ET_EXEC && Read16(img, 16) != ET_DYN then Type
    else if Phnum(img) == 0 || Phnum(img) > MAX_PHNUM || Read16(img, 54) != PHDR_SIZE
            || Phoff(img) + PHDR_SIZE * Phnum(img) > |img| then ProgramHeaders
    else Ok
  }

  function Phoff(img: seq<U8>): nat
    requires |img| >= EHDR_SIZE
  {
    Read64(img, 32)
  }

  function Phnum(img: seq<U8>): nat
    requires |img| >= EHDR_SIZE
  {
    Read16(img, 56)
  }

  function Phdrs(img: seq<U8>): (phs: seq<Phdr>)
    requires HeaderStatus(img) == Ok
    ensures |phs| == Phnum(img)
  {
    seq(Phnum(img), i requires 0 <= i < Phnum(img) =>
      PhdrEnd(img, i); PhdrAt(img, Phoff(img) + PHDR_SIZE * i))
  }

  lemma PhdrEnd(img: seq<U8>, i: nat)
    requires HeaderStatus(img) == Ok && i < Phnum(img)
    ensures Phoff(img) + PHDR_SIZE * i + PHDR_SIZE <= |img|
  {
  }

  // ---------------------------------------------------------------- program headers

  function Count(phs: seq<Phdr>, p: Phdr -> bool): (n: nat)
    ensures n <= |phs|
  {
    if phs == [] then 0 else Count(phs[..|phs| - 1], p) + (if p(phs[|phs| - 1]) then 1 else 0)
  }

  const IS_LOAD: Phdr -> bool := (ph: Phdr) => ph.kind == PT_LOAD
  const IS_INTERP: Phdr -> bool := (ph: Phdr) => ph.kind == PT_INTERP
  const IS_DYNAMIC: Phdr -> bool := (ph: Phdr) => ph.kind == PT_DYNAMIC
  const IS_WRITABLE: Phdr -> bool := (ph: Phdr) => ph.kind == PT_LOAD && ph.Has(PF_W)
  const IS_EXECUTABLE: Phdr -> bool := (ph: Phdr) => ph.kind == PT_LOAD && ph.Has(PF_X)
  const IS_WRITABLE_EXECUTABLE: Phdr -> bool := (ph: Phdr) => ph.kind == PT_LOAD && ph.Has(PF_W) && ph.Has(PF_X)

  /** A loadable segment lies in the file, does not shrink in memory, and is
      congruent to its address modulo its alignment. */
  predicate LoadOk(size: U64, ph: Phdr) {
    && ph.filesz <= ph.memsz
    && RangeValid(size, ph.offset, ph.filesz)
    && (ph.align > 1 ==> PowerOfTwo(ph.align) && ph.vaddr % ph.align == ph.offset % ph.align)
  }

  predicate InterpOk(img: seq<U8>, ph: Phdr)
    requires |img| <= MAX64
  {
    RangeValid(|img|, ph.offset, ph.filesz) && Terminated(img, ph.offset, ph.filesz)
  }

  predicate DynamicOk(size: U64, ph: Phdr) {
    RangeValid(size, ph.offset, ph.filesz) && ph.filesz % DYN_SIZE == 0
  }

  /** What header i adds to the outcome, given that those before it were fine. */
  function HeaderVerdict(img: seq<U8>, allowInterp: bool, phs: seq<Phdr>, i: nat): Status
    requires |img| <= MAX64 && i < |phs|
  {
    var ph, before := phs[i], phs[..i];
    if ph.kind == PT_LOAD then
      if !LoadOk(|img|, ph) then Segment
      else if Count(before, IS_LOAD) == MAX_LOAD_SEGMENTS then Policy
      else Ok
    else if ph.kind == PT_INTERP then
      if !allowInterp || Count(before, IS_INTERP) > 0 || !InterpOk(img, ph) then Policy else Ok
    else if ph.kind == PT_DYNAMIC then
      if Count(before, IS_DYNAMIC) > 0 || !DynamicOk(|img|, ph) then Dynamic else Ok
    else Ok
  }

  /** The verdict of the first of n headers that has one. */
  function SegmentsStatus(img: seq<U8>, allowInterp: bool, phs: seq<Phdr>, n: nat): Status
    requires |img| <= MAX64 && n <= |phs|
  {
    if n == 0 then Ok
    else
      var s := SegmentsStatus(img, allowInterp, phs, n - 1);
      if s != Ok then s else HeaderVerdict(img, allowInterp, phs, n - 1)
  }

  // ---------------------------------------------------------------- dynamic table

  function FirstOf(phs: seq<Phdr>, kind: nat): (i: nat)
    ensures i <= |phs|
    ensures forall k :: 0 <= k < i ==> phs[k].kind != kind
    ensures i < |phs| ==> phs[i].kind == kind
  {
    if phs == [] || phs[0].kind == kind then 0 else 1 + FirstOf(phs[1..], kind)
  }

  function Dyns(img: seq<U8>, ph: Phdr): (ds: seq<Dyn>)
    requires |img| <= MAX64 && DynamicOk(|img|, ph)
    ensures |ds| == ph.filesz / DYN_SIZE
  {
    seq(ph.filesz / DYN_SIZE, i requires 0 <= i < ph.filesz / DYN_SIZE => DynAt(img, ph.offset + DYN_SIZE * i))
  }

  function FirstNull(ds: seq<Dyn>): (i: nat)
    ensures i <= |ds|
    ensures forall k :: 0 <= k < i ==> ds[k].tag != DT_NULL
    ensures i < |ds| ==> ds[i].tag == DT_NULL
  {
    if ds == [] || ds[0].tag == DT_NULL then 0 else 1 + FirstNull(ds[1..])
  }

  /** The entries that count: those before the first null. */
  function Live(ds: seq<Dyn>): seq<Dyn> {
    ds[..FirstNull(ds)]
  }

  /** The value of the last entry with this tag, zero when there is none. */
  function LastValue(ds: seq<Dyn>, tag: nat): U64 {
    if ds == [] then 0
    else if ds[|ds| - 1].tag == tag then ds[|ds| - 1].value
    else LastValue(ds[..|ds| - 1], tag)
  }

  function NeededOffsets(ds: seq<Dyn>): (os: seq<U64>)
    ensures |os| <= |ds|
  {
    if ds == [] then []
    else NeededOffsets(ds[..|ds| - 1]) + (if ds[|ds| - 1].tag == DT_NEEDED then [ds[|ds| - 1].value] else [])
  }

  predicate HasRela(ds: seq<Dyn>) {
    exists i :: 0 <= i < |ds| && ds[i].tag == DT_RELA
  }

  predicate TextrelEntry(d: Dyn) {
    d.tag == DT_TEXTREL || (d.tag == DT_FLAGS && And(d.value, DF_TEXTREL) != 0)
  }

  predicate HasTextrel(ds: seq<Dyn>) {
    exists i :: 0 <= i < |ds| && TextrelEntry(ds[i])
  }

  /** A file position, and how much of its segment follows it. */
  datatype Place = Place(offset: U64, available: U64)

  predicate Covers(ph: Phdr, va: U64) {
    ph.kind == PT_LOAD && ph.vaddr <= va && va - ph.vaddr < ph.filesz
  }

  /** The file position of an address: through the first segment covering it. */
  function Translate(phs: seq<Phdr>, va: U64): Option<Place> {
    if phs == [] then None
    else if Covers(phs[0], va) then
      Some(Place(Add64(phs[0].offset, va - phs[0].vaddr), phs[0].filesz - (va - phs[0].vaddr)))
    else Translate(phs[1..], va)
  }

  /** The string table: where it is and how long it is. */
  function StringTable(phs: seq<Phdr>, live: seq<Dyn>): Option<Place> {
    var va, size := LastValue(live, DT_STRTAB), LastValue(live, DT_STRSZ);
    if va == 0 || size == 0 || Translate(phs, va).None? then None
    else
      var p := Translate(phs, va).value;
      if size > p.available then None else Some(Place(p.offset, size))
  }

  predicate NameOk(img: seq<U8>, table: Place, offset: U64)
    requires table.offset + table.available <= |img|
  {
    offset < table.available && Terminated(img, table.offset + offset, table.available - offset)
  }

  /** The outcome of the dynamic pass. */
  function DynamicStatus(img: seq<U8>, phs: seq<Phdr>, ds: seq<Dyn>): Status {
    var live := Live(ds);
    var needed := NeededOffsets(live);
    if |needed| > MAX_NEEDED then Policy
    else if FirstNull(ds) == |ds| then Dynamic
    else if needed == [] then Ok
    else
      var table := StringTable(phs, live);
      if table.None? || table.value.offset + table.value.available > |img| then Dynamic
      else if exists i :: 0 <= i < |needed| && !NameOk(img, table.value, needed[i]) then Dynamic
      else Ok
  }

  /** The dynamic segment among the headers: the first one. */
  function DynamicOf(phs: seq<Phdr>): Option<Phdr> {
    var d := FirstOf(phs, PT_DYNAMIC);
    if d < |phs| then Some(phs[d]) else None
  }

  /** The outcome once every header has been accepted. */
  function AcceptedStatus(img: seq<U8>, phs: seq<Phdr>, d: Option<Phdr>): Status
    requires |img| <= MAX64 && (d.Some? ==> DynamicOk(|img|, d.value))
  {
    if Count(phs, IS_LOAD) == 0 then Segment
    else if d.None? then Ok
    else DynamicStatus(img, phs, Dyns(img, d.value))
  }

  /** The outcome for a whole image. */
  function ParseStatus(img: seq<U8>, allowInterp: bool): Status
    requires |img| <= MAX64
  {
    if HeaderStatus(img) != Ok then HeaderStatus(img)
    else
      var phs := Phdrs(img);
      var s := SegmentsStatus(img, allowInterp, phs, |phs|);
      if s != Ok then s
      else
        DynamicAccepted(img, allowInterp, phs);
        AcceptedStatus(img, phs, DynamicOf(phs))
  }

  lemma {:induction false} CountFrom(phs: seq<Phdr>, kind: nat, p: Phdr -> bool)
    requires forall ph :: p(ph) <==> ph.kind == kind
    ensures Count(phs, p) > 0 <==> FirstOf(phs, kind) < |phs|
  {
    if phs != [] {
      CountFrom(phs[..|phs| - 1], kind, p);
    }
  }

  /** An accepting header pass found nothing wrong with any header. */
  lemma {:induction false} HeadersAccepted(img: seq<U8>, allowInterp: bool, phs: seq<Phdr>, n: nat)
    requires |img| <= MAX64 && n <= |phs|
    ensures SegmentsStatus(img, allowInterp, phs, n) == Ok <==>
            forall i :: 0 <= i < n ==> HeaderVerdict(img, allowInterp, phs, i) == Ok
  {
    hide HeaderVerdict;
    if n > 0 {
      HeadersAccepted(img, allowInterp, phs, n - 1);
    }
  }

  /** In particular the dynamic segment, if there is one, is well formed. */
  lemma DynamicAccepted(img: seq<U8>, allowInterp: bool, phs: seq<Phdr>)
    requires |img| <= MAX64
    requires SegmentsStatus(img, allowInterp, phs, |phs|) == Ok
    ensures DynamicOf(phs).Some? ==> DynamicOk(|img|, DynamicOf(phs).value)
  {
    HeadersAccepted(img, allowInterp, phs, |phs|);
    if FirstOf(phs, PT_DYNAMIC) < |phs| {
      assert HeaderVerdict(img, allowInterp, phs, FirstOf(phs, PT_DYNAMIC)) == Ok;
    }
  }
}
