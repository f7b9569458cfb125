/** The metadata parser of elfrt/src/selinos_elfrt.c, proved against `Elf`. */
module ElfParser {
  import opened Bits
  import opened Elf

  method ClearBuffer(buffer: array<U8>)
    modifies buffer
    ensures forall i :: 0 <= i < buffer.Length ==> buffer[i] == 0
  {
    for i := 0 to buffer.Length
      invariant forall k :: 0 <= k < i ==> buffer[k] == 0
    {
      buffer[i] := 0;
    }
  }

  /** Copies a NUL-terminated string of fewer than `capacity` characters. */
  method CopyBoundedString(destination: array<U8>, at: nat, capacity: nat, img: seq<U8>, source: nat, available: nat)
    returns (ok: bool)
    requires at + capacity <= destination.Length && source + available <= |img|
    modifies destination
    ensures ok <==> StrLen(img, source, available) < available && StrLen(img, source, available) < capacity
    ensures ok ==> var n := StrLen(img, source, available);
                   && destination[at..at + n] == img[source..source + n]
                   && destination[at + n] == 0
                   && forall k :: at + n < k < at + capacity ==> destination[k] == old(destination[k])
    ensures forall k :: 0 <= k < destination.Length && !(at <= k < at + capacity) ==>
              destination[k] == old(destination[k])
  {
    if capacity == 0 || available == 0 {
      return false;
    }
    ghost var n := StrLen(img, source, available);
    var i := 0;
    while i + 1 < capacity && i < available && img[source + i] != 0
      invariant 0 <= i <= n && i < capacity
      invariant destination[at..at + i] == img[source..source + i]
      invariant forall k :: 0 <= k < destination.Length && !(at <= k < at + i) ==>
                  destination[k] == old(destination[k])
    {
      destination[at + i] := img[source + i];
      assert destination[at..at + i + 1] == destination[at..at + i] + [img[source + i]];
      i := i + 1;
    }
    if i == available || img[source + i] != 0 {
      return false;
    }
    destination[at + i] := 0;
    assert i == n;
    return true;
  }

  /** The alignment test of the source: on 64-bit words with wrap-around, masking
      the difference says that the two numbers agree modulo the alignment. */
  lemma AlignmentTest(vaddr: U64, offset: U64, align: U64)
    requires PowerOfTwo(align)
    ensures And(Sub64(vaddr, offset), align - 1) == 0 <==> vaddr % align == offset % align
  {
    hide And, Pow2, PowerOfTwo;
    var k := PowerOfTwoExponent(align);
    AndLowMask(Sub64(vaddr, offset), k);
    ExponentBelow64(align, k);
    Pow2Divides(k, 64);
    Pow2Values();
    ModOfWrap(vaddr - offset, align, Pow2(64 - k));
    ModDifference(vaddr, offset, align);
  }

  lemma ExponentBelow64(align: U64, k: nat)
    requires align == Pow2(k)
    ensures k < 64
  {
    Pow2Values();
    if k >= 64 {
      Pow2Monotone(64, k);
    }
  }

  lemma ModOfWrap(x: int, d: nat, m: nat)
    requires d > 0 && m > 0
    ensures (x % (m * d)) % d == x % d
  {
    var w := m * d;
    var q, r := x / w, x % w;
    assert x == q * w + r;
    var q', r' := r / d, r % d;
    assert r == q' * d + r';
    assert x == (q * m + q') * d + r' by {
      assert q * w == (q * m) * d;
    }
    DivModUnique(x, d, q * m + q', r');
  }

  lemma ModDifference(a: nat, b: nat, d: nat)
    requires d > 0
    ensures (a - b) % d == 0 <==> a % d == b % d
  {
    var qa, ra, qb, rb := a / d, a % d, b / d, b % d;
    assert a == qa * d + ra && b == qb * d + rb;
    assert a - b == (qa - qb) * d + (ra - rb);
    if ra >= rb {
      DivModUnique(a - b, d, qa - qb, ra - rb);
    } else {
      assert a - b == (qa - qb - 1) * d + (ra - rb + d);
      DivModUnique(a - b, d, qa - qb - 1, ra - rb + d);
    }
  }

  // ---------------------------------------------------------------- the summary

  /** `struct selinos_elfrt_summary`; the names are rows of one flat buffer, as a
      two-dimensional array is laid out in C. */
  class Summary {
    var elfType: U16
    var elfMachine: U16
    var entry: U64
    var loadSegments: U32
    var writableLoadSegments: U32
    var executableLoadSegments: U32
    var writableExecutableLoadSegments: U32
    var neededCount: U32
    var hasDynamic: U32
    var hasInterp: U32
    var hasRela: U32
    var hasTextrel: U32
    const interpreter: array<U8>
    const needed: array<U8>

    predicate Valid() {
      && interpreter.Length == NAME_MAX
      && needed.Length == MAX_NEEDED * NAME_MAX
      && interpreter != needed
    }

    constructor ()
      ensures Valid() && fresh(interpreter) && fresh(needed)
    {
      elfType, elfMachine, entry := 0, 0, 0;
      loadSegments, writableLoadSegments, executableLoadSegments := 0, 0, 0;
      writableExecutableLoadSegments, neededCount := 0, 0;
      hasDynamic, hasInterp, hasRela, hasTextrel := 0, 0, 0, 0;
      interpreter := new U8[NAME_MAX](_ => 0);
      needed := new U8[MAX_NEEDED * NAME_MAX](_ => 0);
    }

    /** What the header pass has recorded after the headers `phs`. */
    ghost predicate DescribesHeaders(img: seq<U8>, phs: seq<Phdr>)
      requires |img| <= MAX64
      reads `loadSegments, `writableLoadSegments, `executableLoadSegments, `writableExecutableLoadSegments
      reads `hasDynamic, `hasInterp, interpreter
    {
      && loadSegments == Count(phs, IS_LOAD)
      && writableLoadSegments == Count(phs, IS_WRITABLE)
      && executableLoadSegments == Count(phs, IS_EXECUTABLE)
      && writableExecutableLoadSegments == Count(phs, IS_WRITABLE_EXECUTABLE)
      && hasDynamic == (if Count(phs, IS_DYNAMIC) > 0 then 1 else 0)
      && hasInterp == (if Count(phs, IS_INTERP) > 0 then 1 else 0)
      && BufferHolds(interpreter[..], InterpName(img, phs))
    }

    ghost predicate DescribesFile(img: seq<U8>)
      requires |img| >= EHDR_SIZE
      reads `elfType, `elfMachine, `entry
    {
      elfType == Read16(img, 16) && elfMachine == Read16(img, 18) && entry == Read64(img, 24)
    }

    /** What the dynamic pass has recorded after the entries `ds`. */
    ghost predicate DescribesEntries(ds: seq<Dyn>)
      reads `hasRela, `hasTextrel
    {
      && hasRela == (if HasRela(ds) then 1 else 0)
      && hasTextrel == (if HasTextrel(ds) then 1 else 0)
    }

    ghost predicate Cleared()
      requires Valid()
      reads this, interpreter, needed
    {
      && elfType == elfMachine == entry == 0 && loadSegments == 0 && writableLoadSegments == 0
      && executableLoadSegments == 0 && writableExecutableLoadSegments == 0 && neededCount == 0
      && hasDynamic == hasInterp == hasRela == hasTextrel == 0
      && (forall i :: 0 <= i < interpreter.Length ==> interpreter[i] == 0)
      && (forall i :: 0 <= i < needed.Length ==> needed[i] == 0)
    }

    method Clear()
      requires Valid()
      modifies this, interpreter, needed
      ensures Cleared()
    {
      elfType, elfMachine, entry := 0, 0, 0;
      loadSegments, writableLoadSegments, executableLoadSegments := 0, 0, 0;
      writableExecutableLoadSegments, neededCount := 0, 0;
      hasDynamic, hasInterp, hasRela, hasTextrel := 0, 0, 0, 0;
      ClearBuffer(interpreter);
      ClearBuffer(needed);
    }

    /** Counts one accepted loadable segment. */
    method CountLoad(ph: Phdr)
      requires ph.kind == PT_LOAD && loadSegments < MAX_LOAD_SEGMENTS
      requires writableLoadSegments <= loadSegments && executableLoadSegments <= loadSegments
      requires writableExecutableLoadSegments <= loadSegments
      modifies this`loadSegments, this`writableLoadSegments, this`executableLoadSegments,
        this`writableExecutableLoadSegments
      ensures loadSegments == old(loadSegments) + 1
      ensures writableLoadSegments == old(writableLoadSegments) + (if IS_WRITABLE(ph) then 1 else 0)
      ensures executableLoadSegments == old(executableLoadSegments) + (if IS_EXECUTABLE(ph) then 1 else 0)
      ensures writableExecutableLoadSegments ==
              old(writableExecutableLoadSegments) + (if IS_WRITABLE_EXECUTABLE(ph) then 1 else 0)
    {
      loadSegments := loadSegments + 1;
      if And(ph.flags, PF_W) != 0 {
        writableLoadSegments := writableLoadSegments + 1;
      }
      if And(ph.flags, PF_X) != 0 {
        executableLoadSegments := executableLoadSegments + 1;
      }
      WriteExecuteMask(ph.flags);
      if And(ph.flags, Or(PF_W, PF_X)) == Or(PF_W, PF_X) {
        writableExecutableLoadSegments := writableExecutableLoadSegments + 1;
      }
    }
  }

  /** Testing two flags through their union is testing each. */
  lemma WriteExecuteMask(flags: nat)
    ensures And(flags, Or(PF_W, PF_X)) == Or(PF_W, PF_X) <==> And(flags, PF_W) != 0 && And(flags, PF_X) != 0
  {
    assert Or(PF_W, PF_X) == 3;
    AndUnfold(flags, 1);
    AndUnfold(flags, 2);
    AndUnfold(flags, 3);
    AndUnfold(flags / 2, 1);
    AndUnfold(flags / 2, 0);
  }

  /** Row i of a flat name buffer. */
  function Row(buffer: seq<U8>, i: nat): seq<U8>
    requires |buffer| == MAX_NEEDED * NAME_MAX && i < MAX_NEEDED
  {
    buffer[i * NAME_MAX..i * NAME_MAX + NAME_MAX]
  }

  /** The first k rows hold the named strings, the others are empty. */
  ghost predicate RowsHold(buffer: seq<U8>, img: seq<U8>, table: Place, offsets: seq<U64>, k: nat)
    requires |buffer| == MAX_NEEDED * NAME_MAX
    requires table.offset + table.available <= |img| && k <= |offsets|
  {
    forall i :: 0 <= i < MAX_NEEDED ==>
      BufferHolds(Row(buffer, i), if i < k then NameAt(img, table, offsets[i]) else [])
  }

  /** Copying one name fills its row and leaves the others alone. */
  lemma RowFilled(before: seq<U8>, after: seq<U8>, img: seq<U8>, table: Place, offsets: seq<U64>, k: nat)
    requires |before| == |after| == MAX_NEEDED * NAME_MAX
    requires table.offset + table.available <= |img| && k < |offsets| && k < MAX_NEEDED
    requires RowsHold(before, img, table, offsets, k)
    requires forall j :: 0 <= j < |after| && !(k * NAME_MAX <= j < k * NAME_MAX + NAME_MAX) ==> after[j] == before[j]
    requires BufferHolds(Row(after, k), NameAt(img, table, offsets[k]))
    ensures RowsHold(after, img, table, offsets, k + 1)
  {
    hide BufferHolds, NameAt;
    forall i | 0 <= i < MAX_NEEDED
      ensures BufferHolds(Row(after, i), if i < k + 1 then NameAt(img, table, offsets[i]) else [])
    {
      if i != k {
        assert Row(after, i) == Row(before, i);
        assert BufferHolds(Row(before, i), if i < k then NameAt(img, table, offsets[i]) else []);
      }
    }
  }

  ghost function InterpName(img: seq<U8>, phs: seq<Phdr>): seq<U8>
    requires |img| <= MAX64
  {
    var i := FirstOf(phs, PT_INTERP);
    if i < |phs| && InterpOk(img, phs[i]) then CString(img, phs[i].offset, phs[i].filesz) else []
  }

  ghost function NameAt(img: seq<U8>, table: Place, offset: U64): seq<U8>
    requires table.offset + table.available <= |img|
  {
    if offset < table.available then CString(img, table.offset + offset, table.available - offset) else []
  }

  /** A counter of an accepted prefix, one header further. */
  lemma CountExtend(phs: seq<Phdr>, ph: Phdr, p: Phdr -> bool)
    ensures Count(phs + [ph], p) == Count(phs, p) + (if p(ph) then 1 else 0)
  {
    assert (phs + [ph])[..|phs|] == phs;
  }

  lemma {:induction false} FirstOfExtend(phs: seq<Phdr>, ph: Phdr, kind: nat)
    ensures FirstOf(phs + [ph], kind) ==
            if FirstOf(phs, kind) < |phs| || ph.kind == kind then FirstOf(phs, kind) else |phs| + 1
  {
    var s := phs + [ph];
    assert forall k :: 0 <= k < |phs| ==> s[k] == phs[k];
    assert s[|phs|] == ph;
  }

  /** Once a verdict is given, later headers do not change the status. */
  lemma {:induction false} StatusSticks(img: seq<U8>, allowInterp: bool, phs: seq<Phdr>, i: nat, n: nat)
    requires |img| <= MAX64 && i < n <= |phs|
    requires SegmentsStatus(img, allowInterp, phs, i) == Ok && HeaderVerdict(img, allowInterp, phs, i) != Ok
    ensures SegmentsStatus(img, allowInterp, phs, n) == HeaderVerdict(img, allowInterp, phs, i)
    decreases n
  {
    hide HeaderVerdict;
    if n > i + 1 {
      StatusSticks(img, allowInterp, phs, i, n - 1);
    }
  }

  lemma {:induction false} LoadsBounded(img: seq<U8>, allowInterp: bool, phs: seq<Phdr>, n: nat)
    requires |img| <= MAX64 && n <= |phs|
    requires SegmentsStatus(img, allowInterp, phs, n) == Ok
    ensures var before := phs[..n];
            && Count(before, IS_LOAD) <= MAX_LOAD_SEGMENTS
            && Count(before, IS_WRITABLE) <= Count(before, IS_LOAD)
            && Count(before, IS_EXECUTABLE) <= Count(before, IS_LOAD)
            && Count(before, IS_WRITABLE_EXECUTABLE) <= Count(before, IS_LOAD)
  {
    if n > 0 {
      LoadsBounded(img, allowInterp, phs, n - 1);
      assert phs[..n] == phs[..n - 1] + [phs[n - 1]];
      hide LoadOk, InterpOk, DynamicOk;
      CountExtend(phs[..n - 1], phs[n - 1], IS_LOAD);
      CountExtend(phs[..n - 1], phs[n - 1], IS_WRITABLE);
      CountExtend(phs[..n - 1], phs[n - 1], IS_EXECUTABLE);
      CountExtend(phs[..n - 1], phs[n - 1], IS_WRITABLE_EXECUTABLE);
    }
  }

  /** The first pass, over the program headers. */
  method ScanProgramHeaders(img: seq<U8>, allowInterp: bool, summary: Summary)
    returns (status: Status, dynamic: Option<Phdr>)
    requires |img| <= MAX64 && HeaderStatus(img) == Ok
    requires summary.Valid() && summary.DescribesHeaders(img, [])
    modifies summary`loadSegments, summary`writableLoadSegments, summary`executableLoadSegments
    modifies summary`writableExecutableLoadSegments, summary`hasInterp, summary`hasDynamic, summary.interpreter
    ensures status == SegmentsStatus(img, allowInterp, Phdrs(img), |Phdrs(img)|)
    ensures status == Ok ==> summary.DescribesHeaders(img, Phdrs(img)) && dynamic == DynamicOf(Phdrs(img))
    ensures status == Ok ==> summary.loadSegments == Count(Phdrs(img), IS_LOAD)
  {
    hide HeaderStatus, HeaderVerdict, FirstOf, Summary.DescribesHeaders, Read16, Read32, Read64;
    ghost var phs := Phdrs(img);
    assert DynamicOf([]) == None;
    dynamic := None;
    for i := 0 to Phnum(img)
      invariant SegmentsStatus(img, allowInterp, phs, i) == Ok
      invariant summary.DescribesHeaders(img, phs[..i]) && dynamic == DynamicOf(phs[..i])
    {
      PhdrEnd(img, i);
      var program := PhdrAt(img, Phoff(img) + PHDR_SIZE * i);
      assert program == phs[i];
      assert phs[..i + 1] == phs[..i] + [program];
      status, dynamic := ScanHeader(img, allowInterp, summary, phs, i, program, dynamic);
      if status != Ok {
        StatusSticks(img, allowInterp, phs, i, |phs|);
        return;
      }
    }
    assert phs[..|phs|] == phs;
    LoadsDescribed(summary, img, phs);
    return Ok, dynamic;
  }

  lemma LoadsDescribed(summary: Summary, img: seq<U8>, phs: seq<Phdr>)
    requires |img| <= MAX64 && summary.Valid() && summary.DescribesHeaders(img, phs)
    ensures summary.loadSegments == Count(phs, IS_LOAD)
  {
  }

  method CheckLoad(size: U64, program: Phdr) returns (ok: bool)
    ensures ok <==> LoadOk(size, program)
  {
    if program.filesz > program.memsz || !RangeValid(size, program.offset, program.filesz) {
      return false;
    }
    if program.align > 1 {
      if !PowerOfTwo(program.align) {
        return false;
      }
      AlignmentTest(program.vaddr, program.offset, program.align);
      return And(Sub64(program.vaddr, program.offset), program.align - 1) == 0;
    }
    return true;
  }

  lemma CountsExtend(phs: seq<Phdr>, ph: Phdr)
    ensures Count(phs + [ph], IS_LOAD) == Count(phs, IS_LOAD) + (if IS_LOAD(ph) then 1 else 0)
    ensures Count(phs + [ph], IS_WRITABLE) == Count(phs, IS_WRITABLE) + (if IS_WRITABLE(ph) then 1 else 0)
    ensures Count(phs + [ph], IS_EXECUTABLE) == Count(phs, IS_EXECUTABLE) + (if IS_EXECUTABLE(ph) then 1 else 0)
    ensures Count(phs + [ph], IS_WRITABLE_EXECUTABLE) ==
            Count(phs, IS_WRITABLE_EXECUTABLE) + (if IS_WRITABLE_EXECUTABLE(ph) then 1 else 0)
    ensures Count(phs + [ph], IS_INTERP) == Count(phs, IS_INTERP) + (if IS_INTERP(ph) then 1 else 0)
    ensures Count(phs + [ph], IS_DYNAMIC) == Count(phs, IS_DYNAMIC) + (if IS_DYNAMIC(ph) then 1 else 0)
    ensures Count(phs, IS_INTERP) > 0 <==> FirstOf(phs, PT_INTERP) < |phs|
    ensures Count(phs, IS_DYNAMIC) > 0 <==> FirstOf(phs, PT_DYNAMIC) < |phs|
  {
    CountFrom(phs, PT_INTERP, IS_INTERP);
    CountFrom(phs, PT_DYNAMIC, IS_DYNAMIC);
    CountExtend(phs, ph, IS_LOAD);
    CountExtend(phs, ph, IS_WRITABLE);
    CountExtend(phs, ph, IS_EXECUTABLE);
    CountExtend(phs, ph, IS_WRITABLE_EXECUTABLE);
    CountExtend(phs, ph, IS_INTERP);
    CountExtend(phs, ph, IS_DYNAMIC);
  }

  /** The body of that pass for one header. */
  method ScanHeader(img: seq<U8>, allowInterp: bool, summary: Summary, ghost phs: seq<Phdr>, ghost i: nat,
                    program: Phdr, found: Option<Phdr>)
    returns (status: Status, dynamic: Option<Phdr>)
    requires |img| <= MAX64 && i < |phs| && program == phs[i]
    requires summary.Valid() && summary.DescribesHeaders(img, phs[..i]) && found == DynamicOf(phs[..i])
    requires SegmentsStatus(img, allowInterp, phs, i) == Ok
    modifies summary`loadSegments, summary`writableLoadSegments, summary`executableLoadSegments
    modifies summary`writableExecutableLoadSegments, summary`hasInterp, summary`hasDynamic, summary.interpreter
    ensures status == HeaderVerdict(img, allowInterp, phs, i)
    ensures status == Ok ==>
              summary.DescribesHeaders(img, phs[..i] + [program]) && dynamic == DynamicOf(phs[..i] + [program])
  {
    hide And, PowerOfTwo, LoadOk, Count, FirstOf, SegmentsStatus, Terminated, CString, BufferHolds;
    NoName(summary.interpreter[..]);
    ghost var before := phs[..i];
    CountsExtend(before, program);
    FirstOfExtend(before, program, PT_INTERP);
    FirstOfExtend(before, program, PT_DYNAMIC);
    dynamic := found;
    if program.kind == PT_LOAD {
      var sane := CheckLoad(|img|, program);
      if !sane {
        return Segment, dynamic;
      }
      LoadsBounded(img, allowInterp, phs, i);
      if summary.loadSegments == MAX_LOAD_SEGMENTS {
        return Policy, dynamic;
      }
      summary.CountLoad(program);
    } else if program.kind == PT_INTERP {
      if summary.hasInterp != 0 || !allowInterp || !RangeValid(|img|, program.offset, program.filesz) {
        return Policy, dynamic;
      }
      var copied := ReadInterpreter(img, program, summary);
      if !copied {
        return Policy, dynamic;
      }
      summary.hasInterp := 1;
    } else if program.kind == PT_DYNAMIC {
      if dynamic.Some? || !RangeValid(|img|, program.offset, program.filesz) || program.filesz % DYN_SIZE != 0 {
        return Dynamic, dynamic;
      }
      dynamic := Some(program);
      summary.hasDynamic := 1;
    }
    return Ok, dynamic;
  }

  /** The interpreter's name into its empty buffer. */
  method ReadInterpreter(img: seq<U8>, program: Phdr, summary: Summary) returns (ok: bool)
    requires |img| <= MAX64 && RangeValid(|img|, program.offset, program.filesz)
    requires summary.Valid() && BufferHolds(summary.interpreter[..], [])
    modifies summary.interpreter
    ensures ok <==> Terminated(img, program.offset, program.filesz)
    ensures ok ==> BufferHolds(summary.interpreter[..], CString(img, program.offset, program.filesz))
  {
    hide StrLen;
    ghost var before := summary.interpreter[..];
    ok := CopyBoundedString(summary.interpreter, 0, NAME_MAX, img, program.offset, program.filesz);
    if ok {
      assert forall k :: 0 <= k < NAME_MAX ==> before[k] == 0;
      ghost var n := StrLen(img, program.offset, program.filesz);
      assert summary.interpreter[..][..n] == summary.interpreter[0..0 + n];
    }
  }

  lemma NoName(buffer: seq<U8>)
    ensures BufferHolds(buffer, []) <==> buffer != [] && forall i :: 0 <= i < |buffer| ==> buffer[i] == 0
  {
  }

  // ---------------------------------------------------------------- the dynamic pass

  lemma EntryExtends(ds: seq<Dyn>, d: Dyn)
    ensures HasRela(ds + [d]) <==> HasRela(ds) || d.tag == DT_RELA
    ensures HasTextrel(ds + [d]) <==> HasTextrel(ds) || TextrelEntry(d)
    ensures NeededOffsets(ds + [d]) == NeededOffsets(ds) + (if d.tag == DT_NEEDED then [d.value] else [])
    ensures forall tag: nat :: LastValue(ds + [d], tag) == if d.tag == tag then d.value else LastValue(ds, tag)
  {
    var s := ds + [d];
    assert s[..|ds|] == ds && s[|ds|] == d;
    assert forall k :: 0 <= k < |ds| ==> s[k] == ds[k];
    hide TextrelEntry;
    if i :| 0 <= i < |ds| && ds[i].tag == DT_RELA {
      assert s[i].tag == DT_RELA;
    }
    if i :| 0 <= i < |ds| && TextrelEntry(ds[i]) {
      assert TextrelEntry(s[i]);
    }
  }

  lemma {:induction false} NeededGrows(ds: seq<Dyn>, i: nat, j: nat)
    requires i <= j <= |ds|
    ensures |NeededOffsets(ds[..i])| <= |NeededOffsets(ds[..j])|
    decreases j
  {
    if i < j {
      NeededGrows(ds, i, j - 1);
      assert ds[..j] == ds[..j - 1] + [ds[j - 1]];
      EntryExtends(ds[..j - 1], ds[j - 1]);
    }
  }

  /** The second pass, over the dynamic entries up to the first null. */
  method ScanDynamic(img: seq<U8>, dynamic: Phdr, summary: Summary, neededOffsets: array<U64>)
    returns (status: Status, tableAddress: U64, tableSize: U64, neededCount: nat)
    requires |img| <= MAX64 && DynamicOk(|img|, dynamic)
    requires neededOffsets.Length == MAX_NEEDED && summary.hasRela == summary.hasTextrel == 0
    modifies summary`hasRela, summary`hasTextrel, neededOffsets
    ensures var ds := Dyns(img, dynamic);
            var live := Live(ds);
            && status == (if |NeededOffsets(live)| > MAX_NEEDED then Policy
                          else if FirstNull(ds) == |ds| then Dynamic else Ok)
            && (status == Ok ==>
                  && summary.DescribesEntries(live)
                  && tableAddress == LastValue(live, DT_STRTAB)
                  && tableSize == LastValue(live, DT_STRSZ)
                  && neededCount == |NeededOffsets(live)| <= MAX_NEEDED
                  && neededOffsets[..neededCount] == NeededOffsets(live))
  {
    ghost var ds := Dyns(img, dynamic);
    var entries := dynamic.filesz / DYN_SIZE;
    tableAddress, tableSize, neededCount := 0, 0, 0;
    EmptyEntries();
    assert ds[..0] == [];
    hide Dyns, DynAt, NeededOffsets, LastValue, HasRela, HasTextrel, FirstNull, DynamicOk;
    assert entries == |ds| && |img| <= MAX64;
    for i := 0 to entries
      invariant i <= FirstNull(ds)
      invariant Recorded(ds[..i], summary, tableAddress, tableSize, neededCount, neededOffsets)
    {
      DynsAt(img, dynamic, i);
      var d := DynAt(img, dynamic.offset + DYN_SIZE * i);
      if d.tag == DT_NULL {
        assert FirstNull(ds) == i;
        return Ok, tableAddress, tableSize, neededCount;
      }
      assert FirstNull(ds) > i;
      assert ds[..i + 1] == ds[..i] + [d];
      var ok;
      ok, tableAddress, tableSize, neededCount :=
        RecordEntry(ds[..i], d, summary, tableAddress, tableSize, neededCount, neededOffsets);
      if !ok {
        NeededGrows(ds, i + 1, FirstNull(ds));
        return Policy, tableAddress, tableSize, neededCount;
      }
    }
    assert ds[..entries] == Live(ds);
    return Dynamic, tableAddress, tableSize, neededCount;
  }

  /** The scan's variables hold what the entries `ds` say. */
  ghost predicate Recorded(ds: seq<Dyn>, summary: Summary, tableAddress: U64, tableSize: U64, neededCount: nat,
                           neededOffsets: array<U64>)
    requires neededOffsets.Length == MAX_NEEDED
    reads summary, neededOffsets
  {
    && summary.DescribesEntries(ds)
    && tableAddress == LastValue(ds, DT_STRTAB) && tableSize == LastValue(ds, DT_STRSZ)
    && neededCount == |NeededOffsets(ds)| <= MAX_NEEDED
    && neededOffsets[..neededCount] == NeededOffsets(ds)
  }

  /** The body of that pass for one entry; it fails on the ninth needed name. */
  method RecordEntry(ghost ds: seq<Dyn>, d: Dyn, summary: Summary, address: U64, size: U64, count: nat,
                     neededOffsets: array<U64>)
    returns (ok: bool, tableAddress: U64, tableSize: U64, neededCount: nat)
    requires neededOffsets.Length == MAX_NEEDED
    requires Recorded(ds, summary, address, size, count, neededOffsets)
    modifies summary`hasRela, summary`hasTextrel, neededOffsets
    ensures if ok then Recorded(ds + [d], summary, tableAddress, tableSize, neededCount, neededOffsets)
            else |NeededOffsets(ds + [d])| > MAX_NEEDED
  {
    hide NeededOffsets, LastValue, HasRela, HasTextrel, TextrelEntry;
    EntryExtends(ds, d);
    NotTextrel(d);
    tableAddress, tableSize, neededCount := address, size, count;
    if d.tag == DT_STRTAB {
      tableAddress := d.value;
    } else if d.tag == DT_STRSZ {
      tableSize := d.value;
    } else if d.tag == DT_NEEDED {
      if neededCount == MAX_NEEDED {
        return false, tableAddress, tableSize, neededCount;
      }
      neededOffsets[neededCount] := d.value;
      neededCount := neededCount + 1;
      assert neededOffsets[..neededCount] == neededOffsets[..count] + [d.value];
    } else if d.tag == DT_RELA {
      summary.hasRela := 1;
    } else if TextrelEntry(d) {
      summary.hasTextrel := 1;
    }
    return true, tableAddress, tableSize, neededCount;
  }

  lemma DynsAt(img: seq<U8>, dynamic: Phdr, i: nat)
    requires |img| <= MAX64 && DynamicOk(|img|, dynamic) && i < dynamic.filesz / DYN_SIZE
    ensures dynamic.offset + DYN_SIZE * i + DYN_SIZE <= |img|
    ensures Dyns(img, dynamic)[i] == DynAt(img, dynamic.offset + DYN_SIZE * i)
  {
  }

  lemma NotTextrel(d: Dyn)
    ensures d.tag != DT_TEXTREL && d.tag != DT_FLAGS ==> !TextrelEntry(d)
  {
  }

  lemma EmptyEntries()
    ensures NeededOffsets([]) == [] && !HasRela([]) && !HasTextrel([])
    ensures LastValue([], DT_STRTAB) == LastValue([], DT_STRSZ) == 0
  {
  }

  /** The first segment that covers the address decides. */
  method VirtualToFileOffset(img: seq<U8>, va: U64) returns (place: Option<Place>)
    requires HeaderStatus(img) == Ok
    ensures place == Translate(Phdrs(img), va)
  {
    hide HeaderStatus, Phdrs, PhdrAt, Phoff, Phnum, Translate;
    ghost var phs := Phdrs(img);
    TranslateNone(va);
    assert phs[..] == phs;
    for i := 0 to Phnum(img)
      invariant Translate(phs, va) == Translate(phs[i..], va)
    {
      PhdrEnd(img, i);
      PhdrThere(img, i);
      var header := PhdrAt(img, Phoff(img) + PHDR_SIZE * i);
      TranslateStep(phs[i..], va);
      assert phs[i..][0] == phs[i] && phs[i..][1..] == phs[i + 1..];
      if header.kind != PT_LOAD || va < header.vaddr {
        continue;
      }
      var delta := va - header.vaddr;
      if delta < header.filesz {
        return Some(Place(Add64(header.offset, delta), header.filesz - delta));
      }
    }
    return None;
  }

  lemma PhdrThere(img: seq<U8>, i: nat)
    requires HeaderStatus(img) == Ok && i < Phnum(img)
    ensures Phoff(img) + PHDR_SIZE * i + PHDR_SIZE <= |img| && |Phdrs(img)| == Phnum(img)
    ensures Phdrs(img)[i] == PhdrAt(img, Phoff(img) + PHDR_SIZE * i)
  {
    PhdrEnd(img, i);
    hide HeaderStatus, PhdrAt;
  }

  lemma TranslateStep(phs: seq<Phdr>, va: U64)
    requires phs != []
    ensures Translate(phs, va) ==
            if Covers(phs[0], va) then
              Some(Place(Add64(phs[0].offset, va - phs[0].vaddr), phs[0].filesz - (va - phs[0].vaddr)))
            else Translate(phs[1..], va)
  {
  }

  lemma TranslateNone(va: U64)
    ensures Translate([], va) == None
  {
  }

  /** The third pass: copies the needed names out of the string table. */
  method CopyNames(img: seq<U8>, table: Place, offsets: seq<U64>, summary: Summary) returns (ok: bool)
    requires |img| <= MAX64 && table.offset + table.available <= |img|
    requires summary.Valid() && |offsets| <= MAX_NEEDED
    requires forall i :: 0 <= i < summary.needed.Length ==> summary.needed[i] == 0
    modifies summary.needed
    ensures ok <==> forall i :: 0 <= i < |offsets| ==> NameOk(img, table, offsets[i])
    ensures ok ==> RowsHold(summary.needed[..], img, table, offsets, |offsets|)
  {
    NoRows(summary.needed[..], img, table, offsets);
    hide NameOk, RowsHold, BufferHolds, NameAt;
    for i := 0 to |offsets|
      invariant forall k :: 0 <= k < i ==> NameOk(img, table, offsets[k])
      invariant RowsHold(summary.needed[..], img, table, offsets, i)
    {
      var copied := NextName(img, table, offsets, i, summary);
      if !copied {
        return false;
      }
    }
    return true;
  }

  /** The body of that pass for one name. */
  method NextName(img: seq<U8>, table: Place, offsets: seq<U64>, i: nat, summary: Summary) returns (ok: bool)
    requires |img| <= MAX64 && table.offset + table.available <= |img|
    requires summary.Valid() && i < |offsets| <= MAX_NEEDED
    requires RowsHold(summary.needed[..], img, table, offsets, i)
    modifies summary.needed
    ensures ok <==> NameOk(img, table, offsets[i])
    ensures ok ==> RowsHold(summary.needed[..], img, table, offsets, i + 1)
  {
    hide NameOk, RowsHold, BufferHolds, NameAt, Row;
    ghost var before := summary.needed[..];
    EmptyRow(before, img, table, offsets, i);
    ok := CopyName(img, table, offsets[i], i, summary);
    if ok {
      RowFilled(before, summary.needed[..], img, table, offsets, i);
    }
  }

  /** One name into its row. */
  method CopyName(img: seq<U8>, table: Place, offset: U64, i: nat, summary: Summary) returns (ok: bool)
    requires |img| <= MAX64 && table.offset + table.available <= |img|
    requires summary.Valid() && i < MAX_NEEDED && BufferHolds(Row(summary.needed[..], i), [])
    modifies summary.needed
    ensures ok <==> NameOk(img, table, offset)
    ensures ok ==> BufferHolds(Row(summary.needed[..], i), NameAt(img, table, offset))
    ensures forall j :: 0 <= j < summary.needed.Length && !(i * NAME_MAX <= j < i * NAME_MAX + NAME_MAX) ==>
              summary.needed[j] == old(summary.needed[j])
  {
    hide StrLen, BufferHolds, NameAt;
    if offset >= table.available {
      return false;
    }
    ghost var before := summary.needed[..];
    ok := CopyBoundedString(summary.needed, i * NAME_MAX, NAME_MAX, img,
                            table.offset + offset, table.available - offset);
    if ok {
      RowCopied(before, summary.needed[..], img, table, offset, i);
    }
  }

  lemma NoRows(buffer: seq<U8>, img: seq<U8>, table: Place, offsets: seq<U64>)
    requires |buffer| == MAX_NEEDED * NAME_MAX && forall i :: 0 <= i < |buffer| ==> buffer[i] == 0
    requires table.offset + table.available <= |img|
    ensures RowsHold(buffer, img, table, offsets, 0)
  {
  }

  lemma EmptyRow(buffer: seq<U8>, img: seq<U8>, table: Place, offsets: seq<U64>, k: nat)
    requires |buffer| == MAX_NEEDED * NAME_MAX && k < MAX_NEEDED
    requires table.offset + table.available <= |img| && k <= |offsets|
    requires RowsHold(buffer, img, table, offsets, k)
    ensures BufferHolds(Row(buffer, k), [])
  {
    hide BufferHolds, Row;
  }

  /** A bounded copy into an empty row leaves the name, its NUL and zeros there. */
  lemma RowCopied(before: seq<U8>, after: seq<U8>, img: seq<U8>, table: Place, offset: U64, i: nat)
    requires |before| == |after| == MAX_NEEDED * NAME_MAX && i < MAX_NEEDED
    requires table.offset + table.available <= |img| && offset < table.available
    requires BufferHolds(Row(before, i), [])
    requires var n := StrLen(img, table.offset + offset, table.available - offset);
             var at := i * NAME_MAX;
             && n < NAME_MAX
             && after[at..at + n] == img[table.offset + offset..table.offset + offset + n]
             && after[at + n] == 0
             && forall k :: at + n < k < at + NAME_MAX ==> after[k] == before[k]
    ensures BufferHolds(Row(after, i), NameAt(img, table, offset))
  {
    hide StrLen;
    var n := StrLen(img, table.offset + offset, table.available - offset);
    var row := Row(after, i);
    assert row[..n] == after[i * NAME_MAX..i * NAME_MAX + n];
    forall k | n <= k < NAME_MAX ensures row[k] == 0 {
      assert Row(before, i)[k] == 0;
    }
  }

  // ---------------------------------------------------------------- the whole parse

  /** What the dynamic pass leaves in the summary. */
  ghost predicate DescribesDynamic(summary: Summary, img: seq<U8>, phs: seq<Phdr>, d: Option<Phdr>)
    requires |img| <= MAX64 && summary.Valid()
    reads summary`neededCount, summary`hasRela, summary`hasTextrel, summary.needed
  {
    if d.None? then
      && summary.neededCount == 0
      && summary.DescribesEntries([])
      && RowsHold(summary.needed[..], img, Place(0, 0), [], 0)
    else
      && DynamicOk(|img|, d.value)
      && var live := Live(Dyns(img, d.value));
         var offsets := NeededOffsets(live);
         && summary.neededCount == |offsets|
         && summary.DescribesEntries(live)
         && DescribesNames(summary.needed[..], img, StringTable(phs, live), offsets)
  }

  /** The names of the string table, in the order of the entries. */
  ghost predicate DescribesNames(buffer: seq<U8>, img: seq<U8>, table: Option<Place>, offsets: seq<U64>)
    requires |buffer| == MAX_NEEDED * NAME_MAX
  {
    if offsets == [] then RowsHold(buffer, img, Place(0, 0), [], 0)
    else
      && table.Some? && table.value.offset + table.value.available <= |img|
      && RowsHold(buffer, img, table.value, offsets, |offsets|)
  }

  /** What an accepted image leaves in the summary. */
  ghost predicate Describes(summary: Summary, img: seq<U8>)
    requires |img| <= MAX64 && HeaderStatus(img) == Ok && summary.Valid()
    reads summary, summary.interpreter, summary.needed
  {
    && summary.DescribesFile(img)
    && summary.DescribesHeaders(img, Phdrs(img))
    && DescribesDynamic(summary, img, Phdrs(img), DynamicOf(Phdrs(img)))
  }

  /** `selinos_elfrt_parse_image`: for every byte string the status is the one the
      format prescribes, and an accepted image is described in full. */
  method ParseImage(image: Option<seq<U8>>, allowInterp: bool, summary: Summary?) returns (status: Status)
    requires image.Some? ==> |image.value| <= MAX64
    requires summary != null ==> summary.Valid()
    modifies if summary == null then {} else {summary, summary.interpreter, summary.needed}
    ensures image.None? || summary == null ==> status == Argument
    ensures image.Some? && summary != null ==>
              && status == ParseStatus(image.value, allowInterp)
              && (status == Ok ==> HeaderStatus(image.value) == Ok && Describes(summary, image.value))
  {
    if image.None? || summary == null {
      return Argument;
    }
    status := ParseBytes(image.value, allowInterp, summary);
  }

  method ParseBytes(img: seq<U8>, allowInterp: bool, summary: Summary) returns (status: Status)
    requires |img| <= MAX64 && summary.Valid()
    modifies summary, summary.interpreter, summary.needed
    ensures status == ParseStatus(img, allowInterp)
    ensures status == Ok ==> HeaderStatus(img) == Ok && Describes(summary, img)
  {
    hide HeaderStatus, Describes;
    summary.Clear();
    status := CheckHeader(img);
    if status == Ok {
      hide ParseStatus;
      status := ParseSegments(img, allowInterp, summary);
    }
  }

  /** What remains after the file header. */
  method ParseSegments(img: seq<U8>, allowInterp: bool, summary: Summary) returns (status: Status)
    requires |img| <= MAX64 && HeaderStatus(img) == Ok
    requires summary.Valid() && summary.Cleared()
    modifies summary, summary.interpreter, summary.needed
    ensures status == ParseStatus(img, allowInterp)
    ensures status == Ok ==> Describes(summary, img)
  {
    hide HeaderStatus, Phdrs, SegmentsStatus, AcceptedStatus, ParseStatus, DynamicOf, Count, RowsHold;
    hide DescribesDynamic, DynamicOk, Describes;
    hide Summary.DescribesHeaders, Summary.DescribesEntries, Summary.DescribesFile, Summary.Cleared;
    RecordFile(img, summary);
    ParseSteps(img, allowInterp);
    var dynamic;
    status, dynamic := ScanProgramHeaders(img, allowInterp, summary);
    if status == Ok {
      DynamicAccepted(img, allowInterp, Phdrs(img));
      status := ParseTables(img, dynamic, summary);
      if status == Ok {
        DescribedInFull(summary, img);
      }
    }
  }

  lemma ParseSteps(img: seq<U8>, allowInterp: bool)
    requires |img| <= MAX64 && HeaderStatus(img) == Ok
    ensures var phs := Phdrs(img);
            var segments := SegmentsStatus(img, allowInterp, phs, |phs|);
            && (segments != Ok ==> ParseStatus(img, allowInterp) == segments)
            && (segments == Ok && (DynamicOf(phs).Some? ==> DynamicOk(|img|, DynamicOf(phs).value)) ==>
                  ParseStatus(img, allowInterp) == AcceptedStatus(img, phs, DynamicOf(phs)))
  {
    hide HeaderStatus, SegmentsStatus, AcceptedStatus, DynamicOf, DynamicOk, Phdrs;
  }

  lemma DescribedInFull(summary: Summary, img: seq<U8>)
    requires |img| <= MAX64 && HeaderStatus(img) == Ok && summary.Valid()
    requires summary.DescribesFile(img) && summary.DescribesHeaders(img, Phdrs(img))
    requires DescribesDynamic(summary, img, Phdrs(img), DynamicOf(Phdrs(img)))
    ensures Describes(summary, img)
  {
    hide HeaderStatus, DescribesDynamic, DynamicOf, Phdrs, Summary.DescribesFile, Summary.DescribesHeaders;
  }

  method RecordFile(img: seq<U8>, summary: Summary)
    requires |img| <= MAX64 && HeaderStatus(img) == Ok
    requires summary.Valid() && summary.Cleared()
    modifies summary`elfType, summary`elfMachine, summary`entry
    ensures summary.DescribesFile(img) && summary.DescribesHeaders(img, [])
    ensures summary.hasRela == summary.hasTextrel == summary.neededCount == 0
    ensures forall i :: 0 <= i < summary.needed.Length ==> summary.needed[i] == 0
  {
    EmptyHeaders(img, summary);
    hide Summary.DescribesHeaders, Read16, Read64;
    summary.elfType, summary.elfMachine, summary.entry := Read16(img, 16), Read16(img, 18), Read64(img, 24);
  }

  /** What remains after the header pass. */
  method ParseTables(img: seq<U8>, dynamic: Option<Phdr>, summary: Summary) returns (status: Status)
    requires |img| <= MAX64 && HeaderStatus(img) == Ok && (dynamic.Some? ==> DynamicOk(|img|, dynamic.value))
    requires summary.Valid() && summary.loadSegments == Count(Phdrs(img), IS_LOAD)
    requires summary.hasRela == summary.hasTextrel == summary.neededCount == 0
    requires forall i :: 0 <= i < summary.needed.Length ==> summary.needed[i] == 0
    modifies summary`hasRela, summary`hasTextrel, summary`neededCount, summary.needed
    ensures status == AcceptedStatus(img, Phdrs(img), dynamic)
    ensures status == Ok ==> DescribesDynamic(summary, img, Phdrs(img), dynamic)
  {
    hide Phdrs, Count, DynamicOk, DynamicStatus, RowsHold;
    if summary.loadSegments == 0 {
      return Segment;
    }
    if dynamic.None? {
      EmptyEntries();
      NoRows(summary.needed[..], img, Place(0, 0), []);
      return Ok;
    }
    status := ParseDynamic(img, dynamic.value, summary);
  }

  lemma EmptyHeaders(img: seq<U8>, summary: Summary)
    requires |img| <= MAX64 && summary.Valid() && summary.Cleared()
    ensures summary.DescribesHeaders(img, [])
  {
  }

  method CheckHeader(img: seq<U8>) returns (status: Status)
    requires |img| <= MAX64
    ensures status == HeaderStatus(img)
  {
    if |img| < EHDR_SIZE {
      return Truncated;
    }
    assert img[..4] == [img[0], img[1], img[2], img[3]];
    if img[0] != 0x7f || img[1] != 0x45 || img[2] != 0x4c || img[3] != 0x46 || img[4] != 2 || img[5] != 1
       || img[6] != 1 || Read32(img, 20) != 1 || Read16(img, 52) != EHDR_SIZE {
      return NotElf;
    }
    if Read16(img, 18) != EM_X86_64 {
      return Arch;
    }
    if Read16(img, 16) != ET_EXEC && Read16(img, 16) != ET_DYN {
      return Type;
    }
    if Phnum(img) == 0 || Phnum(img) > MAX_PHNUM || Read16(img, 54) != PHDR_SIZE
       || !RangeValid(|img|, Phoff(img), Phnum(img) * Read16(img, 54)) {
      return ProgramHeaders;
    }
    return Ok;
  }

  /** From the dynamic segment to the names. */
  method ParseDynamic(img: seq<U8>, dynamic: Phdr, summary: Summary) returns (status: Status)
    requires |img| <= MAX64 && HeaderStatus(img) == Ok && DynamicOk(|img|, dynamic)
    requires summary.Valid() && summary.hasRela == summary.hasTextrel == summary.neededCount == 0
    requires forall i :: 0 <= i < summary.needed.Length ==> summary.needed[i] == 0
    modifies summary`hasRela, summary`hasTextrel, summary`neededCount, summary.needed
    ensures status == DynamicStatus(img, Phdrs(img), Dyns(img, dynamic))
    ensures status == Ok ==> DescribesDynamic(summary, img, Phdrs(img), Some(dynamic))
  {
    hide Phdrs, Dyns, Live, NeededOffsets, LastValue, Translate, RowsHold, NameOk, HasRela, HasTextrel;
    var neededOffsets := new U64[MAX_NEEDED];
    var tableAddress, tableSize, neededCount;
    status, tableAddress, tableSize, neededCount := ScanDynamic(img, dynamic, summary, neededOffsets);
    if status != Ok {
      return;
    }
    summary.neededCount := neededCount;
    if neededCount == 0 {
      NoRows(summary.needed[..], img, Place(0, 0), []);
      return Ok;
    }
    if tableAddress == 0 || tableSize == 0 {
      return Dynamic;
    }
    var place := VirtualToFileOffset(img, tableAddress);
    if place.None? || tableSize > place.value.available || !RangeValid(|img|, place.value.offset, tableSize) {
      return Dynamic;
    }
    var table := Place(place.value.offset, tableSize);
    var ok := CopyNames(img, table, neededOffsets[..neededCount], summary);
    assert neededOffsets[..neededCount] == NeededOffsets(Live(Dyns(img, dynamic)));
    return if ok then Ok else Dynamic;
  }
}
