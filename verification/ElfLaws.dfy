/** What the tests, counters and verdicts of the metadata parser mean in numbers:
    the words the parser and its specification share, said without them. */
module ElfLaws {
  import opened Bits
  import opened Elf
  import opened ElfParser
  import opened ElfFacts

  // ---------------------------------------------------------------- single headers

  ghost predicate SomePower(v: nat) {
    exists k: nat :: v == Pow2(k)
  }

  lemma PowerMeans(v: nat)
    ensures PowerOfTwo(v) <==> SomePower(v)
  {
    hide Pow2, PowerOfTwo;
    if PowerOfTwo(v) {
      var k := PowerOfTwoExponent(v);
    }
    if k: nat :| v == Pow2(k) {
      Pow2IsPowerOfTwo(k);
    }
  }

  lemma LoadMeans(size: U64, ph: Phdr)
    ensures LoadOk(size, ph) <==>
            && ph.filesz <= ph.memsz
            && ph.offset + ph.filesz <= size
            && (ph.align > 1 ==> SomePower(ph.align) && ph.vaddr % ph.align == ph.offset % ph.align)
  {
    hide PowerOfTwo, SomePower;
    PowerMeans(ph.align);
  }

  /** A NUL comes within the given bytes and within the first 96. */
  ghost predicate NulWithin(img: seq<U8>, start: nat, available: nat)
    requires start + available <= |img|
  {
    exists m :: start <= m < start + available && m < start + 96 && img[m] == 0
  }

  lemma TerminatedMeans(img: seq<U8>, start: nat, available: nat)
    requires start + available <= |img|
    ensures Terminated(img, start, available) <==> NulWithin(img, start, available)
    ensures Terminated(img, start, available) ==>
              var s := CString(img, start, available);
              && |s| < 96 && |s| < available && s == img[start..start + |s|] && img[start + |s|] == 0
              && forall k :: 0 <= k < |s| ==> s[k] != 0
  {
    hide StrLen;
    var n := StrLen(img, start, available);
    assert NAME_MAX == 96;
    if Terminated(img, start, available) {
      assert img[start + n] == 0;
    }
    if m :| start <= m < start + available && m < start + 96 && img[m] == 0 {
      assert start + n <= m;
    }
  }

  lemma InterpMeans(img: seq<U8>, ph: Phdr)
    requires |img| <= MAX64
    ensures InterpOk(img, ph) <==> ph.offset + ph.filesz <= |img| && NulWithin(img, ph.offset, ph.filesz)
  {
    hide Terminated, NulWithin;
    if ph.offset + ph.filesz <= |img| {
      TerminatedMeans(img, ph.offset, ph.filesz);
    }
  }

  lemma DynamicMeans(size: U64, ph: Phdr)
    ensures DynamicOk(size, ph) <==> ph.offset + ph.filesz <= size && ph.filesz % 16 == 0
  {
  }

  /** The flags: bit 0 is execution and bit 1 is writing. */
  lemma FlagsMean(ph: Phdr)
    ensures IS_LOAD(ph) <==> ph.kind == 1
    ensures IS_DYNAMIC(ph) <==> ph.kind == 2
    ensures IS_INTERP(ph) <==> ph.kind == 3
    ensures IS_EXECUTABLE(ph) <==> ph.kind == 1 && ph.flags % 2 == 1
    ensures IS_WRITABLE(ph) <==> ph.kind == 1 && ph.flags / 2 % 2 == 1
    ensures IS_WRITABLE_EXECUTABLE(ph) <==> ph.kind == 1 && ph.flags % 4 == 3
  {
    BitOf(ph.flags, 0);
    BitOf(ph.flags, 1);
    assert Pow2(0) == 1 && Pow2(1) == 2;
    hide And, Pow2;
    assert ph.flags / 1 == ph.flags;
  }

  lemma {:induction false} CountMeans(phs: seq<Phdr>, p: Phdr -> bool)
    ensures Count(phs, p) == |set i | 0 <= i < |phs| && p(phs[i])|
  {
    if phs != [] {
      var n := |phs| - 1;
      assert Count(phs, p) == Count(phs[..n], p) + (if p(phs[n]) then 1 else 0);
      var init := phs[..n];
      CountMeans(init, p);
      var before := set i | 0 <= i < n && p(phs[i]);
      assert before == (set i | 0 <= i < |init| && p(init[i]));
      hide Count;
      var all := set i | 0 <= i < |phs| && p(phs[i]);
      assert all == if p(phs[n]) then before + {n} else before;
      assert n !in before;
    }
  }

  /** A counter is positive iff some header has the kind. */
  lemma CountPositive(phs: seq<Phdr>, p: Phdr -> bool)
    ensures Count(phs, p) > 0 <==> exists i :: 0 <= i < |phs| && p(phs[i])
  {
    CountZero(phs, p);
  }

  // ---------------------------------------------------------------- verdicts

  /** What one header adds: only the three kinds matter, and each has its own code. */
  lemma VerdictMeans(img: seq<U8>, allowInterp: bool, phs: seq<Phdr>, i: nat)
    requires |img| <= MAX64 && i < |phs|
    ensures HeaderVerdict(img, allowInterp, phs, i) ==
            if phs[i].kind == 1 then
              if !LoadOk(|img|, phs[i]) then Segment
              else if |set k | 0 <= k < i && phs[k].kind == 1| == 8 then Policy
              else Ok
            else if phs[i].kind == 2 then
              if DynamicOk(|img|, phs[i]) && forall k :: 0 <= k < i ==> phs[k].kind != 2 then Ok else Dynamic
            else if phs[i].kind == 3 then
              if allowInterp && InterpOk(img, phs[i]) && forall k :: 0 <= k < i ==> phs[k].kind != 3 then Ok
              else Policy
            else Ok
  {
    hide LoadOk, DynamicOk, InterpOk, Count;
    var before := phs[..i];
    CountMeans(before, IS_LOAD);
    assert (set k | 0 <= k < |before| && IS_LOAD(before[k])) == (set k | 0 <= k < i && phs[k].kind == 1);
    CountPositive(before, IS_DYNAMIC);
    CountPositive(before, IS_INTERP);
  }

  /** The header pass has the verdict of the first header that is not fine. */
  lemma {:induction false} FirstVerdict(img: seq<U8>, allowInterp: bool, phs: seq<Phdr>, n: nat)
    requires |img| <= MAX64 && n <= |phs|
    ensures SegmentsStatus(img, allowInterp, phs, n) == Ok <==>
            forall i :: 0 <= i < n ==> HeaderVerdict(img, allowInterp, phs, i) == Ok
    ensures SegmentsStatus(img, allowInterp, phs, n) != Ok ==>
              exists i :: 0 <= i < n && HeaderVerdict(img, allowInterp, phs, i) != Ok
                && SegmentsStatus(img, allowInterp, phs, n) == HeaderVerdict(img, allowInterp, phs, i)
                && forall k :: 0 <= k < i ==> HeaderVerdict(img, allowInterp, phs, k) == Ok
  {
    hide HeaderVerdict;
    if n > 0 {
      FirstVerdict(img, allowInterp, phs, n - 1);
    }
  }

  // ---------------------------------------------------------------- dynamic entries

  lemma EntryMeans(d: Dyn)
    ensures TextrelEntry(d) <==> d.tag == 22 || (d.tag == 30 && d.value / 4 % 2 == 1)
    ensures HasRela([d]) <==> d.tag == 7
    ensures NeededOffsets([d]) == if d.tag == 1 then [d.value] else []
  {
    BitOf(d.value, 2);
    Pow2Values();
    hide And, Pow2;
    EntryExtends([], d);
    assert [] + [d] == [d];
  }

  /** The libraries of two tables one after the other. */
  lemma {:induction false} NeededInOrder(a: seq<Dyn>, b: seq<Dyn>)
    ensures NeededOffsets(a + b) == NeededOffsets(a) + NeededOffsets(b)
    decreases |b|
  {
    if b == [] {
      assert a + b == a;
    } else {
      var init, last := b[..|b| - 1], b[|b| - 1];
      hide NeededOffsets;
      NeededInOrder(a, init);
      assert a + b == (a + init) + [last] && b == init + [last];
      NeededExtends(a + init, last);
      NeededExtends(init, last);
    }
  }

  lemma NeededExtends(ds: seq<Dyn>, d: Dyn)
    ensures NeededOffsets(ds + [d]) == NeededOffsets(ds) + (if d.tag == 1 then [d.value] else [])
  {
    hide HasRela, HasTextrel, LastValue, TextrelEntry, NeededOffsets;
    EntryExtends(ds, d);
  }

  /** A tag's value is the one of its last entry. */
  lemma {:induction false} LastValueMeans(ds: seq<Dyn>, tag: nat)
    ensures (forall i :: 0 <= i < |ds| ==> ds[i].tag != tag) ==> LastValue(ds, tag) == 0
    ensures forall i :: 0 <= i < |ds| && ds[i].tag == tag && (forall k :: i < k < |ds| ==> ds[k].tag != tag) ==>
              LastValue(ds, tag) == ds[i].value
  {
    if ds != [] && ds[|ds| - 1].tag != tag {
      var init := ds[..|ds| - 1];
      LastValueMeans(init, tag);
      assert forall i :: 0 <= i < |init| ==> init[i] == ds[i];
    }
  }

  /** The entries that count stop at the first one with tag zero. */
  lemma LiveMeans(ds: seq<Dyn>)
    ensures |Live(ds)| <= |ds| && Live(ds) == ds[..|Live(ds)|]
    ensures forall k :: 0 <= k < |Live(ds)| ==> ds[k].tag != 0
    ensures |Live(ds)| < |ds| ==> ds[|Live(ds)|].tag == 0
  {
  }

  lemma CoversMeans(ph: Phdr, va: U64)
    ensures Covers(ph, va) <==> ph.kind == 1 && ph.vaddr <= va < ph.vaddr + ph.filesz
  {
  }

  /** The string table: both entries present and not zero, the address in a
      segment of the file, and the size not beyond that segment. */
  lemma TableMeans(phs: seq<Phdr>, live: seq<Dyn>)
    ensures var va, size := LastValue(live, 5), LastValue(live, 10);
            && (StringTable(phs, live).Some? <==>
                  va != 0 && size != 0 && Translate(phs, va).Some? && size <= Translate(phs, va).value.available)
            && (StringTable(phs, live).Some? ==>
                  StringTable(phs, live) == Some(Place(Translate(phs, va).value.offset, size)))
  {
    hide LastValue, Translate;
  }

  lemma NameMeans(img: seq<U8>, table: Place, offset: U64)
    requires table.offset + table.available <= |img|
    ensures NameOk(img, table, offset) <==>
            && offset < table.available
            && NulWithin(img, table.offset + offset, table.available - offset)
  {
    hide Terminated, NulWithin;
    if offset < table.available {
      TerminatedMeans(img, table.offset + offset, table.available - offset);
    }
  }

  /** The codes of the dynamic pass: too many libraries is a matter of policy, and
      anything else that is wrong one of the table. */
  lemma DynamicCodes(img: seq<U8>, phs: seq<Phdr>, ds: seq<Dyn>)
    ensures DynamicStatus(img, phs, ds) in {Ok, Policy, Dynamic}
    ensures DynamicStatus(img, phs, ds) == Policy <==> |NeededOffsets(Live(ds))| > 8
    ensures var needed := NeededOffsets(Live(ds));
            var va, size := LastValue(Live(ds), 5), LastValue(Live(ds), 10);
            DynamicStatus(img, phs, ds) == Ok <==>
            && |needed| <= 8
            && (exists k :: 0 <= k < |ds| && ds[k].tag == 0)
            && (needed != [] ==>
                  && va != 0 && size != 0 && Translate(phs, va).Some?
                  && var p := Translate(phs, va).value;
                     && size <= p.available && p.offset + size <= |img|
                     && forall i :: 0 <= i < |needed| ==>
                          needed[i] < size && NulWithin(img, p.offset + needed[i], size - needed[i]))
  {
    DynamicStatusOk(img, phs, ds);
    hide NeededOffsets, NameOk, NulWithin, LastValue, Translate;
    TableMeans(phs, Live(ds));
    if StringTable(phs, Live(ds)).Some? {
      var table := StringTable(phs, Live(ds)).value;
      if table.offset + table.available <= |img| {
        forall offset: U64 ensures NameOk(img, table, offset) <==>
            offset < table.available && NulWithin(img, table.offset + offset, table.available - offset)
        {
          NameMeans(img, table, offset);
        }
      }
    }
  }

  // ---------------------------------------------------------------- the whole parse

  /** In which order the three parts of an image are judged. */
  lemma PartsInOrder(img: seq<U8>, allowInterp: bool)
    requires |img| <= MAX64
    ensures HeaderStatus(img) != Ok ==> ParseStatus(img, allowInterp) == HeaderStatus(img)
    ensures HeaderStatus(img) == Ok ==>
              var phs := Phdrs(img);
              var segments := SegmentsStatus(img, allowInterp, phs, |phs|);
              && (segments != Ok ==> ParseStatus(img, allowInterp) == segments)
              && (segments == Ok && (forall i :: 0 <= i < |phs| ==> phs[i].kind != 1) ==>
                    ParseStatus(img, allowInterp) == Segment)
              && (segments == Ok && (exists i :: 0 <= i < |phs| && phs[i].kind == 1) ==>
                    && ((forall i :: 0 <= i < |phs| ==> phs[i].kind != 2) ==> ParseStatus(img, allowInterp) == Ok)
                    && forall i :: 0 <= i < |phs| && phs[i].kind == 2 ==>
                         && DynamicOk(|img|, phs[i])
                         && ParseStatus(img, allowInterp) == DynamicStatus(img, phs, Dyns(img, phs[i])))
  {
    hide HeaderStatus, Phdrs, DynamicStatus, Dyns, SegmentsStatus, DynamicOk, FirstOf, Count;
    if HeaderStatus(img) == Ok {
      var phs := Phdrs(img);
      if SegmentsStatus(img, allowInterp, phs, |phs|) == Ok {
        DynamicAccepted(img, allowInterp, phs);
        CountPositive(phs, IS_LOAD);
        HeadersWellFormed(img, allowInterp, phs, |phs|);
        assert phs[..|phs|] == phs;
        forall i | 0 <= i < |phs| && phs[i].kind == 2 ensures i == FirstOf(phs, PT_DYNAMIC) {
          OnlyDynamic(phs, i);
        }
      }
    }
  }

  // ---------------------------------------------------------------- the summary

  /** The counters as numbers of headers. */
  lemma CountersMean(phs: seq<Phdr>)
    ensures Count(phs, IS_LOAD) == |set i | 0 <= i < |phs| && phs[i].kind == 1|
    ensures Count(phs, IS_WRITABLE) == |set i | 0 <= i < |phs| && phs[i].kind == 1 && phs[i].flags / 2 % 2 == 1|
    ensures Count(phs, IS_EXECUTABLE) == |set i | 0 <= i < |phs| && phs[i].kind == 1 && phs[i].flags % 2 == 1|
    ensures Count(phs, IS_WRITABLE_EXECUTABLE) == |set i | 0 <= i < |phs| && phs[i].kind == 1 && phs[i].flags % 4 == 3|
  {
    CountMeans(phs, IS_LOAD);
    CountMeans(phs, IS_WRITABLE);
    CountMeans(phs, IS_EXECUTABLE);
    CountMeans(phs, IS_WRITABLE_EXECUTABLE);
    hide Count, And;
    forall i | 0 <= i < |phs|
      ensures IS_WRITABLE(phs[i]) <==> phs[i].kind == 1 && phs[i].flags / 2 % 2 == 1
      ensures IS_EXECUTABLE(phs[i]) <==> phs[i].kind == 1 && phs[i].flags % 2 == 1
      ensures IS_WRITABLE_EXECUTABLE(phs[i]) <==> phs[i].kind == 1 && phs[i].flags % 4 == 3
    {
      FlagsMean(phs[i]);
    }
    assert (set i | 0 <= i < |phs| && IS_LOAD(phs[i])) == (set i | 0 <= i < |phs| && phs[i].kind == 1);
    assert (set i | 0 <= i < |phs| && IS_WRITABLE(phs[i])) ==
           (set i | 0 <= i < |phs| && phs[i].kind == 1 && phs[i].flags / 2 % 2 == 1);
    assert (set i | 0 <= i < |phs| && IS_EXECUTABLE(phs[i])) ==
           (set i | 0 <= i < |phs| && phs[i].kind == 1 && phs[i].flags % 2 == 1);
    assert (set i | 0 <= i < |phs| && IS_WRITABLE_EXECUTABLE(phs[i])) ==
           (set i | 0 <= i < |phs| && phs[i].kind == 1 && phs[i].flags % 4 == 3);
  }

  /** The fields a description fixes. */
  lemma SummaryMeans(img: seq<U8>, summary: Summary)
    requires |img| <= MAX64 && HeaderStatus(img) == Ok && summary.Valid() && Describes(summary, img)
    ensures var phs := Phdrs(img);
            && summary.loadSegments == |set i | 0 <= i < |phs| && phs[i].kind == 1|
            && summary.writableLoadSegments == |set i | 0 <= i < |phs| && phs[i].kind == 1 && phs[i].flags / 2 % 2 == 1|
            && summary.executableLoadSegments == |set i | 0 <= i < |phs| && phs[i].kind == 1 && phs[i].flags % 2 == 1|
            && summary.writableExecutableLoadSegments ==
               |set i | 0 <= i < |phs| && phs[i].kind == 1 && phs[i].flags % 4 == 3|
            && summary.hasDynamic in {0, 1} && summary.hasInterp in {0, 1}
            && (summary.hasDynamic == 1 <==> exists i :: 0 <= i < |phs| && phs[i].kind == 2)
            && (summary.hasInterp == 1 <==> exists i :: 0 <= i < |phs| && phs[i].kind == 3)
  {
    hide HeaderStatus, Count, Phdrs, DescribesDynamic;
    CountersMean(Phdrs(img));
    CountPositive(Phdrs(img), IS_DYNAMIC);
    CountPositive(Phdrs(img), IS_INTERP);
  }

  /** The file's own fields and the interpreter's name. */
  lemma FileMeans(img: seq<U8>, summary: Summary)
    requires |img| <= MAX64 && HeaderStatus(img) == Ok && summary.Valid() && Describes(summary, img)
    ensures summary.elfType == Read16(img, 16) && summary.elfMachine == 62 && summary.entry == Read64(img, 24)
    ensures forall i :: 0 <= i < |Phdrs(img)| && Phdrs(img)[i].kind == 3 && InterpOk(img, Phdrs(img)[i]) ==>
              (forall k :: 0 <= k < i ==> Phdrs(img)[k].kind != 3) ==>
                summary.interpreter[..] ==
                Padded(CString(img, Phdrs(img)[i].offset, Phdrs(img)[i].filesz), 96)
    ensures (forall k :: 0 <= k < |Phdrs(img)| ==> Phdrs(img)[k].kind != 3) ==>
              summary.interpreter[..] == Padded([], 96)
  {
    hide Phdrs, DescribesDynamic, Count, InterpOk, CString, Read16, Read64;
    BufferMeans(summary.interpreter[..], InterpName(img, Phdrs(img)));
  }

  /** A name followed by zeros. */
  function Padded(s: seq<U8>, size: nat): (b: seq<U8>)
    requires |s| <= size
    ensures |b| == size
  {
    s + seq(size - |s|, _ => 0)
  }

  lemma BufferMeans(buffer: seq<U8>, s: seq<U8>)
    ensures BufferHolds(buffer, s) <==> |s| < |buffer| && buffer == Padded(s, |buffer|)
  {
    if |s| < |buffer| {
      var p := Padded(s, |buffer|);
      assert p[..|s|] == s;
      if BufferHolds(buffer, s) {
        assert forall i :: 0 <= i < |buffer| ==> buffer[i] == p[i];
      }
    }
  }
}
