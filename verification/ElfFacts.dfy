/** What acceptance by the metadata parser means. */
module ElfFacts {
  import opened Bits
  import opened Elf
  import opened ElfParser

  // ---------------------------------------------------------------- acceptance

  /** Each header is acceptable on its own. */
  predicate EachHeaderOk(img: seq<U8>, allowInterp: bool, phs: seq<Phdr>)
    requires |img| <= MAX64
  {
    forall i :: 0 <= i < |phs| ==>
      && (phs[i].kind == PT_LOAD ==> LoadOk(|img|, phs[i]))
      && (phs[i].kind == PT_INTERP ==> allowInterp && InterpOk(img, phs[i]))
      && (phs[i].kind == PT_DYNAMIC ==> DynamicOk(|img|, phs[i]))
  }

  /** Not too many of any kind. */
  predicate HeaderCountsOk(phs: seq<Phdr>) {
    && Count(phs, IS_LOAD) <= MAX_LOAD_SEGMENTS
    && Count(phs, IS_INTERP) <= 1
    && Count(phs, IS_DYNAMIC) <= 1
  }

  /** The dynamic table ends, names at most eight libraries, and each of their
      names is a string of the string table. */
  predicate DynamicTableOk(img: seq<U8>, phs: seq<Phdr>, ds: seq<Dyn>) {
    var live := Live(ds);
    var needed := NeededOffsets(live);
    && (exists k :: 0 <= k < |ds| && ds[k].tag == DT_NULL)
    && |needed| <= MAX_NEEDED
    && (needed != [] ==>
          && StringTable(phs, live).Some?
          && var table := StringTable(phs, live).value;
             && table.offset + table.available <= |img|
             && forall i :: 0 <= i < |needed| ==> NameOk(img, table, needed[i]))
  }

  /** A well-formed image, with no order of checking in it. */
  predicate WellFormed(img: seq<U8>, allowInterp: bool)
    requires |img| <= MAX64
  {
    && HeaderStatus(img) == Ok
    && var phs := Phdrs(img);
       && EachHeaderOk(img, allowInterp, phs)
       && HeaderCountsOk(phs)
       && Count(phs, IS_LOAD) >= 1
       && (forall i :: 0 <= i < |phs| && phs[i].kind == PT_DYNAMIC && DynamicOk(|img|, phs[i]) ==>
             DynamicTableOk(img, phs, Dyns(img, phs[i])))
  }

  lemma {:induction false} HeadersWellFormed(img: seq<U8>, allowInterp: bool, phs: seq<Phdr>, n: nat)
    requires |img| <= MAX64 && n <= |phs|
    ensures SegmentsStatus(img, allowInterp, phs, n) == Ok <==>
            EachHeaderOk(img, allowInterp, phs[..n]) && HeaderCountsOk(phs[..n])
  {
    hide LoadOk, InterpOk, DynamicOk, Count;
    if n > 0 {
      var before, ph := phs[..n - 1], phs[n - 1];
      HeadersWellFormed(img, allowInterp, phs, n - 1);
      assert phs[..n] == before + [ph];
      CountsExtend(before, ph);
      EachHeaderExtends(img, allowInterp, before, ph);
    } else {
      NoCounts();
    }
  }

  lemma NoCounts()
    ensures Count([], IS_LOAD) == Count([], IS_INTERP) == Count([], IS_DYNAMIC) == 0
  {
  }

  lemma EachHeaderExtends(img: seq<U8>, allowInterp: bool, before: seq<Phdr>, ph: Phdr)
    requires |img| <= MAX64
    ensures EachHeaderOk(img, allowInterp, before + [ph]) <==>
            EachHeaderOk(img, allowInterp, before) && EachHeaderOk(img, allowInterp, [ph])
  {
    hide LoadOk, InterpOk, DynamicOk;
    var s := before + [ph];
    assert forall i :: 0 <= i < |before| ==> s[i] == before[i];
    assert s[|before|] == ph == [ph][0];
  }

  lemma DynamicStatusOk(img: seq<U8>, phs: seq<Phdr>, ds: seq<Dyn>)
    ensures DynamicStatus(img, phs, ds) == Ok <==> DynamicTableOk(img, phs, ds)
  {
    hide NameOk, StringTable, NeededOffsets;
    assert FirstNull(ds) < |ds| <==> exists k :: 0 <= k < |ds| && ds[k].tag == DT_NULL;
  }

  /** With at most one dynamic header, it is the first one. */
  lemma {:induction false} OnlyDynamic(phs: seq<Phdr>, i: nat)
    requires Count(phs, IS_DYNAMIC) <= 1 && i < |phs| && phs[i].kind == PT_DYNAMIC
    ensures FirstOf(phs, PT_DYNAMIC) == i
  {
    var init, last := phs[..|phs| - 1], phs[|phs| - 1];
    assert phs == init + [last];
    CountsExtend(init, last);
    FirstOfExtend(init, last, PT_DYNAMIC);
    if i < |init| {
      CountFrom(init, PT_DYNAMIC, IS_DYNAMIC);
      OnlyDynamic(init, i);
    }
  }

  /** The parser accepts exactly the well-formed images. */
  lemma AcceptedIffWellFormed(img: seq<U8>, allowInterp: bool)
    requires |img| <= MAX64
    ensures ParseStatus(img, allowInterp) == Ok <==> WellFormed(img, allowInterp)
  {
    hide Phdrs, SegmentsStatus, EachHeaderOk, DynamicTableOk, DynamicStatus, Dyns, Count, FirstOf;
    if HeaderStatus(img) == Ok {
      hide HeaderStatus;
      var phs := Phdrs(img);
      HeadersWellFormed(img, allowInterp, phs, |phs|);
      assert phs[..|phs|] == phs;
      if SegmentsStatus(img, allowInterp, phs, |phs|) == Ok {
        DynamicAccepted(img, allowInterp, phs);
        forall i | 0 <= i < |phs| && phs[i].kind == PT_DYNAMIC ensures i == FirstOf(phs, PT_DYNAMIC) {
          OnlyDynamic(phs, i);
        }
        if DynamicOf(phs).Some? {
          DynamicStatusOk(img, phs, Dyns(img, DynamicOf(phs).value));
        }
      }
    }
  }

  // ---------------------------------------------------------------- translation

  /** The loadable segments lie in the file. */
  predicate SegmentsInFile(size: U64, phs: seq<Phdr>) {
    forall i :: 0 <= i < |phs| && phs[i].kind == PT_LOAD ==> RangeValid(size, phs[i].offset, phs[i].filesz)
  }

  /** Translating an address through accepted headers never wraps: the place is
      the segment's offset plus the distance into it, and what is available there
      still lies in the file. */
  lemma {:induction false} TranslationInFile(size: U64, phs: seq<Phdr>, va: U64)
    requires SegmentsInFile(size, phs)
    ensures Translate(phs, va).Some? <==> exists i :: 0 <= i < |phs| && Covers(phs[i], va)
    ensures Translate(phs, va).Some? ==>
              var p := Translate(phs, va).value;
              && p.offset + p.available <= size
              && exists i :: 0 <= i < |phs| && Covers(phs[i], va)
                   && (forall k :: 0 <= k < i ==> !Covers(phs[k], va))
                   && p.offset == phs[i].offset + (va - phs[i].vaddr)
                   && p.available == phs[i].filesz - (va - phs[i].vaddr)
  {
    if phs != [] {
      var rest := phs[1..];
      assert forall k :: 0 <= k < |rest| ==> rest[k] == phs[k + 1];
      if Covers(phs[0], va) {
        assert RangeValid(size, phs[0].offset, phs[0].filesz);
      } else {
        TranslationInFile(size, rest, va);
        if Translate(phs, va).Some? {
          var p := Translate(phs, va).value;
          var j :| 0 <= j < |rest| && Covers(rest[j], va)
                   && (forall k :: 0 <= k < j ==> !Covers(rest[k], va))
                   && p.offset == rest[j].offset + (va - rest[j].vaddr)
                   && p.available == rest[j].filesz - (va - rest[j].vaddr);
          assert Covers(phs[j + 1], va);
          forall k | 0 <= k < j + 1 ensures !Covers(phs[k], va) {
            assert k > 0 ==> rest[k - 1] == phs[k];
          }
        } else {
          forall k | 0 <= k < |phs| ensures !Covers(phs[k], va) {
            assert k > 0 ==> rest[k - 1] == phs[k];
          }
        }
      }
    }
  }

  /** So the parser's last range check can never be the one that fails. */
  lemma StringTableInFile(img: seq<U8>, allowInterp: bool, live: seq<Dyn>)
    requires |img| <= MAX64 && HeaderStatus(img) == Ok
    requires SegmentsStatus(img, allowInterp, Phdrs(img), |Phdrs(img)|) == Ok
    ensures StringTable(Phdrs(img), live).Some? ==>
              var table := StringTable(Phdrs(img), live).value;
              table.offset + table.available <= |img|
  {
    var phs := Phdrs(img);
    HeadersWellFormed(img, allowInterp, phs, |phs|);
    assert phs[..|phs|] == phs;
    hide Phdrs, HeaderStatus, SegmentsStatus, LastValue, Translate;
    assert SegmentsInFile(|img|, phs);
    TranslationInFile(|img|, phs, LastValue(live, DT_STRTAB));
  }

  // ---------------------------------------------------------------- load policy

  /** No loadable segment is both writable and executable, and no entry before the
      first null asks for text relocations. */
  ghost predicate SafeToLoad(img: seq<U8>)
    requires |img| <= MAX64 && HeaderStatus(img) == Ok
  {
    var phs := Phdrs(img);
    && (forall i :: 0 <= i < |phs| && phs[i].kind == PT_LOAD ==> !(phs[i].Has(PF_W) && phs[i].Has(PF_X)))
    && (DynamicOf(phs).Some? ==>
          && DynamicOk(|img|, DynamicOf(phs).value)
          && var ds := Dyns(img, DynamicOf(phs).value);
             forall k :: 0 <= k < FirstNull(ds) ==> !TextrelEntry(ds[k]))
  }

  /** `selinos_elfrt_validate_initial_load_policy`: given the summary of an accepted
      image, the verdict is about the image itself. */
  method ValidateInitialLoadPolicy(summary: Summary?) returns (status: Status)
    requires summary != null ==> summary.Valid()
    ensures status == Argument <==> summary == null
    ensures summary != null ==>
              forall img: seq<U8> ::
                |img| <= MAX64 && HeaderStatus(img) == Ok && Describes(summary, img) ==>
                  status == if SafeToLoad(img) then Ok else Policy
  {
    hide HeaderStatus, Describes, SafeToLoad;
    if summary == null {
      return Argument;
    }
    forall img: seq<U8> | |img| <= MAX64 && HeaderStatus(img) == Ok && Describes(summary, img)
      ensures summary.hasTextrel == 0 && summary.writableExecutableLoadSegments == 0 <==> SafeToLoad(img)
    {
      PolicyMeaning(img, summary);
    }
    if summary.hasTextrel != 0 || summary.writableExecutableLoadSegments != 0 {
      return Policy;
    }
    return Ok;
  }

  lemma {:induction false} CountZero(phs: seq<Phdr>, p: Phdr -> bool)
    ensures Count(phs, p) == 0 <==> forall i :: 0 <= i < |phs| ==> !p(phs[i])
  {
    if phs != [] {
      CountZero(phs[..|phs| - 1], p);
      assert forall i :: 0 <= i < |phs| - 1 ==> phs[..|phs| - 1][i] == phs[i];
    }
  }

  /** The two fields the policy looks at tell whether the described image is safe. */
  lemma PolicyMeaning(img: seq<U8>, summary: Summary)
    requires |img| <= MAX64 && HeaderStatus(img) == Ok && summary.Valid()
    requires Describes(summary, img)
    ensures summary.hasTextrel == 0 && summary.writableExecutableLoadSegments == 0 <==> SafeToLoad(img)
  {
    var phs := Phdrs(img);
    CountZero(phs, IS_WRITABLE_EXECUTABLE);
    assert forall ph: Phdr :: IS_WRITABLE_EXECUTABLE(ph) <==> ph.kind == PT_LOAD && ph.Has(PF_W) && ph.Has(PF_X);
    hide Phdrs, HeaderStatus, TextrelEntry, RowsHold, Count;
    if DynamicOf(phs).Some? {
      var ds := Dyns(img, DynamicOf(phs).value);
      assert forall k :: 0 <= k < FirstNull(ds) ==> Live(ds)[k] == ds[k];
    }
  }
}
