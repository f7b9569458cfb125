/** What the script prints, the server finds. */
module NewcRoundTrip {
  import opened Bits
  import opened Newc
  import opened NewcWriter
  import opened NewcLaws

  /** What the archive can hold: printable files, none under the trailer's name. */
  predicate Storable(fs: seq<File>) {
    && AllPrintable(fs)
    && forall i :: 0 <= i < |fs| ==> fs[i].name != "TRAILER!!!"
  }

  /** Index of the first file with this name, or the number of files. */
  function FirstNamed(fs: seq<File>, name: string): (i: nat)
    ensures i <= |fs|
    ensures forall k :: 0 <= k < i ==> fs[k].name != name
    ensures i < |fs| ==> fs[i].name == name
  {
    if fs == [] || fs[0].name == name then 0 else 1 + FirstNamed(fs[1..], name)
  }

  /** The member a file becomes when it is appended to `a`. */
  function Stored(a: seq<U8>, f: File): Member
    requires f.Printable()
  {
    var nameEnd := RoundUp4(|a|) + HEADER_SIZE + |f.name| + 1;
    Member(f.mode, Encode(f.name) + [NUL], Entry(RoundUp4(nameEnd), |f.data|))
  }

  lemma EncodeInjective(s: string, t: string)
    requires Ascii(s) && Ascii(t)
    ensures Encode(s) + [NUL] == Encode(t) + [NUL] <==> s == t
  {
    if Encode(s) + [NUL] == Encode(t) + [NUL] {
      assert |s| == |t|;
      forall i | 0 <= i < |s| ensures s[i] == t[i] {
        assert (Encode(s) + [NUL])[i] == s[i] as int && (Encode(t) + [NUL])[i] == t[i] as int;
      }
    }
  }

  lemma TrailerEncodes()
    ensures Ascii(TRAILER_NAME) && Encode(TRAILER_NAME) == TRAILER
  {
  }

  /** The pieces of one append, by position. */
  lemma AppendedLayout(a: seq<U8>, f: File)
    requires f.Printable()
    ensures var o := RoundUp4(|a|);
            var b := Appended(a, f);
            var m := Stored(a, f);
            && |b| == m.End() && a <= b
            && m.data.start >= o + HEADER_SIZE + |m.name|
            && Header(f.ino, f.mode, |f.data|, |f.name| + 1) == Some(b[o..o + HEADER_SIZE])
            && b[o + HEADER_SIZE..o + HEADER_SIZE + |m.name|] == m.name
            && b[m.data.start..m.End()] == f.data
  {
    HeaderDefined(f.ino, f.mode, |f.data|, |f.name| + 1);
    hide Header, Encode;
    var h := Header(f.ino, f.mode, |f.data|, |f.name| + 1).value;
    var m := Stored(a, f);
    var p := Pad4(a);
    var q := p + h + m.name;
    var r := Pad4(q);
    var b := r + f.data;
    assert q == p + h + Encode(f.name) + [NUL];
    assert b == Appended(a, f);
    hide Pad4, Appended, RoundUp4;
    ConcatParts(p, h, m.name);
    assert q <= b;
    PrefixSlice(b, q, |p|, |p| + HEADER_SIZE);
    PrefixSlice(b, q, |p| + HEADER_SIZE, |q|);
  }

  lemma ConcatParts(p: seq<U8>, h: seq<U8>, n: seq<U8>)
    ensures p <= p + h + n
    ensures (p + h + n)[|p|..|p| + |h|] == h
    ensures (p + h + n)[|p| + |h|..|p + h + n|] == n
  {
  }

  /** A printed member is read back wherever enough bytes follow its name. */
  lemma AppendedMember(a: seq<U8>, f: File, archive: seq<U8>)
    requires f.Printable()
    requires Appended(a, f) <= archive
    requires RoundUp4(|a|) + HEADER_SIZE + |f.name| + 4 <= |archive|
    ensures MemberAt(archive, RoundUp4(|a|)) == Some(Stored(a, f))
    ensures Stored(a, f).End() <= |archive|
    ensures archive[Stored(a, f).data.start..Stored(a, f).End()] == f.data
  {
    hide Appended, Header, Field, MemberAt, Encode, RoundUp4, HexValue;
    AppendedLayout(a, f);
    AppendedHeader(a, f, archive);
    var b := Appended(a, f);
    var nameStart := RoundUp4(|a|) + HEADER_SIZE;
    PrefixSlice(archive, b, nameStart, nameStart + |f.name| + 1);
    PrefixSlice(archive, b, Stored(a, f).data.start, Stored(a, f).End());
    MemberFromParts(archive, RoundUp4(|a|), Stored(a, f));
  }

  lemma AppendedHeader(a: seq<U8>, f: File, archive: seq<U8>)
    requires f.Printable() && Appended(a, f) <= archive
    ensures var o := RoundUp4(|a|);
            && o + HEADER_SIZE <= |archive|
            && archive[o..o + 6] == MAGIC
            && Field(archive, o + 14) == Some(f.mode)
            && Field(archive, o + 54) == Some(|f.data|)
            && Field(archive, o + 94) == Some(|f.name| + 1)
  {
    hide Appended, Header, Field, Encode, RoundUp4;
    HeaderPlace(a, f);
    HeaderFields(f.ino, f.mode, |f.data|, |f.name| + 1);
    var o := RoundUp4(|a|);
    var b := Appended(a, f);
    PrefixSlice(archive, b, o, o + HEADER_SIZE);
    HeaderMoves(archive, o, b[o..o + HEADER_SIZE]);
  }

  lemma HeaderPlace(a: seq<U8>, f: File)
    requires f.Printable()
    ensures var o, b := RoundUp4(|a|), Appended(a, f);
            && o + HEADER_SIZE <= |b|
            && Header(f.ino, f.mode, |f.data|, |f.name| + 1) == Some(b[o..o + HEADER_SIZE])
  {
    AppendedLayout(a, f);
    hide Appended, Header;
  }

  lemma HeaderMoves(archive: seq<U8>, o: nat, h: seq<U8>)
    requires |h| == HEADER_SIZE && o + HEADER_SIZE <= |archive| && archive[o..o + HEADER_SIZE] == h
    ensures archive[o..o + 6] == h[..6]
    ensures Field(archive, o + 14) == Field(h, 14)
    ensures Field(archive, o + 54) == Field(h, 54)
    ensures Field(archive, o + 94) == Field(h, 94)
  {
    hide Field;
    FieldMoves(archive, o, h, 14);
    FieldMoves(archive, o, h, 54);
    FieldMoves(archive, o, h, 94);
  }

  lemma MemberFromParts(a: seq<U8>, o: nat, m: Member)
    requires o % 4 == 0 && o + HEADER_SIZE <= |a| && a[o..o + 6] == MAGIC
    requires Field(a, o + 14) == Some(m.mode) && Field(a, o + 54) == Some(m.data.size)
    requires Field(a, o + 94) == Some(|m.name|) && |m.name| > 0
    requires o + HEADER_SIZE + |m.name| + 3 <= |a| && m.End() <= |a|
    requires m.name == a[o + HEADER_SIZE..o + HEADER_SIZE + |m.name|]
    requires m.data.start == RoundUp4(o + HEADER_SIZE + |m.name|)
    ensures MemberAt(a, o) == Some(m)
  {
    hide Field;
  }

  lemma PrefixSlice(s: seq<U8>, p: seq<U8>, i: nat, j: nat)
    requires p <= s && i <= j <= |p|
    ensures s[i..j] == p[i..j]
  {
  }

  lemma FieldMoves(archive: seq<U8>, o: nat, h: seq<U8>, at: nat)
    requires o + |h| <= |archive| && archive[o..o + |h|] == h && at + 8 <= |h|
    ensures Field(archive, o + at) == Field(h, at)
  {
    hide HexValue, AllHex;
    var u, v := archive[o + at..o + at + 8], h[at..at + 8];
    forall i | 0 <= i < 8 ensures u[i] == v[i] {
      assert archive[o..o + |h|][at + i] == h[at + i];
    }
    assert u == v;
  }

  lemma {:induction false} BodyGrows(fs: seq<File>, k: nat)
    requires AllPrintable(fs) && k <= |fs|
    ensures AllPrintable(fs[..k]) && Body(fs[..k]) <= Body(fs)
  {
    if k == |fs| {
      assert fs[..k] == fs;
    } else {
      var init := fs[..|fs| - 1];
      BodyGrows(init, k);
      assert init[..k] == fs[..k];
      AppendedLayout(Body(init), fs[|fs| - 1]);
    }
  }

  /** The members of the archive, the trailer last. */
  function Members(fs: seq<File>): (ms: seq<Member>)
    requires AllPrintable(fs) && |fs| + 1 < WRAP32
    ensures |ms| == |fs| + 1
  {
    seq(|fs| + 1, k requires 0 <= k <= |fs| =>
      assert AllPrintable(fs[..k]);
      Stored(Body(fs[..k]), if k < |fs| then fs[k] else TrailerFile(|fs| + 1)))
  }

  /** The printed archive is exactly a chain of its members: each file's header
      lies where the one before it ends, and carries that file's data. */
  lemma MembersChained(fs: seq<File>)
    requires AllPrintable(fs) && |fs| + 1 < WRAP32
    ensures Chained(Archive(fs), Members(fs))
    ensures forall k :: 0 <= k < |fs| ==>
              var m := Members(fs)[k];
              && m.mode == fs[k].mode
              && m.name == Encode(fs[k].name) + [NUL]
              && m.End() <= |Archive(fs)|
              && Archive(fs)[m.data.start..m.End()] == fs[k].data
    ensures Members(fs)[|fs|].name == TRAILER + [NUL]
  {
    hide MemberAt, Archive, Members, Encode, Offset;
    var a, ms := Archive(fs), Members(fs);
    forall k | 0 <= k <= |fs|
      ensures MemberAt(a, Offset(ms, k)) == Some(ms[k])
      ensures ms[k].End() <= |a|
      ensures k < |fs| ==> ms[k].End() + 3 <= |a|
      ensures k < |fs| ==> a[ms[k].data.start..ms[k].End()] == fs[k].data
      ensures k < |fs| ==> ms[k].name == Encode(fs[k].name) + [NUL] && ms[k].mode == fs[k].mode
      ensures k == |fs| ==> ms[k].name == TRAILER + [NUL]
    {
      MemberPrinted(fs, k);
      MemberShape(fs, k);
    }
  }

  lemma MemberShape(fs: seq<File>, k: nat)
    requires AllPrintable(fs) && |fs| + 1 < WRAP32 && k <= |fs|
    ensures k < |fs| ==>
              Members(fs)[k].name == Encode(fs[k].name) + [NUL] && Members(fs)[k].mode == fs[k].mode
    ensures k == |fs| ==> Members(fs)[k].name == TRAILER + [NUL]
  {
    BodyGrows(fs, k);
    TrailerEncodes();
    hide Body, Encode;
  }

  lemma MemberPrinted(fs: seq<File>, k: nat)
    requires AllPrintable(fs) && |fs| + 1 < WRAP32 && k <= |fs|
    ensures var a, ms := Archive(fs), Members(fs);
            && MemberAt(a, Offset(ms, k)) == Some(ms[k])
            && ms[k].End() <= |a|
            && (k < |fs| ==> ms[k].End() + 3 <= |a|)
            && (k < |fs| ==> a[ms[k].data.start..ms[k].End()] == fs[k].data)
  {
    hide MemberAt, Appended, Body, Archive, Encode, Offset;
    var a, ms := Archive(fs), Members(fs);
    var f := if k < |fs| then fs[k] else TrailerFile(|fs| + 1);
    MemberOffset(fs, k);
    ArchiveAfter(fs, k);
    BodyGrows(fs, k);
    AppendedLayout(Body(fs[..k]), f);
    AppendedMember(Body(fs[..k]), f, a);
  }

  /** Member k starts where the body of the first k files, padded, ends. */
  lemma MemberOffset(fs: seq<File>, k: nat)
    requires AllPrintable(fs) && |fs| + 1 < WRAP32 && k <= |fs|
    ensures AllPrintable(fs[..k])
    ensures Offset(Members(fs), k) == RoundUp4(|Body(fs[..k])|)
  {
    BodyGrows(fs, k);
    if k > 0 {
      BodyGrows(fs, k - 1);
      assert fs[..k][..k - 1] == fs[..k - 1];
      AppendedLayout(Body(fs[..k - 1]), fs[k - 1]);
    }
  }

  /** Whatever follows file k, the trailer leaves its 124 bytes after it. */
  lemma ArchiveAfter(fs: seq<File>, k: nat)
    requires AllPrintable(fs) && |fs| + 1 < WRAP32 && k <= |fs|
    ensures AllPrintable(fs[..k])
    ensures var f := if k < |fs| then fs[k] else TrailerFile(|fs| + 1);
            var b := Appended(Body(fs[..k]), f);
            && b <= Archive(fs)
            && |b| + (if k < |fs| then 124 else 0) <= |Archive(fs)|
            && (k == |fs| ==> |Archive(fs)| == RoundUp4(|Body(fs)|) + 124)
  {
    hide Appended, Archive, Encode;
    ArchiveEnd(fs);
    BodyGrows(fs, k);
    if k < |fs| {
      BodyGrows(fs, k + 1);
      assert fs[..k + 1][..k] == fs[..k];
      assert Body(fs[..k + 1]) == Appended(Body(fs[..k]), fs[k]);
    } else {
      assert fs[..k] == fs;
    }
  }

  lemma ArchiveEnd(fs: seq<File>)
    requires AllPrintable(fs) && |fs| + 1 < WRAP32
    ensures var b := Appended(Body(fs), TrailerFile(|fs| + 1));
            && b <= Archive(fs)
            && Body(fs) <= Archive(fs)
            && |b| == |Archive(fs)| == RoundUp4(|Body(fs)|) + 124
  {
    var t := TrailerFile(|fs| + 1);
    var a := Body(fs);
    AppendedLayout(a, t);
    TrailerLength(|a|);
    assert Stored(a, t).End() == RoundUp4(|a|) + 124;
    hide Appended, Encode, Body, Header, Stored;
  }

  lemma TrailerLength(n: nat)
    ensures RoundUp4(RoundUp4(n) + HEADER_SIZE + |TRAILER_NAME| + 1) == RoundUp4(n) + 124
    ensures RoundUp4(RoundUp4(n) + 124) == RoundUp4(n) + 124
  {
  }

  /** The law of the archive: looking up a name in what was printed answers with
      the data of the first file of that name, when that file is regular (its mode
      has 1000 in bits 12 to 15) and among the first sixteen, and with nothing
      otherwise. */
  lemma RoundTrip(fs: seq<File>, name: string)
    requires Storable(fs) && |fs| + 1 < WRAP32
    requires Ascii(name)
    ensures var a, i, r := Archive(fs), FirstNamed(fs, name), Lookup(Archive(fs), Encode(name));
            if i < |fs| && i < 16 && fs[i].mode / 0x1000 % 16 == 8 then
              r.Some? && a[r.value.start..r.value.start + r.value.size] == fs[i].data
            else
              r == None
  {
    hide MemberAt, Archive, Members, Encode, Chained, Lookup;
    MembersChained(fs);
    NamesDiffer(fs, name);
    FirstSelected(Archive(fs), Encode(name), Members(fs), FirstNamed(fs, name));
    var i := FirstNamed(fs, name);
    if i < |fs| {
      RegularMeans(fs[i].mode);
    }
  }

  lemma NamesDiffer(fs: seq<File>, name: string)
    requires Storable(fs) && |fs| + 1 < WRAP32 && Ascii(name)
    ensures forall k :: 0 <= k < |fs| ==>
              && Members(fs)[k].name != TRAILER + [NUL]
              && (k < FirstNamed(fs, name) ==> Members(fs)[k].name != Encode(name) + [NUL])
              && (k == FirstNamed(fs, name) ==> Members(fs)[k].name == Encode(name) + [NUL])
  {
    MembersChained(fs);
    hide Members, Encode, Archive, Chained, FirstNamed;
    TrailerEncodes();
    forall k | 0 <= k < |fs|
      ensures Members(fs)[k].name != TRAILER + [NUL]
      ensures Members(fs)[k].name == Encode(name) + [NUL] <==> fs[k].name == name
    {
      EncodeInjective(fs[k].name, name);
      EncodeInjective(fs[k].name, TRAILER_NAME);
    }
  }

  /** Looking a name up in a chain that ends with the trailer. */
  lemma FirstSelected(a: seq<U8>, pathname: seq<U8>, ms: seq<Member>, i: nat)
    requires Chained(a, ms) && ms != [] && i < |ms|
    requires ms[|ms| - 1].name == TRAILER + [NUL]
    requires forall k :: 0 <= k < |ms| - 1 ==> ms[k].name != TRAILER + [NUL]
    requires forall k :: 0 <= k < i ==> ms[k].name != pathname + [NUL]
    requires i < |ms| - 1 ==> ms[i].name == pathname + [NUL]
    ensures Lookup(a, pathname) ==
            if i < |ms| - 1 && i < MAX_ENTRIES && ms[i].Regular() then Some(ms[i].data) else None
  {
    hide MemberAt, Lookup, And, Offset;
    var n := if i < |ms| - 1 && i < MAX_ENTRIES then i + 1
             else if |ms| <= MAX_ENTRIES then |ms| else MAX_ENTRIES;
    var seen := ms[..n];
    ChainPrefix(a, ms, n);
    hide Chained;
    assert forall k :: 0 <= k < n ==> seen[k] == ms[k];
    if i < |ms| - 1 && i < MAX_ENTRIES && ms[i].Regular() {
      LastSelected(a, pathname, seen);
    } else {
      NothingSelected(a, pathname, seen);
    }
  }

  /** Nothing behind a trailer is ever found, whatever the archive holds there. */
  lemma TrailerStops(a: seq<U8>, pathname: seq<U8>, ms: seq<Member>, k: nat)
    requires Chained(a, ms) && k < |ms|
    requires ms[k].name == Encode("TRAILER!!!") + [0]
    requires forall i :: 0 <= i < k ==> ms[i].name != pathname + [0]
    ensures Lookup(a, pathname) == None
  {
    TrailerEncodes();
    hide MemberAt, Lookup, Encode, Offset;
    ChainPrefix(a, ms, k + 1);
    hide Chained;
    var seen := ms[..k + 1];
    assert seen[k] == ms[k];
    NothingSelected(a, pathname, seen);
  }

  lemma ChainPrefix(a: seq<U8>, ms: seq<Member>, k: nat)
    requires Chained(a, ms) && k <= |ms|
    ensures Chained(a, ms[..k])
  {
    hide MemberAt;
    forall j | 0 <= j < k ensures MemberAt(a, Offset(ms[..k], j)) == Some(ms[..k][j]) {
      assert Offset(ms[..k], j) == Offset(ms, j);
    }
  }
}
