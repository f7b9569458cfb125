/** The "New ASCII Format" of cpio(5), as the embedded archive uses it: what it
    means for bytes to hold a member, for members to be chained, and for a
    pathname to select one of them.  Nothing here computes an offset step by
    step; the parser is proved against these definitions. */
module Newc {
  import opened Bits

  const HEADER_SIZE: nat := 110
  const MAX_ENTRIES: nat := 16
  const MODE_REGULAR: nat := 0x8000    // 0100000
  const MODE_TYPE_MASK: nat := 0xf000  // 0170000
  const MAGIC: seq<U8> := [0x30, 0x37, 0x30, 0x37, 0x30, 0x31]  // "070701"
  const TRAILER: seq<U8> := [0x54, 0x52, 0x41, 0x49, 0x4c, 0x45, 0x52, 0x21, 0x21, 0x21]  // "TRAILER!!!"
  const NUL: U8 := 0

  /** The bytes of an ASCII string; `str.encode("ascii")` accepts no other. */
  predicate Ascii(s: string) {
    forall i :: 0 <= i < |s| ==> s[i] as int < 0x80
  }

  function Encode(s: string): (b: seq<U8>)
    requires Ascii(s)
    ensures |b| == |s|
  {
    seq(|s|, i requires 0 <= i < |s| => s[i] as int)
  }

  /** A slice of the archive: `data` and `size` of the C entry. */
  datatype Entry = Entry(start: nat, size: nat)

  /** One archive member; `name` is the whole name field, terminator included. */
  datatype Member = Member(mode: nat, name: seq<U8>, data: Entry) {
    function End(): nat {
      data.start + data.size
    }

    predicate Regular() {
      And(mode, MODE_TYPE_MASK) == MODE_REGULAR
    }
  }

  function RoundUp4(n: nat): (r: nat)
    ensures n <= r < n + 4 && r % 4 == 0
  {
    (n + 3) / 4 * 4
  }

  predicate IsHexDigit(d: U8) {
    0x30 <= d <= 0x39 || 0x61 <= d <= 0x66 || 0x41 <= d <= 0x46
  }

  function DigitValue(d: U8): (v: nat)
    requires IsHexDigit(d)
    ensures v < 16
  {
    if d <= 0x39 then d - 0x30 else if d >= 0x61 then d - 0x61 + 10 else d - 0x41 + 10
  }

  predicate AllHex(s: seq<U8>) {
    forall i :: 0 <= i < |s| ==> IsHexDigit(s[i])
  }

  /** The number a run of hexadecimal digits denotes. */
  function HexValue(s: seq<U8>): nat
    requires AllHex(s)
  {
    if s == [] then 0 else HexValue(s[..|s| - 1]) * 16 + DigitValue(s[|s| - 1])
  }

  /** The number in the eight-digit field at `at`. */
  function Field(a: seq<U8>, at: nat): Option<nat>
    requires at + 8 <= |a|
  {
    if AllHex(a[at..at + 8]) then Some(HexValue(a[at..at + 8])) else None
  }

  predicate NulFree(s: seq<U8>) {
    forall i :: 0 <= i < |s| ==> s[i] != NUL
  }

  /** The member whose header lies at offset `o`, if the bytes there hold one:
      the magic, three hexadecimal fields, a non-empty name and data inside the
      archive.  The three spare bytes after the name are what the reader insists
      on before it rounds an offset up, even when that offset is aligned. */
  function MemberAt(a: seq<U8>, o: nat): Option<Member> {
    if o % 4 != 0 || o + HEADER_SIZE > |a| || a[o..o + 6] != MAGIC then
      None
    else
      var mode, size, nameSize := Field(a, o + 14), Field(a, o + 54), Field(a, o + 94);
      if mode.None? || size.None? || nameSize.None? || nameSize.value == 0 then
        None
      else
        var nameStart := o + HEADER_SIZE;
        var nameEnd := nameStart + nameSize.value;
        var start := RoundUp4(nameEnd);
        if nameEnd + 3 <= |a| && start + size.value <= |a| then
          Some(Member(mode.value, a[nameStart..nameEnd], Entry(start, size.value)))
        else
          None
  }

  /** Where the header of member k of a chain lies. */
  function Offset(ms: seq<Member>, k: nat): nat
    requires k <= |ms|
  {
    if k == 0 then 0 else RoundUp4(ms[k - 1].End())
  }

  /** The archive starts with the members `ms`, each at the aligned end of the
      one before. */
  predicate Chained(a: seq<U8>, ms: seq<Member>) {
    && (forall k {:trigger Offset(ms, k)} :: 0 <= k < |ms| ==> MemberAt(a, Offset(ms, k)) == Some(ms[k]))
    && (forall k :: 0 <= k < |ms| - 1 ==> ms[k].End() + 3 <= |a|)
  }

  /** The last member of `ms` is the first one called `pathname`, it comes before
      the trailer and within the entry limit, and it is a regular file. */
  predicate Selects(a: seq<U8>, pathname: seq<U8>, ms: seq<Member>) {
    && Chained(a, ms)
    && 1 <= |ms| <= MAX_ENTRIES
    && (forall k :: 0 <= k < |ms| ==> ms[k].name != TRAILER + [NUL])
    && (forall k :: 0 <= k < |ms| - 1 ==> ms[k].name != pathname + [NUL])
    && ms[|ms| - 1].name == pathname + [NUL]
    && ms[|ms| - 1].Regular()
  }

  /** The entry a pathname selects, if any. */
  ghost function Lookup(a: seq<U8>, pathname: seq<U8>): (r: Option<Entry>)
    ensures r.Some? <==> exists ms: seq<Member> :: Selects(a, pathname, ms)
    ensures forall ms: seq<Member> :: Selects(a, pathname, ms) ==> r == Some(ms[|ms| - 1].data)
    ensures r.Some? ==> r.value.start + r.value.size <= |a|
  {
    if exists ms: seq<Member> :: Selects(a, pathname, ms) then
      var ms: seq<Member> :| Selects(a, pathname, ms);
      SelectionsUnique(a, pathname, ms);
      Some(ms[|ms| - 1].data)
    else
      None
  }

  /** An archive starts with at most one chain of each length. */
  lemma {:induction false} ChainAgrees(a: seq<U8>, ms: seq<Member>, ns: seq<Member>, k: nat)
    requires Chained(a, ms) && Chained(a, ns)
    requires k <= |ms| && k <= |ns|
    ensures forall i :: 0 <= i < k ==> ms[i] == ns[i]
  {
    if k > 0 {
      ChainAgrees(a, ms, ns, k - 1);
      assert Offset(ns, k - 1) == Offset(ms, k - 1);
    }
  }

  lemma SelectionUnique(a: seq<U8>, pathname: seq<U8>, ms: seq<Member>, ns: seq<Member>)
    requires Selects(a, pathname, ms) && Selects(a, pathname, ns)
    ensures ms == ns
  {
    var k := if |ms| <= |ns| then |ms| else |ns|;
    ChainAgrees(a, ms, ns, k);
    assert ms[k - 1] == ns[k - 1];
  }

  lemma SelectionsUnique(a: seq<U8>, pathname: seq<U8>, ms: seq<Member>)
    requires Selects(a, pathname, ms)
    ensures forall ns: seq<Member> :: Selects(a, pathname, ns) ==> ns == ms
    ensures ms[|ms| - 1].End() <= |a|
  {
    assert MemberAt(a, Offset(ms, |ms| - 1)) == Some(ms[|ms| - 1]);
    forall ns: seq<Member> | Selects(a, pathname, ns) ensures ns == ms {
      SelectionUnique(a, pathname, ms, ns);
    }
  }

  /** Why a search that has read the chain `seen` can stop empty-handed. */
  ghost predicate Exhausted(a: seq<U8>, pathname: seq<U8>, seen: seq<Member>) {
    || |seen| == MAX_ENTRIES
    || (seen != [] && seen[|seen| - 1].name == TRAILER + [NUL])
    || (seen != [] && seen[|seen| - 1].name == pathname + [NUL] && !seen[|seen| - 1].Regular())
    || (seen != [] && seen[|seen| - 1].End() + 3 > |a|)
    || MemberAt(a, Offset(seen, |seen|)).None?
  }

  lemma NothingSelected(a: seq<U8>, pathname: seq<U8>, seen: seq<Member>)
    requires Chained(a, seen)
    requires forall k :: 0 <= k < |seen| - 1 ==> seen[k].name != pathname + [NUL]
    requires seen != [] && seen[|seen| - 1].name == pathname + [NUL] ==>
               seen[|seen| - 1].name == TRAILER + [NUL] || !seen[|seen| - 1].Regular()
    requires Exhausted(a, pathname, seen)
    ensures Lookup(a, pathname) == None
  {
    forall ms: seq<Member> ensures !Selects(a, pathname, ms) {
      if Chained(a, ms) {
        if |ms| <= |seen| {
          ChainAgrees(a, ms, seen, |ms|);
        } else {
          ChainBeyond(a, seen, ms);
        }
      }
    }
  }

  lemma ChainBeyond(a: seq<U8>, seen: seq<Member>, ms: seq<Member>)
    requires Chained(a, seen) && Chained(a, ms) && |ms| > |seen|
    ensures forall k :: 0 <= k < |seen| ==> ms[k] == seen[k]
    ensures seen != [] ==> seen[|seen| - 1].End() + 3 <= |a|
    ensures MemberAt(a, Offset(seen, |seen|)) == Some(ms[|seen|])
  {
    ChainAgrees(a, ms, seen, |seen|);
    assert Offset(ms, |seen|) == Offset(seen, |seen|);
    assert |seen| > 0 ==> ms[|seen| - 1].End() + 3 <= |a|;
  }

  lemma NoMemberPastEnd(a: seq<U8>, o: nat)
    ensures o + HEADER_SIZE > |a| ==> MemberAt(a, o) == None
  {
  }

  lemma MemberInside(a: seq<U8>, o: nat, m: Member)
    requires MemberAt(a, o) == Some(m)
    ensures o + HEADER_SIZE + |m.name| <= |a|
    ensures m.name == a[o + HEADER_SIZE..o + HEADER_SIZE + |m.name|]
    ensures m.End() <= |a|
  {
  }

  lemma StartChain(a: seq<U8>)
    ensures Chained(a, []) && Offset([], 0) == 0
  {
  }

  lemma LastSelected(a: seq<U8>, pathname: seq<U8>, ms: seq<Member>)
    requires Chained(a, ms) && 1 <= |ms| <= MAX_ENTRIES && ms[|ms| - 1].Regular()
    requires forall k :: 0 <= k < |ms| ==> ms[k].name != TRAILER + [NUL]
    requires forall k :: 0 <= k < |ms| - 1 ==> ms[k].name != pathname + [NUL]
    requires ms[|ms| - 1].name == pathname + [NUL]
    ensures Lookup(a, pathname) == Some(ms[|ms| - 1].data)
  {
    hide Chained, Lookup;
    assert Selects(a, pathname, ms);
  }

  lemma ExtendChain(a: seq<U8>, seen: seq<Member>, m: Member)
    requires Chained(a, seen) && MemberAt(a, Offset(seen, |seen|)) == Some(m)
    requires seen != [] ==> seen[|seen| - 1].End() + 3 <= |a|
    ensures Chained(a, seen + [m])
    ensures Offset(seen + [m], |seen| + 1) == RoundUp4(m.End())
  {
    hide MemberAt;
    var chain := seen + [m];
    forall k | 0 <= k < |chain| ensures MemberAt(a, Offset(chain, k)) == Some(chain[k]) {
      assert Offset(chain, k) == Offset(seen, k);
    }
  }
}
