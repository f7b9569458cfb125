/** Copies between root and one page of a user address space
    (src/domain_manager.c:197-330).  Addresses are 64-bit words; the tests are the
    source's own wrap-around sums and masks. */
module UserCopy {
  import opened Bits

  const PAGE: nat := 4096
  const MAX_WRITE: nat := 127
  const WORD: nat := 8

  type Page = s: seq<U8> | |s| == PAGE witness seq(PAGE, i => 0)

  /** The mapped pages by their base address. */
  type Pages = map<nat, Page>

  // ---------------------------------------------------------------- meaning

  /** What the user sees at an address. */
  function ByteAt(pages: Pages, address: nat): Option<U8> {
    var base := address - address % PAGE;
    if base in pages then Some(pages[base][address % PAGE]) else None
  }

  /** The bytes lie in one mapped page and end below the top of the address space. */
  predicate InOnePage(pages: Pages, address: nat, length: nat) {
    && length >= 1 && address + length < WRAP64
    && address / 4096 == (address + length - 1) / 4096
    && address / 4096 * 4096 in pages
  }

  /** `after` holds `bytes` at the address and is `before` everywhere else. */
  ghost predicate Wrote(before: Pages, after: Pages, address: nat, bytes: seq<U8>) {
    && before.Keys == after.Keys
    && forall x: nat :: ByteAt(after, x) ==
                        if address <= x < address + |bytes| then Some(bytes[x - address]) else ByteAt(before, x)
  }

  /** The first NUL of the string is at n. */
  predicate EndsAt(s: seq<U8>, n: nat) {
    n < |s| && s[n] == 0 && forall i :: 0 <= i < n ==> s[i] != 0
  }

  /** The user has exactly this string, with its NUL, at the address. */
  predicate StringAt(pages: Pages, address: nat, s: seq<U8>, n: nat)
    requires n < |s|
  {
    forall i :: 0 <= i <= n ==> ByteAt(pages, address + i) == Some(s[i])
  }

  // ---------------------------------------------------------------- masks

  const MASK: U64 := Not64(PAGE - 1)

  lemma MaskIsDivision(a: U64)
    ensures And(a, MASK) == a / PAGE * PAGE == a - a % PAGE
  {
    Pow2Values();
    AndNot64(a, 12);
  }

  /** The source's two tests, a sum that does not wrap and equal masked ends, together
      say that the bytes end below the top and do not leave their page. */
  predicate Tests(a: U64, length: U64) {
    Add64(a, length) >= a && And(Sub64(Add64(a, length), 1), MASK) == And(a, MASK)
  }

  lemma TestsAreDivision(a: U64, length: U64)
    requires length >= 1
    ensures Tests(a, length) <==> a + length < WRAP64 && a / PAGE == (a + length - 1) / PAGE
  {
    hide And;
    SumWraps(a, length);
    MaskIsDivision(a);
    if a + length < WRAP64 {
      MaskIsDivision(a + length - 1);
    }
  }

  lemma SumWraps(a: U64, length: U64)
    requires length >= 1
    ensures Add64(a, length) >= a <==> a + length < WRAP64
    ensures a + length < WRAP64 ==> Add64(a, length) == a + length && Sub64(a + length, 1) == a + length - 1
  {
  }

  /** With the page lookup they are exactly the meaning, and give the place in the page. */
  lemma TestsExact(pages: Pages, a: U64, length: U64)
    ensures length >= 1 && Tests(a, length) && And(a, MASK) in pages <==> InOnePage(pages, a, length)
    ensures And(a, MASK) % PAGE == 0 && And(a, MASK) <= a
    ensures InOnePage(pages, a, length) ==> a + length <= And(a, MASK) + PAGE && length <= PAGE
  {
    hide And, Tests;
    MaskIsDivision(a);
    if length >= 1 {
      TestsAreDivision(a, length);
    }
  }

  // ---------------------------------------------------------------- writing byte by byte

  lemma ByteInPage(pages: Pages, base: nat, x: nat)
    requires base % PAGE == 0 && base in pages && base <= x < base + PAGE
    ensures ByteAt(pages, x) == Some(pages[base][x - base])
  {
    DivModUnique(x, PAGE, base / PAGE, x - base);
  }

  lemma WroteNothing(pages: Pages, address: nat)
    ensures Wrote(pages, pages, address, [])
  {
  }

  /** Storing one more byte after those already written. */
  lemma WroteOneMore(before: Pages, pages: Pages, base: nat, address: nat, bytes: seq<U8>, b: U8)
    requires Wrote(before, pages, address, bytes)
    requires base % PAGE == 0 && base in pages && base <= address && address + |bytes| < base + PAGE
    ensures Wrote(before, pages[base := pages[base][address + |bytes| - base := b]], address, bytes + [b])
  {
    var page: Page := pages[base][address + |bytes| - base := b];
    var after := pages[base := page];
    forall x: nat
      ensures ByteAt(after, x) ==
              if address <= x < address + |bytes| + 1 then Some((bytes + [b])[x - address]) else ByteAt(before, x)
    {
      assert ByteAt(pages, x) ==
             if address <= x < address + |bytes| then Some(bytes[x - address]) else ByteAt(before, x);
      if base <= x < base + PAGE {
        ByteInPage(pages, base, x);
        ByteInPage(after, base, x);
      } else {
        assert x - x % PAGE != base;
      }
    }
  }

  /** Two strings cannot both be at one address. */
  lemma OneStringAt(pages: Pages, address: nat, s: seq<U8>, n: nat, t: seq<U8>, k: nat)
    requires EndsAt(s, n) && EndsAt(t, k) && StringAt(pages, address, s, n) && StringAt(pages, address, t, k)
    ensures n == k && s[..n + 1] == t[..k + 1]
  {
    var least := if n < k then n else k;
    assert ByteAt(pages, address + least) == Some(s[least]) == Some(t[least]);
    assert forall i :: 0 <= i <= n ==> Some(s[i]) == ByteAt(pages, address + i) == Some(t[i]);
  }

  /** The user process whose pages root may duplicate; `duplicates` counts the page
      copies that root currently has mapped. */
  class Probe {
    var pages: Pages
    var duplicates: nat

    constructor (initial: Pages)
      ensures pages == initial && duplicates == 0
    {
      pages, duplicates := initial, 0;
    }

    /** `sel4utils_dup_and_map`, which may fail. */
    method Duplicate(granted: bool)
      modifies `duplicates
      ensures duplicates == old(duplicates) + if granted then 1 else 0
    {
      duplicates := duplicates + if granted then 1 else 0;
    }

    method Undo()
      requires duplicates > 0
      modifies `duplicates
      ensures duplicates == old(duplicates) - 1
    {
      duplicates := duplicates - 1;
    }

    /** `has_linux_user_word_page`. */
    method HasWordPage(address: U64) returns (ok: bool)
      ensures ok <==> address != 0 && InOnePage(pages, address, 8)
    {
      hide And, Add64, Sub64, InOnePage;
      TestsExact(pages, address, WORD);
      ok := address != 0 && Add64(address, WORD) >= address
            && And(Sub64(Add64(address, WORD), 1), MASK) == And(address, MASK)
            && And(address, MASK) in pages;
    }

    /** `copy_linux_write_buffer`. */
    method WriteBuffer(address: U64, length: U64, output: array<U8>, granted: bool) returns (ok: bool)
      requires output.Length == 128
      modifies output, `duplicates
      ensures duplicates == old(duplicates)
      ensures ok <==> length <= 127 && InOnePage(pages, address, length) && granted
      ensures ok ==> (forall i :: 0 <= i < length ==> ByteAt(pages, address + i) == Some(output[i]))
                     && output[length] == 0
                     && forall i :: length < i < output.Length ==> output[i] == old(output[i])
      ensures !ok ==> output[..] == old(output[..])
    {
      hide And, Add64, Sub64, InOnePage, ByteAt, Wrote, FromLittleEndian, LittleEndian;
      var base := And(address, MASK);
      TestsExact(pages, address, length);
      if length == 0 || length > MAX_WRITE || Add64(address, length) < address
         || And(Sub64(Add64(address, length), 1), MASK) != base || base !in pages {
        return false;
      }
      Duplicate(granted);
      if !granted {
        return false;
      }
      var index := 0;
      while index < length
        invariant 0 <= index <= length && duplicates == old(duplicates) + 1
        invariant forall i :: 0 <= i < index ==> ByteAt(pages, address + i) == Some(output[i])
        invariant forall i :: index <= i < output.Length ==> output[i] == old(output[i])
      {
        ByteInPage(pages, base, address + index);
        output[index] := pages[base][address - base + index];
        index := index + 1;
      }
      output[length] := 0;
      Undo();
      return true;
    }

    /** `copy_linux_exact_string`: true exactly when the literal, at most 126 bytes
        long, and its NUL are at the address, in one mapped page. */
    method ExactString(address: U64, expected: array?<U8>, granted: bool) returns (ok: bool)
      requires expected != null ==> exists n: nat :: EndsAt(expected[..], n)
      modifies `duplicates
      ensures duplicates == old(duplicates)
      ensures expected == null ==> !ok
      ensures forall n: nat :: expected != null && EndsAt(expected[..], n) ==>
                (ok <==> n < 127 && granted && InOnePage(pages, address, n + 1)
                         && StringAt(pages, address, expected[..], n))
    {
      if expected == null {
        return false;
      }
      ghost var s := expected[..];
      ghost var end: nat :| EndsAt(s, end);
      assert forall n: nat :: EndsAt(s, n) ==> n == end;
      var length := 0;
      while length < MAX_WRITE && expected[length] != 0
        invariant 0 <= length <= MAX_WRITE && length <= end
      {
        assert s[length] != 0;
        length := length + 1;
      }
      if length == MAX_WRITE {
        return false;
      }
      assert length == end by { assert s[length] == 0; }
      var copied := new U8[MAX_WRITE + 1](i => 0);
      var read := WriteBuffer(address, length + 1, copied, granted);
      if !read {
        return false;
      }
      var index := 0;
      while index <= length
        invariant 0 <= index <= length + 1
        invariant forall i :: 0 <= i < index ==> ByteAt(pages, address + i) == Some(s[i])
      {
        assert ByteAt(pages, address + index) == Some(copied[index]);
        if copied[index] != expected[index] {
          assert s[index] != copied[index];
          return false;
        }
        index := index + 1;
      }
      return true;
    }

    /** `copy_linux_bytes_to_user`. */
    method BytesToUser(address: U64, source: array?<U8>, length: U64, granted: bool) returns (ok: bool)
      requires source != null ==> length <= source.Length
      modifies `pages, `duplicates
      ensures duplicates == old(duplicates)
      ensures ok <==> source != null && InOnePage(old(pages), address, length) && granted
      ensures ok ==> Wrote(old(pages), pages, address, source[..length])
      ensures !ok ==> pages == old(pages)
    {
      hide And, Add64, Sub64, InOnePage, ByteAt, Wrote, FromLittleEndian, LittleEndian;
      var base := And(address, MASK);
      TestsExact(pages, address, length);
      if source == null || length == 0 || length > PAGE || Add64(address, length) < address
         || And(Sub64(Add64(address, length), 1), MASK) != base || base !in pages {
        return false;
      }
      Duplicate(granted);
      if !granted {
        return false;
      }
      WroteNothing(pages, address);
      var index := 0;
      while index < length
        invariant 0 <= index <= length && duplicates == old(duplicates) + 1
        invariant source != null && source[..] == old(source[..])
        invariant base in pages && Wrote(old(pages), pages, address, source[..index])
      {
        WroteOneMore(old(pages), pages, base, address, source[..index], source[index]);
        assert source[..index] + [source[index]] == source[..index + 1];
        pages := pages[base := pages[base][address - base + index := source[index]]];
        index := index + 1;
      }
      Undo();
      return true;
    }

    /** `copy_linux_word_to_user`: one store, least significant byte first. */
    method WordToUser(address: U64, value: U64, granted: bool) returns (ok: bool)
      modifies `pages, `duplicates
      ensures duplicates == old(duplicates)
      ensures ok <==> InOnePage(old(pages), address, 8) && granted
      ensures ok ==> exists bytes: seq<U8> :: |bytes| == 8 && FromLittleEndian(bytes) == value
                                              && Wrote(old(pages), pages, address, bytes)
      ensures !ok ==> pages == old(pages)
    {
      hide And, Add64, Sub64, InOnePage, ByteAt, Wrote, FromLittleEndian, LittleEndian;
      var base := And(address, MASK);
      TestsExact(pages, address, WORD);
      if Add64(address, WORD) < address || And(Sub64(Add64(address, WORD), 1), MASK) != base || base !in pages {
        return false;
      }
      Duplicate(granted);
      if !granted {
        return false;
      }
      var bytes := LittleEndian(value, WORD);
      pages := pages[base := Spliced(pages[base], address - base, bytes)];
      SplicedWrote(old(pages), base, address, bytes);
      Pow2Values();
      WordReadsBack(value, WORD);
      Undo();
      return true;
    }
  }

  function Spliced(page: Page, offset: nat, bytes: seq<U8>): Page
    requires offset + |bytes| <= PAGE
  {
    page[..offset] + bytes + page[offset + |bytes|..]
  }

  lemma SplicedWrote(before: Pages, base: nat, address: nat, bytes: seq<U8>)
    requires base % PAGE == 0 && base in before && base <= address && address + |bytes| <= base + PAGE
    ensures Wrote(before, before[base := Spliced(before[base], address - base, bytes)], address, bytes)
  {
    var after := before[base := Spliced(before[base], address - base, bytes)];
    forall x: nat
      ensures ByteAt(after, x) ==
              if address <= x < address + |bytes| then Some(bytes[x - address]) else ByteAt(before, x)
    {
      if base <= x < base + PAGE {
        ByteInPage(before, base, x);
        ByteInPage(after, base, x);
      } else {
        assert x - x % PAGE != base;
      }
    }
  }
}
