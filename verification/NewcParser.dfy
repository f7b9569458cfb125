/** The archive reader of servers/romfsd.c.  Sizes and offsets are 64-bit
    `size_t` values; every sum is taken the way the source takes it. */
module NewcParser {
  import opened Bits
  import opened Newc

  function AddBounded(size: U64, first: U64, second: U64): Option<U64> {
    if first > size || second > size - first then None else Some(first + second)
  }

  function Align4Bounded(size: U64, offset: U64): Option<U64> {
    if offset > size || offset > Sub64(size, 3) then None
    else AddBounded(size, 0, And(Add64(offset, 3), Not64(3)))
  }

  /** An accepted sum is the integer sum and stays inside the archive. */
  lemma AddBoundedExact(size: U64, first: U64, second: U64)
    ensures AddBounded(size, first, second) ==
            if first + second <= size then Some(first + second) else None
  {
  }

  /** Rounding up never wraps: it is refused exactly when three more bytes would
      leave the archive, except that an archive shorter than three bytes still
      accepts offset zero. */
  lemma Align4BoundedExact(size: U64, offset: U64)
    ensures Align4Bounded(size, offset) ==
            if offset + 3 <= size || (size < 3 && offset == 0) then Some(RoundUp4(offset)) else None
  {
    hide And;
    if offset + 3 <= MAX64 {
      RoundUp4ByMask(offset);
    }
  }

  lemma RoundUp4ByMask(offset: U64)
    requires offset + 3 <= MAX64
    ensures And(Add64(offset, 3), Not64(3)) == RoundUp4(offset)
  {
    hide And;
    AndNot64(offset + 3, 2);
    assert WRAP64 - Pow2(2) == Not64(3) && (offset + 3) % Pow2(2) == (offset + 3) % 4;
  }

  /** Shifting a nibble into a number of fewer than eight digits loses nothing. */
  lemma ShiftInNibble(parsed: nat, index: nat, nibble: nat)
    requires index < 8 && parsed < Pow2(4 * index) && nibble < 16
    ensures Or(parsed * 16 % WRAP64, nibble) == parsed * 16 + nibble < Pow2(4 * (index + 1)) <= WRAP32
  {
    hide Or, Pow2;
    Pow2Values();
    Pow2Add(4, 4 * index);
    Pow2Monotone(4 * (index + 1), 32);
    OrShifted(parsed, 4, nibble);
  }

  lemma HexValueStep(a: seq<U8>, at: nat, n: nat)
    requires at + n < |a| && AllHex(a[at..at + n]) && IsHexDigit(a[at + n])
    ensures AllHex(a[at..at + n + 1])
    ensures HexValue(a[at..at + n + 1]) == HexValue(a[at..at + n]) * 16 + DigitValue(a[at + n])
  {
    var s := a[at..at + n + 1];
    assert s[..n] == a[at..at + n] && s[n] == a[at + n];
  }

  method ParseHex8(a: seq<U8>, at: nat) returns (ok: bool, value: U64)
    requires at + 8 <= |a|
    ensures ok <==> AllHex(a[at..at + 8])
    ensures ok ==> value == HexValue(a[at..at + 8])
  {
    var parsed: U64 := 0;
    assert HexValue([]) == 0 && Pow2(0) == 1;
    hide HexValue, Or, Pow2;
    value := 0;
    for index := 0 to 8
      invariant AllHex(a[at..at + index])
      invariant parsed == HexValue(a[at..at + index])
      invariant parsed < Pow2(4 * index)
    {
      var digit := a[at + index];
      var nibble: nat;
      assert digit == a[at..at + 8][index];
      if digit >= 0x30 && digit <= 0x39 {
        nibble := digit - 0x30;
      } else if digit >= 0x61 && digit <= 0x66 {
        nibble := digit - 0x61 + 10;
      } else if digit >= 0x41 && digit <= 0x46 {
        nibble := digit - 0x41 + 10;
      } else {
        return false, 0;
      }
      HexValueStep(a, at, index);
      ShiftInNibble(parsed, index, nibble);
      parsed := Or(parsed * 16 % WRAP64, nibble);
    }
    return true, parsed;
  }

  /** True exactly when the name field is the literal followed by one NUL. */
  method LiteralEquals(a: seq<U8>, name: nat, nameSize: nat, literal: seq<U8>) returns (r: bool)
    requires name + nameSize <= |a| && NulFree(literal)
    ensures r <==> a[name..name + nameSize] == literal + [NUL]
  {
    var field := a[name..name + nameSize];
    if nameSize == 0 || a[name + nameSize - 1] != NUL {
      assert nameSize > 0 ==> field[|field| - 1] != (literal + [NUL])[|literal|];
      return false;
    }
    var index := 0;
    while index < |literal|
      invariant 0 <= index <= |literal| && index < nameSize
      invariant field[..index] == literal[..index]
    {
      if index + 1 >= nameSize || a[name + index] != literal[index] {
        assert field[index] == a[name + index];
        assert (literal + [NUL])[index] == literal[index];
        return false;
      }
      index := index + 1;
    }
    assert field == field[..index] + field[index..];
    return index + 1 == nameSize;
  }

  method MagicIsNewc(a: seq<U8>, header: nat) returns (r: bool)
    requires header + 6 <= |a|
    ensures r <==> a[header..header + 6] == MAGIC
  {
    assert a[header..header + 6] ==
           [a[header], a[header + 1], a[header + 2], a[header + 3], a[header + 4], a[header + 5]];
    return a[header] == 0x30 && a[header + 1] == 0x37 && a[header + 2] == 0x30 &&
      a[header + 3] == 0x37 && a[header + 4] == 0x30 && a[header + 5] == 0x31;
  }

  /** One pass over a header: it answers with the member at `offset`, or finds
      that there is none. */
  method ReadMember(a: seq<U8>, offset: nat) returns (r: Option<Member>)
    requires |a| <= MAX64 && offset <= |a| && offset % 4 == 0
    ensures r == MemberAt(a, offset)
  {
    hide HexValue, AllHex, And;
    var headerEnd := AddBounded(|a|, offset, HEADER_SIZE);
    if headerEnd.None? {
      return None;
    }
    var magic := MagicIsNewc(a, offset);
    if !magic {
      return None;
    }
    var modeOk, mode := ParseHex8(a, offset + 14);
    if !modeOk {
      return None;
    }
    var sizeOk, fileSize := ParseHex8(a, offset + 54);
    if !sizeOk {
      return None;
    }
    var nameOk, nameSize := ParseHex8(a, offset + 94);
    if !nameOk || nameSize == 0 {
      return None;
    }
    var nameStart := headerEnd.value;
    var nameEnd := AddBounded(|a|, nameStart, nameSize);
    if nameEnd.None? {
      return None;
    }
    Align4BoundedExact(|a|, nameEnd.value);
    var dataStart := Align4Bounded(|a|, nameEnd.value);
    if dataStart.None? {
      return None;
    }
    var dataEnd := AddBounded(|a|, dataStart.value, fileSize);
    if dataEnd.None? {
      return None;
    }
    return Some(Member(mode, a[nameStart..nameEnd.value], Entry(dataStart.value, fileSize)));
  }

  /** For every archive and every pathname: the entry the format defines. */
  method CpioLookupRegular(a: seq<U8>, pathname: seq<U8>) returns (r: Option<Entry>)
    requires |a| <= MAX64 && NulFree(pathname)
    ensures r == Lookup(a, pathname)
  {
    hide MemberAt, Lookup, And, Chained, Selects, Offset, Pow2, Align4Bounded, RoundUp4;
    StartChain(a);
    var offset: nat := 0;
    ghost var seen: seq<Member> := [];
    for member := 0 to MAX_ENTRIES
      invariant |seen| == member && Chained(a, seen)
      invariant offset == Offset(seen, |seen|) && offset <= |a| && offset % 4 == 0
      invariant seen != [] ==> seen[|seen| - 1].End() + 3 <= |a|
      invariant forall k :: 0 <= k < |seen| ==>
                  seen[k].name != pathname + [NUL] && seen[k].name != TRAILER + [NUL]
    {
      Align4BoundedExact(|a|, offset);
      var aligned := Align4Bounded(|a|, offset);
      if aligned.None? {
        NoMemberPastEnd(a, offset);
        NothingSelected(a, pathname, seen);
        return None;
      }
      assert aligned.value == offset;
      offset := aligned.value;
      var found := ReadMember(a, offset);
      if found.None? {
        NothingSelected(a, pathname, seen);
        return None;
      }
      var m := found.value;
      var nameStart := offset + HEADER_SIZE;
      MemberInside(a, offset, m);
      ghost var chain := seen + [m];
      ExtendChain(a, seen, m);
      var isTrailer := LiteralEquals(a, nameStart, |m.name|, TRAILER);
      if isTrailer {
        NothingSelected(a, pathname, chain);
        return None;
      }
      var isPath := LiteralEquals(a, nameStart, |m.name|, pathname);
      if isPath {
        if And(m.mode, MODE_TYPE_MASK) != MODE_REGULAR {
          NothingSelected(a, pathname, chain);
          return None;
        }
        LastSelected(a, pathname, chain);
        return Some(m.data);
      }
      Align4BoundedExact(|a|, m.End());
      var next := Align4Bounded(|a|, m.End());
      if next.None? {
        NothingSelected(a, pathname, chain);
        return None;
      }
      offset := next.value;
      seen := chain;
    }
    NothingSelected(a, pathname, seen);
    return None;
  }
}
