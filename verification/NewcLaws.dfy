/** The archive format in characters and numbers: digits, the fields of a header,
    and the constants the reader and the printer share. */
module NewcLaws {
  import opened Bits
  import opened Newc
  import opened NewcWriter

  // ---------------------------------------------------------------- digits

  /** The hexadecimal digits are 0 to 9, A to F and a to f, and no other byte. */
  lemma DigitsMean(d: U8)
    ensures IsHexDigit(d) <==> 48 <= d < 58 || 65 <= d < 71 || 97 <= d < 103
    ensures 48 <= d < 58 ==> DigitValue(d) == d - 48
    ensures 65 <= d < 71 ==> DigitValue(d) == d - 55 == DigitValue(d + 32)
  {
  }

  lemma LastDigit(s: seq<U8>, d: U8)
    ensures AllHex(s + [d]) <==> AllHex(s) && IsHexDigit(d)
    ensures AllHex(s + [d]) ==> HexValue(s + [d]) == 16 * HexValue(s) + DigitValue(d)
  {
    var t := s + [d];
    assert t[..|t| - 1] == s && t[|t| - 1] == d;
    assert forall i :: 0 <= i < |s| ==> t[i] == s[i];
  }

  /** Digits before other digits weigh a power of sixteen more. */
  lemma {:induction false} DigitsWeigh(s: seq<U8>, t: seq<U8>)
    requires AllHex(s) && AllHex(t)
    ensures AllHex(s + t) && HexValue(s + t) == HexValue(s) * Pow2(4 * |t|) + HexValue(t)
    decreases |t|
  {
    if t == [] {
      assert s + t == s && Pow2(0) == 1;
    } else {
      var n := |t| - 1;
      var d := t[n];
      assert t == t[..n] + [d] && s + t == (s + t[..n]) + [d];
      LastDigit(t[..n], d);
      hide HexValue, AllHex, Pow2;
      DigitsWeigh(s, t[..n]);
      LastDigit(s + t[..n], d);
      Pow2Values();
      Pow2Add(4, 4 * n);
      Weights(HexValue(s), Pow2(4 * n), HexValue(t[..n]), DigitValue(d));
    }
  }

  lemma Weights(v: nat, w: nat, u: nat, d: nat)
    ensures 16 * (v * w + u) + d == v * (16 * w) + (16 * u + d)
  {
    assert 16 * (v * w) == v * (16 * w);
  }

  /** Upper and lower case denote the same number. */
  lemma {:induction false} CaseIgnored(s: seq<U8>, t: seq<U8>)
    requires |s| == |t|
    requires forall i :: 0 <= i < |s| ==> t[i] == if 65 <= s[i] < 71 then s[i] + 32 else s[i]
    ensures AllHex(s) <==> AllHex(t)
    ensures AllHex(s) ==> HexValue(s) == HexValue(t)
  {
    if s != [] {
      var n := |s| - 1;
      CaseIgnored(s[..n], t[..n]);
      DigitsMean(s[n]);
      assert forall i :: 0 <= i < |s| ==> (IsHexDigit(s[i]) <==> IsHexDigit(t[i]));
    }
  }

  // ---------------------------------------------------------------- headers

  /** A member is a regular file iff the four bits from bit 12 up are 1000. */
  lemma RegularMeans(mode: nat)
    ensures And(mode, MODE_TYPE_MASK) == MODE_REGULAR <==> mode / 0x1000 % 16 == 8
  {
    hide And, Pow2;
    Pow2Values();
    var low := mode % 0x1_0000;
    AndLowByte(mode, MODE_TYPE_MASK, 16);
    AndHighMask(low, 12, 16);
    Nibbles(mode);
  }

  lemma Nibbles(v: nat)
    ensures v % 0x1_0000 - v % 0x1_0000 % 0x1000 == v / 0x1000 % 16 * 0x1000
  {
    var q, r := v / 0x1_0000, v % 0x1_0000;
    assert v == q * 0x1_0000 + r;
    DivModUnique(v, 0x1000, q * 16 + r / 0x1000, r % 0x1000);
    DivModUnique(v / 0x1000, 16, q, r / 0x1000);
  }

  /** What bytes are a member, position by position: the data follows the name at the
      next multiple of four. */
  lemma MemberExact(a: seq<U8>, o: nat, m: Member)
    ensures MemberAt(a, o) == Some(m) <==>
            && o % 4 == 0 && o + 110 <= |a| && a[o..o + 6] == [48, 55, 48, 55, 48, 49]
            && Field(a, o + 14) == Some(m.mode) && Field(a, o + 54) == Some(m.data.size)
            && Field(a, o + 94) == Some(|m.name|) && 1 <= |m.name| && o + 110 + |m.name| + 3 <= |a|
            && m.name == a[o + 110..o + 110 + |m.name|]
            && m.data.start % 4 == 0 && 0 <= m.data.start - (o + 110 + |m.name|) < 4
            && m.data.start + m.data.size <= |a|
  {
    hide Field;
    if o + 110 <= |a| && Field(a, o + 94).Some? {
      var end := o + 110 + Field(a, o + 94).value;
      assert forall x: nat :: x % 4 == 0 && 0 <= x - end < 4 ==> x == RoundUp4(end);
    }
  }

  /** What a header holds, position by position. */
  lemma HeaderShape(ino: nat, mode: nat, size: nat, nameSize: nat)
    requires ino < WRAP32 && mode < WRAP32 && size < WRAP32 && nameSize < WRAP32
    ensures Header(ino, mode, size, nameSize).Some?
    ensures var h := Header(ino, mode, size, nameSize).value;
            && |h| == 110 && h[..6] == [48, 55, 48, 55, 48, 49]
            && h[6..14] == Hex8(ino) && h[14..22] == Hex8(mode) && h[22..30] == h[30..38] == Hex8(0)
            && h[38..46] == Hex8(1) && h[46..54] == Hex8(0) && h[54..62] == Hex8(size)
            && h[62..70] == h[70..78] == h[78..86] == h[86..94] == Hex8(0)
            && h[94..102] == Hex8(nameSize) && h[102..110] == Hex8(0)
  {
    HeaderDefined(ino, mode, size, nameSize);
    var fs: seq<nat> := [ino, mode, 0, 0, 1, 0, size, 0, 0, 0, 0, nameSize, 0];
    hide Fields, Hex8;
    FieldStands(fs, 0);
    FieldStands(fs, 1);
    FieldStands(fs, 2);
    FieldStands(fs, 3);
    FieldStands(fs, 4);
    FieldStands(fs, 5);
    FieldStands(fs, 6);
    FieldStands(fs, 7);
    FieldStands(fs, 8);
    FieldStands(fs, 9);
    FieldStands(fs, 10);
    FieldStands(fs, 11);
    FieldStands(fs, 12);
  }

  lemma FieldStands(fs: seq<nat>, i: nat)
    requires i < |fs| && forall k :: 0 <= k < |fs| ==> fs[k] < WRAP32
    ensures |Fields(fs)| == 8 * |fs| && (MAGIC + Fields(fs))[6 + 8 * i..6 + 8 * i + 8] == Hex8(fs[i])
  {
    FieldAt(fs, i);
    hide Fields, Hex8;
    assert (MAGIC + Fields(fs))[6 + 8 * i..6 + 8 * i + 8] == Fields(fs)[8 * i..8 * i + 8];
  }

  /** Printed digits are decimal or lower case, so a printed field is the only such
      text of eight characters that reads as its number. */
  lemma LowerCase(n: nat)
    ensures forall i :: 0 <= i < |Hex8(n)| ==> 48 <= Hex8(n)[i] < 58 || 97 <= Hex8(n)[i] < 103
  {
    HexLowerCase(n);
  }

  lemma {:induction false} HexLowerCase(n: nat)
    ensures forall i :: 0 <= i < |Hex(n)| ==> 48 <= Hex(n)[i] < 58 || 97 <= Hex(n)[i] < 103
  {
    if n >= 16 {
      HexLowerCase(n / 16);
    }
  }

  lemma {:induction false} OnlyText(s: seq<U8>, t: seq<U8>)
    requires |s| == |t| && AllHex(s) && AllHex(t) && HexValue(s) == HexValue(t)
    requires forall i :: 0 <= i < |s| ==> !(65 <= s[i] < 71) && !(65 <= t[i] < 71)
    ensures s == t
  {
    if s != [] {
      var n := |s| - 1;
      assert s == s[..n] + [s[n]] && t == t[..n] + [t[n]];
      LastDigit(s[..n], s[n]);
      LastDigit(t[..n], t[n]);
      SameDigits(HexValue(s[..n]), HexValue(t[..n]), DigitValue(s[n]), DigitValue(t[n]));
      SameDigit(s[n], t[n]);
      hide HexValue, AllHex, DigitValue;
      OnlyText(s[..n], t[..n]);
    }
  }

  lemma SameDigits(x: nat, y: nat, d: nat, e: nat)
    requires d < 16 && e < 16 && 16 * x + d == 16 * y + e
    ensures x == y && d == e
  {
  }

  lemma SameDigit(d: U8, e: U8)
    requires IsHexDigit(d) && IsHexDigit(e) && !(65 <= d < 71) && !(65 <= e < 71)
    ensures DigitValue(d) == DigitValue(e) ==> d == e
  {
  }

  /** The names of the format's constants, in characters. */
  lemma Characters()
    ensures TRAILER == ['T' as int, 'R' as int, 'A' as int, 'I' as int, 'L' as int, 'E' as int, 'R' as int,
                        '!' as int, '!' as int, '!' as int]
    ensures MAGIC == ['0' as int, '7' as int, '0' as int, '7' as int, '0' as int, '1' as int]
  {
  }
}
