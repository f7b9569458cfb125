/** The archive printer of tools/generate_romfs_cpio_fixture.py. */
module NewcWriter {
  import opened Bits
  import opened Newc

  function Zeros(n: nat): (z: seq<U8>)
    ensures |z| == n
  {
    seq(n, _ => 0)
  }

  /** Padding to a multiple of four; Python's `-n & 3` is `-n` modulo four. */
  function Pad4(a: seq<U8>): (r: seq<U8>)
    ensures a <= r && |r| == RoundUp4(|a|)
  {
    a + Zeros((-|a|) % 4)
  }

  function HexDigit(v: nat): (d: U8)
    requires v < 16
    ensures IsHexDigit(d) && DigitValue(d) == v
  {
    if v < 10 then 0x30 + v else 0x61 + v - 10
  }

  function Hex(n: nat): (s: seq<U8>)
    ensures |s| > 0
    decreases n
  {
    if n < 16 then [HexDigit(n)] else Hex(n / 16) + [HexDigit(n % 16)]
  }

  /** `f"{n:08x}"`. */
  function Hex8(n: nat): (s: seq<U8>)
    ensures |s| >= 8
  {
    var s := Hex(n);
    seq(if |s| < 8 then 8 - |s| else 0, _ => 0x30) + s
  }

  function Fields(fs: seq<nat>): seq<U8> {
    if fs == [] then [] else Fields(fs[..|fs| - 1]) + Hex8(fs[|fs| - 1])
  }

  /** The thirteen header fields; the header is refused unless it comes out 110
      bytes long. */
  function Header(ino: nat, mode: nat, size: nat, nameSize: nat): (r: Option<seq<U8>>)
    ensures r.Some? ==> |r.value| == HEADER_SIZE
  {
    var encoded := MAGIC + Fields([ino, mode, 0, 0, 1, 0, size, 0, 0, 0, 0, nameSize, 0]);
    if |encoded| != HEADER_SIZE then None else Some(encoded)
  }

  datatype File = File(ino: nat, mode: nat, name: string, data: seq<U8>) {
    predicate Printable() {
      && Ascii(name)
      && ino < WRAP32 && mode < WRAP32 && |data| < WRAP32 && |name| + 1 < WRAP32
    }
  }

  /** What one append turns the archive into. */
  function Appended(a: seq<U8>, f: File): seq<U8>
    requires f.Printable()
  {
    HeaderDefined(f.ino, f.mode, |f.data|, |f.name| + 1);
    Pad4(Pad4(a) + Header(f.ino, f.mode, |f.data|, |f.name| + 1).value + Encode(f.name) + [NUL]) + f.data
  }

  predicate AllPrintable(fs: seq<File>) {
    forall i :: 0 <= i < |fs| ==> fs[i].Printable()
  }

  function Body(fs: seq<File>): seq<U8>
    requires AllPrintable(fs)
  {
    if fs == [] then [] else Appended(Body(fs[..|fs| - 1]), fs[|fs| - 1])
  }

  const TRAILER_NAME := "TRAILER!!!"

  function TrailerFile(ino: nat): File {
    File(ino, 0, TRAILER_NAME, [])
  }

  /** The whole archive: the files, the trailer, and the final padding. */
  function Archive(fs: seq<File>): seq<U8>
    requires |fs| + 1 < WRAP32
    requires AllPrintable(fs)
  {
    Pad4(Appended(Body(fs), TrailerFile(|fs| + 1)))
  }

  /** The bytearray the script extends in place. */
  class ArchiveBuffer {
    var data: seq<U8>

    constructor ()
      ensures data == []
    {
      data := [];
    }

    method Align4()
      modifies this
      ensures data == Pad4(old(data))
    {
      data := data + Zeros((-|data|) % 4);
    }

    /** An exception leaves behind what was written before it: nothing when the
        name cannot be encoded, the padding when the header is refused. */
    method AppendMember(ino: nat, name: string, content: seq<U8>, mode: nat := 0x81a4) returns (ok: bool)
      modifies this
      ensures var f := File(ino, mode, name, content);
              && ok == f.Printable()
              && data == if ok then Appended(old(data), f)
                         else if Ascii(name) then Pad4(old(data)) else old(data)
    {
      if !Ascii(name) {
        return false;
      }
      var nameBytes := Encode(name) + [NUL];
      Align4();
      var header := Header(ino, mode, |content|, |nameBytes|);
      HeaderDefined(ino, mode, |content|, |nameBytes|);
      if header.None? {
        return false;
      }
      data := data + header.value;
      data := data + nameBytes;
      assert data == Pad4(old(data)) + header.value + Encode(name) + [NUL];
      Align4();
      data := data + content;
      return true;
    }
  }

  /** The script's archive assembly, for any list of names and contents. */
  method BuildFixture(files: seq<(string, seq<U8>)>) returns (archive: Option<seq<U8>>)
    ensures var fs := FixtureFiles(files);
            && (archive.Some? <==> AllPrintable(fs) && |files| + 1 < WRAP32)
            && (archive.Some? ==> archive.value == Archive(fs))
  {
    var buffer := new ArchiveBuffer();
    BodyEmpty();
    hide Appended, Body, Pad4;
    ghost var fs := FixtureFiles(files);
    for index := 0 to |files|
      invariant AllPrintable(fs[..index])
      invariant buffer.data == Body(fs[..index])
    {
      ghost var before := fs[..index];
      assert fs[..index + 1] == before + [fs[index]];
      BodyStep(before, fs[index]);
      var ok := buffer.AppendMember(index + 1, files[index].0, files[index].1);
      if !ok {
        assert !fs[index].Printable();
        return None;
      }
    }
    assert fs[..|files|] == fs;
    var ok := buffer.AppendMember(|files| + 1, TRAILER_NAME, [], 0);
    if !ok {
      return None;
    }
    buffer.Align4();
    return Some(buffer.data);
  }

  lemma BodyEmpty()
    ensures Body([]) == []
  {
  }

  lemma BodyStep(fs: seq<File>, f: File)
    requires AllPrintable(fs)
    ensures AllPrintable(fs + [f]) <==> f.Printable()
    ensures f.Printable() ==> Body(fs + [f]) == Appended(Body(fs), f)
  {
    assert (fs + [f])[..|fs|] == fs && (fs + [f])[|fs|] == f;
  }

  function FixtureFiles(files: seq<(string, seq<U8>)>): (fs: seq<File>)
    ensures |fs| == |files|
  {
    seq(|files|, i requires 0 <= i < |files| => File(i + 1, 0x81a4, files[i].0, files[i].1))
  }

  /** A printed number reads back as itself; it has eight digits exactly when it
      is below 2^32. */
  lemma {:induction false} HexReadsBack(n: nat)
    ensures AllHex(Hex(n)) && HexValue(Hex(n)) == n
    decreases n
  {
    if n >= 16 {
      HexReadsBack(n / 16);
      assert Hex(n)[..|Hex(n)| - 1] == Hex(n / 16);
    } else {
      assert [HexDigit(n)][..0] == [];
    }
  }

  lemma {:induction false} HexLength(n: nat, k: nat)
    ensures |Hex(n)| <= k + 1 <==> n < Pow2(4 * (k + 1))
    decreases k
  {
    Pow2Values();
    Pow2Add(4, 4 * k);
    if k > 0 && n >= 16 {
      HexLength(n / 16, k - 1);
      assert n / 16 < Pow2(4 * k) <==> n < 16 * Pow2(4 * k);
    }
  }

  lemma {:induction false} LeadingZeros(s: seq<U8>, k: nat)
    requires AllHex(s)
    ensures var z: seq<U8> := seq(k, _ => 0x30);
            AllHex(z + s) && HexValue(z + s) == HexValue(s)
    decreases k + |s|
  {
    var z: seq<U8> := seq(k, _ => 0x30);
    if s != [] {
      LeadingZeros(s[..|s| - 1], k);
      assert (z + s)[..|z + s| - 1] == z + s[..|s| - 1];
    } else if k > 0 {
      LeadingZeros(s, k - 1);
      var y: seq<U8> := seq(k - 1, _ => 0x30);
      assert (z + s)[..|z + s| - 1] == y + s;
    }
  }

  lemma Hex8ReadsBack(n: nat)
    ensures AllHex(Hex8(n)) && HexValue(Hex8(n)) == n
    ensures |Hex8(n)| == 8 <==> n < WRAP32
  {
    hide Hex, HexValue, AllHex, Pow2;
    HexReadsBack(n);
    LeadingZeros(Hex(n), if |Hex(n)| < 8 then 8 - |Hex(n)| else 0);
    Pow2Values();
    HexLength(n, 7);
  }

  lemma {:induction false} FieldsLength(fs: seq<nat>)
    ensures |Fields(fs)| >= 8 * |fs|
    ensures |Fields(fs)| == 8 * |fs| <==> forall i :: 0 <= i < |fs| ==> fs[i] < WRAP32
  {
    if fs != [] {
      var init, last := fs[..|fs| - 1], fs[|fs| - 1];
      FieldsLength(init);
      Hex8ReadsBack(last);
      assert forall i :: 0 <= i < |init| ==> init[i] == fs[i];
    }
  }

  lemma {:induction false} FieldAt(fs: seq<nat>, i: nat)
    requires i < |fs| && forall i :: 0 <= i < |fs| ==> fs[i] < WRAP32
    ensures |Fields(fs)| == 8 * |fs|
    ensures Fields(fs)[8 * i..8 * i + 8] == Hex8(fs[i])
  {
    var init := fs[..|fs| - 1];
    FieldsLength(fs);
    FieldsLength(init);
    Hex8ReadsBack(fs[|fs| - 1]);
    hide Hex8, HexValue;
    assert Fields(fs) == Fields(init) + Hex8(fs[|fs| - 1]);
    if i < |init| {
      FieldAt(init, i);
      assert Fields(fs)[8 * i..8 * i + 8] == Fields(init)[8 * i..8 * i + 8];
    }
  }

  lemma HeaderDefined(ino: nat, mode: nat, size: nat, nameSize: nat)
    ensures Header(ino, mode, size, nameSize).Some? <==>
            ino < WRAP32 && mode < WRAP32 && size < WRAP32 && nameSize < WRAP32
  {
    var fs: seq<nat> := [ino, mode, 0, 0, 1, 0, size, 0, 0, 0, 0, nameSize, 0];
    FieldsLength(fs);
    assert fs[0] == ino && fs[1] == mode && fs[6] == size && fs[11] == nameSize;
  }

  /** Every field of an accepted header sits where the reader looks for it. */
  lemma HeaderFields(ino: nat, mode: nat, size: nat, nameSize: nat)
    requires ino < WRAP32 && mode < WRAP32 && size < WRAP32 && nameSize < WRAP32
    ensures var h := Header(ino, mode, size, nameSize);
            && h.Some? && h.value[..6] == MAGIC
            && Field(h.value, 14) == Some(mode)
            && Field(h.value, 54) == Some(size)
            && Field(h.value, 94) == Some(nameSize)
  {
    HeaderDefined(ino, mode, size, nameSize);
    var fs: seq<nat> := [ino, mode, 0, 0, 1, 0, size, 0, 0, 0, 0, nameSize, 0];
    assert fs[1] == mode && fs[6] == size && fs[11] == nameSize;
    hide Fields, Field;
    HeaderField(fs, 1);
    HeaderField(fs, 6);
    HeaderField(fs, 11);
  }

  lemma HeaderField(fs: seq<nat>, i: nat)
    requires i < |fs| && forall k :: 0 <= k < |fs| ==> fs[k] < WRAP32
    ensures var h := MAGIC + Fields(fs);
            |h| == 6 + 8 * |fs| && Field(h, 6 + 8 * i) == Some(fs[i])
  {
    hide Fields, Hex8, HexValue;
    var h := MAGIC + Fields(fs);
    FieldAt(fs, i);
    Hex8ReadsBack(fs[i]);
    assert h[6 + 8 * i..6 + 8 * i + 8] == Fields(fs)[8 * i..8 * i + 8];
  }
}
