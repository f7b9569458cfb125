/** What the tests and fields of the PCI code mean in bytes and numbers: the predicates
    the walks, the validators and the allocator share with their specifications. */
module PciLaws {
  import opened Bits
  import opened VirtioRange
  import opened PciConfig
  import opened PciCapabilities
  import opened PciBar

  // ---------------------------------------------------------------- configuration bytes

  lemma ConfigBytes(cfg: seq<U8>, at: nat)
    requires |cfg| == CONFIG_SIZE && at < CONFIG_SIZE
    ensures Byte(cfg, at) == cfg[at]
    ensures at % 2 == 0 ==> Word(cfg, at) == WordInside(cfg, at)
    ensures at % 4 == 0 ==> Dword(cfg, at) == DwordInside(cfg, at)
  {
    InSpace(cfg, at);
    hide Word, Dword, WordInside, DwordInside, Byte;
    if at % 4 == 0 {
      NoWrap(cfg, at);
      LowHalf(cfg, at);
    } else if at % 2 == 0 {
      HighHalf(cfg, at);
    }
  }

  /** Two bytes of the space, least significant first. */
  function WordInside(cfg: seq<U8>, at: nat): nat
    requires at + 2 <= |cfg|
  {
    cfg[at] as int + 0x100 * cfg[at + 1] as int
  }

  lemma TwoWords(cfg: seq<U8>, at: nat)
    requires at + 4 <= |cfg|
    ensures DwordInside(cfg, at) == WordInside(cfg, at + 2) * 0x1_0000 + WordInside(cfg, at)
    ensures WordInside(cfg, at) < 0x1_0000
  {
  }

  lemma LowHalf(cfg: seq<U8>, at: nat)
    requires |cfg| == CONFIG_SIZE && at % 4 == 0 && at + 4 <= CONFIG_SIZE
    ensures Word(cfg, at) == WordInside(cfg, at)
  {
    hide Dword, DwordInside, WordInside;
    NoWrap(cfg, at);
    TwoWords(cfg, at);
    DivModUnique(at / 2, 2, at / 4, 0);
    DivModUnique(Dword(cfg, at), 0x1_0000, WordInside(cfg, at + 2), WordInside(cfg, at));
  }

  lemma HighHalf(cfg: seq<U8>, at: nat)
    requires |cfg| == CONFIG_SIZE && at % 4 == 2 && at + 2 <= CONFIG_SIZE
    ensures Word(cfg, at) == WordInside(cfg, at)
  {
    hide Dword, DwordInside, WordInside;
    AtHalf(at);
    NoWrap(cfg, at - 2);
    SameDword(cfg, at);
    TwoWords(cfg, at - 2);
    var high := WordInside(cfg, at);
    DivModUnique(Dword(cfg, at), 0x1_0000, high, WordInside(cfg, at - 2));
    WordFits(cfg, at);
  }

  lemma WordFits(cfg: seq<U8>, at: nat)
    requires at + 2 <= |cfg|
    ensures WordInside(cfg, at) < 0x1_0000
  {
  }

  lemma AtHalf(at: nat)
    requires at < 256 && at % 4 == 2
    ensures at % 256 / 4 * 4 == at - 2 && at / 2 % 2 == 1
  {
    DivModUnique(at, 4, (at - 2) / 4, 2);
    DivModUnique(at / 2, 2, (at - 2) / 4, 1);
  }

  /** The device that is looked for, the list bit and the header type, and the links. */
  lemma ListBytes(cfg: seq<U8>, k: nat)
    requires |cfg| == CONFIG_SIZE
    ensures HoldsBlk(cfg) <==> cfg[..4] == [0xf4, 0x1a, 0x42, 0x10]
    ensures HasList(cfg) <==> cfg[6] / 16 % 2 == 1 && cfg[0x0e] % 128 == 0
    ensures Pointer(cfg, 0) == cfg[0x34]
    ensures var p := Pointer(cfg, k);
            Pointer(cfg, k + 1) == if 0x40 <= p <= 0xf0 && p % 4 == 0 then cfg[p + 1] as int else 0
  {
    hide Word, Dword, And, Byte;
    IdentityBytes(cfg);
    StatusBits(cfg);
    HeaderBits(cfg);
    InSpace(cfg, 0x34);
    if Pointer(cfg, k) < 0xff {
      InSpace(cfg, Pointer(cfg, k) + 1);
    }
  }

  lemma IdentityBytes(cfg: seq<U8>)
    requires |cfg| == CONFIG_SIZE
    ensures Dword(cfg, 0) == 0x1042_1af4 <==> cfg[..4] == [0xf4, 0x1a, 0x42, 0x10]
  {
    assert cfg[..4] == [cfg[0], cfg[1], cfg[2], cfg[3]];
  }

  lemma StatusBits(cfg: seq<U8>)
    requires |cfg| == CONFIG_SIZE
    ensures And(Word(cfg, 6), 0x10) != 0 <==> cfg[6] / 16 % 2 == 1
  {
    HighHalf(cfg, 6);
    hide Word, And, Pow2;
    Pow2Values();
    BitOf(Word(cfg, 6), 4);
    BitFour(cfg[6], cfg[7]);
  }

  lemma BitFour(low: U8, high: U8)
    ensures (low as int + 0x100 * high as int) / 16 % 2 == low / 16 % 2
  {
    var w := low as int + 0x100 * high as int;
    DivModUnique(w, 16, high as int * 16 + low / 16, low % 16);
    DivModUnique(high as int * 16 + low / 16, 2, high as int * 8 + low / 16 / 2, low / 16 % 2);
  }

  lemma HeaderBits(cfg: seq<U8>)
    requires |cfg| == CONFIG_SIZE
    ensures And(Dword(cfg, 0x0c) / 0x1_0000, 0x7f) == 0 <==> cfg[0x0e] % 128 == 0
  {
    assert Pow2(7) == 128;
    hide Dword, DwordInside, And, Pow2;
    NoWrap(cfg, 0x0c);
    TwoWords(cfg, 0x0c);
    var high := WordInside(cfg, 0x0e);
    DivModUnique(Dword(cfg, 0x0c), 0x1_0000, high, WordInside(cfg, 0x0c));
    AndLowMask(high, 7);
    LowSeven(cfg[0x0e], cfg[0x0f]);
  }

  lemma LowSeven(low: U8, high: U8)
    ensures (low as int + 0x100 * high as int) % 128 == low % 128
  {
    DivModUnique(low as int + 0x100 * high as int, 128, 2 * high as int + low / 128, low % 128);
  }

  /** A capability of the wanted kind, byte by byte. */
  lemma CapabilityBytes(cfg: seq<U8>, kind: nat, p: nat)
    requires |cfg| == CONFIG_SIZE && 0x40 <= p <= 0xf0 && p % 4 == 0 && (kind == 1 || kind == 2)
    ensures var offset, length := DwordInside(cfg, p + 8), DwordInside(cfg, p + 12);
            var multiplier := Dword(cfg, p + 0x10);
            && (CapabilityAt(cfg, kind, p).Some? <==>
                  && cfg[p] == 9 && cfg[p + 3] == kind && cfg[p + 4] < 6
                  && offset % 4 == 0 && length % 4 == 0
                  && length >= (if kind == 1 then 0x38 else 0x14)
                  && (kind == 2 ==> cfg[p + 2] >= 0x14 && multiplier != 0))
            && (CapabilityAt(cfg, kind, p).Some? ==>
                  CapabilityAt(cfg, kind, p) ==
                  Some(Capability(p, cfg[p + 4] as int, offset, length, if kind == 2 then multiplier else 0)))
  {
    NoWrap(cfg, p + 8);
    NoWrap(cfg, p + 12);
    InSpace(cfg, p);
    InSpace(cfg, p + 2);
    InSpace(cfg, p + 3);
    InSpace(cfg, p + 4);
    hide Dword, DwordInside, Byte;
  }

  lemma InSpace(cfg: seq<U8>, at: nat)
    requires |cfg| == CONFIG_SIZE && at < CONFIG_SIZE
    ensures Byte(cfg, at) == cfg[at]
  {
  }

  // ---------------------------------------------------------------- BAR values

  /** The type bits of a BAR: bit 0 is clear for memory, and bits 1 and 2 give the width. */
  lemma BarTypes(bar: U32)
    ensures Assigned32(bar) <==> bar % 8 == 0 && bar >= 16
    ensures Memory64(bar) <==> bar % 8 == 4
  {
    hide And;
    TypeBits(bar);
    AddressPart(bar);
    Rest8(bar);
  }

  lemma Rest8(v: nat)
    ensures v % 2 == 0 && v % 8 - v % 2 == 0 <==> v % 8 == 0
    ensures v % 2 == 0 && v % 8 - v % 2 == 4 <==> v % 8 == 4
  {
    EvenOf8(v);
  }

  lemma TypeBits(v: U32)
    ensures And(v, 1) == v % 2
    ensures And(v, TYPE_MASK) == v % 8 - v % 2
  {
    assert Pow2(1) == 2 && Pow2(3) == 8;
    hide And, Pow2;
    AndLowMask(v, 1);
    AndLowByte(v, 6, 3);
    AndSix(v % 8);
    EvenOf8(v);
  }

  lemma EvenOf8(v: nat)
    ensures v % 8 % 2 == v % 2
  {
    DivModUnique(v, 2, 4 * (v / 8) + v % 8 / 2, v % 8 % 2);
  }

  lemma AndSix(r: nat)
    requires r < 8
    ensures And(r, 6) == r - r % 2
  {
    assert Pow2(2) == 4;
    hide And, Pow2;
    AndUnfold(r, 6);
    AndLowMask(r / 2, 2);
  }

  /** The exact condition under which a 32-bit response announces a size. */
  lemma Size32Exact(sizing: U32)
    ensures Size32(sizing).Some? <==>
              sizing % 8 == 0 && sizing >= 16 && PowerOfTwo(WRAP32 - (sizing - sizing % 16))
    ensures Size32(sizing).Some? ==> Size32(sizing).value == WRAP32 - (sizing - sizing % 16)
  {
    hide And;
    TypeBits(sizing);
    AddressPart(sizing);
    Rest8(sizing);
    if sizing >= 16 {
      SizeMask(sizing - sizing % 16);
    }
  }

  lemma Size64Exact(low: U32, high: U32)
    ensures Size64(low, high).Some? <==> Bar64(low, high) != 0 && PowerOfTwo(WRAP64 - Bar64(low, high))
    ensures Size64(low, high).Some? ==> Size64(low, high).value == WRAP64 - Bar64(low, high)
  {
    hide And, Bar64;
  }

  /** The e1000 reader's arithmetic: accepted exactly when a size is announced and the
      window ends at or below 2^32, with the masked address and that size. */
  lemma E1000Exact(original: U32, sizing: U32)
    ensures var address := original - original % 16;
            && (E1000Range(original, sizing).Some? <==>
                  Size32(sizing).Some? && address + Size32(sizing).value <= 0x1_0000_0000)
            && (E1000Range(original, sizing).Some? ==>
                  E1000Range(original, sizing) == Some(Resource(address, Size32(sizing).value, 0)))
  {
    AddressPart(original);
    SizeMeaning(sizing);
    hide And, Size32, PowerOfTwo;
  }

  /** The network device that is read, and no other. */
  lemma E1000Means(id: Identity, identity: U32)
    ensures E1000Id(id, identity) <==>
            id.device < 32 && id.function_ < 8 && id.vendor == 0x8086 && id.product == 0x100e && identity == 0x100e_8086
  {
  }

  /** Quiescing clears bit 1 and bit 2 of the command and nothing else. */
  lemma QuiescedBits(command: U16)
    ensures Quiesced(command) == command - 2 * (command / 2 % 2) - 4 * (command / 4 % 2)
  {
    assert Pow2(3) == 8;
    hide And, Pow2;
    Pow2Values();
    AndComplement(command, 6, 32);
    AndLowByte(command, 6, 3);
    AndSix(command % 8);
    ThreeBits(command);
  }

  lemma ThreeBits(c: nat)
    ensures c % 8 - c % 8 % 2 == 2 * (c / 2 % 2) + 4 * (c / 4 % 2)
  {
    var q, r := c / 8, c % 8;
    DivModUnique(c, 2, 4 * q + r / 2, r % 2);
    DivModUnique(c / 2, 2, 2 * q + r / 2 / 2, r / 2 % 2);
    DivModUnique(c, 4, 2 * q + r / 4, r % 4);
    DivModUnique(c / 4, 2, q, r / 4);
  }

  /** What a common capability has to look like, in numbers. */
  lemma CommonCapMeans(cap: CommonCap)
    ensures CommonCapOk(cap, 6) <==>
            && cap.identity.vendor == 0x1af4 && cap.identity.product == 0x1042
            && cap.identity.device < 32 && cap.identity.function_ < 8
            && cap.bar < 6 && cap.length >= 0x38 && cap.offset % 4 == 0 && cap.length % 4 == 0
    ensures CommonCapOk(cap, 5) <==> CommonCapOk(cap, 6) && cap.bar < 5
  {
    DwordMask(cap.offset);
    DwordMask(cap.length);
    hide And;
  }

  // ---------------------------------------------------------------- ranges

  /** Sanity of a common range in integers, without masks or wrap-around. */
  lemma CommonSaneExact(r: CommonRange)
    ensures CommonSane(r) <==>
            && r.capability.identity.vendor == 0x1af4 && r.capability.identity.product == 0x1042
            && r.capability.bar < 6 && r.barPaddr != 0 && r.barSize != 0
            && r.commonPaddr == r.barPaddr + r.capability.offset
            && r.capability.offset + r.capability.length <= r.barSize
            && r.pagePaddr % 4096 == 0 && r.pageOffset + 8 <= 4096
            && (|| r.commonPaddr == r.pagePaddr + r.pageOffset
                || r.commonPaddr + 0x1_0000_0000_0000_0000 == r.pagePaddr + r.pageOffset)
  {
    PageMask(r.pagePaddr);
    hide And;
  }

  /** And the page cannot lie behind the address: the last possibility never arises. */
  lemma CommonPageBelow(r: CommonRange)
    requires CommonSane(r)
    ensures r.commonPaddr == r.pagePaddr + r.pageOffset
  {
    CommonSaneExact(r);
    hide And, CommonSane;
    PageEnds(r.pagePaddr);
  }

  lemma PageEnds(page: U64)
    requires page % 4096 == 0
    ensures page + 4096 <= 0x1_0000_0000_0000_0000
  {
  }

  lemma NotifySaneExact(r: NotifyRange)
    ensures NotifySane(r) <==>
            && r.capability.identity.vendor == 0x1af4 && r.capability.identity.product == 0x1042
            && r.capability.bar < 6 && r.capability.length >= 0x14 && r.capability.multiplier != 0
            && r.barPaddr != 0 && r.barSize != 0
            && r.capPaddr == r.barPaddr + r.capability.offset
            && r.capability.offset + r.capability.length <= r.barSize
  {
  }
}
