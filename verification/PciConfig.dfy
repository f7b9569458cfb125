/** PCI configuration space through the I/O port pair of src/selinos_pci.c. */
module PciConfig {
  import opened Bits

  const CONFIG_ENABLE: nat := 0x8000_0000
  const CONFIG_SIZE: nat := 256
  const DEVICES: nat := 32
  const FUNCTIONS: nat := 8

  /** The value written to the address port. */
  function ConfigAddress(device: nat, function_: nat, offset: nat): nat {
    Or(Or(Or(CONFIG_ENABLE, device * 0x800), function_ * 0x100), And(offset, 0xfc))
  }

  /** Only the dword inside the 256-byte space survives: an offset of 0x100 comes
      out as offset zero. */
  lemma DwordOffset(offset: nat)
    ensures And(offset, 0xfc) == offset % 256 / 4 * 4
  {
    Pow2Values();
    AndHighMask(offset % 256, 2, 8);
    AndLowByte(offset, 0xfc, 8);
    assert offset % 256 - offset % 256 % 4 == offset % 256 / 4 * 4;
  }

  /** The four parts of an address never overlap, so the address names exactly one
      device, function and dword. */
  lemma ConfigAddressDecodes(device: nat, function_: nat, offset: nat)
    requires device < DEVICES && function_ < FUNCTIONS
    ensures var a := ConfigAddress(device, function_, offset);
            && CONFIG_ENABLE <= a < WRAP32
            && a / 0x800 % 32 == device
            && a / 0x100 % 8 == function_
            && a % 0x100 == offset % 256 / 4 * 4
  {
    Pow2Values();
    DwordOffset(offset);
    hide Or, And, Pow2;
    assert Pow2(11) == 0x800 by { Pow2Add(8, 3); Pow2Small(); }
    OrShifted(0x8000, 16, device * 0x800);
    OrShifted(0x10_0000 + device, 11, function_ * 0x100);
    OrShifted(0x80_0000 + device * 8 + function_, 8, And(offset, 0xfc));
  }

  lemma Pow2Small()
    ensures Pow2(3) == 8 && Pow2(11) == 0x800
  {
  }

  // ---------------------------------------------------------------- bus 0

  function Byte(cfg: seq<U8>, at: nat): U8
    requires |cfg| == CONFIG_SIZE
  {
    cfg[at % CONFIG_SIZE]
  }

  /** The dword a read at `offset` returns. */
  function Dword(cfg: seq<U8>, offset: nat): U32
    requires |cfg| == CONFIG_SIZE
  {
    var at := offset % CONFIG_SIZE / 4 * 4;
    cfg[at] + 0x100 * cfg[at + 1] as int + 0x1_0000 * cfg[at + 2] as int + 0x100_0000 * cfg[at + 3] as int
  }

  /** The 16-bit half of that dword at `offset`. */
  function Word(cfg: seq<U8>, offset: nat): U16
    requires |cfg| == CONFIG_SIZE
  {
    Dword(cfg, offset) / (if offset / 2 % 2 == 0 then 1 else 0x1_0000) % 0x1_0000
  }

  /** The function whose turn an address is. */
  function Selected(space: seq<seq<U8>>, address: nat): seq<U8>
    requires |space| == DEVICES * FUNCTIONS
  {
    space[address / 0x800 % 32 * 8 + address / 0x100 % 8]
  }

  predicate SpaceValid(space: seq<seq<U8>>) {
    |space| == DEVICES * FUNCTIONS && forall i :: 0 <= i < |space| ==> |space[i]| == CONFIG_SIZE
  }

  /** The configuration space of a device's function zero. */
  function FunctionZero(space: seq<seq<U8>>, device: nat): (cfg: seq<U8>)
    requires SpaceValid(space) && device < DEVICES
    ensures |cfg| == CONFIG_SIZE
  {
    space[device * 8]
  }

  /** How many of the first n requests are refused. */
  ghost function Refusals(grants: nat -> bool, n: nat): nat {
    if n == 0 then 0 else Refusals(grants, n - 1) + (if grants(n - 1) then 0 else 1)
  }

  /** None in between is refused exactly when every one of them is granted. */
  lemma {:induction false} NoRefusal(grants: nat -> bool, a: nat, b: nat)
    requires a <= b
    ensures Refusals(grants, a) <= Refusals(grants, b)
    ensures Refusals(grants, a) == Refusals(grants, b) <==> forall k :: a <= k < b ==> grants(k)
    decreases b
  {
    if a < b {
      NoRefusal(grants, a, b - 1);
    }
  }

  /** The port pair: an address latch, and a data window onto what it selects.
      `grants` decides, request by request, which ones go through. */
  class ConfigPort {
    const grants: nat -> bool
    const space: seq<seq<U8>>
    var address: nat
    var slots: nat
    var asked: nat

    constructor (grants: nat -> bool, space: seq<seq<U8>>)
      requires SpaceValid(space)
      ensures this.grants == grants && this.space == space && asked == 0
    {
      this.grants, this.space := grants, space;
      address, slots, asked := 0, 0, 0;
    }

    /** The requests refused so far. */
    ghost function Faults(): nat
      reads `asked
    {
      Refusals(grants, asked)
    }

    /** Takes a capability slot and the right to use the ports. */
    method Acquire() returns (ok: bool)
      modifies `slots, `asked
      ensures ok == grants(old(asked)) && asked == old(asked) + 1
      ensures slots == old(slots) + (if ok then 1 else 0)
    {
      ok := grants(asked);
      asked := asked + 1;
      if ok {
        slots := slots + 1;
      }
    }

    method Release()
      requires slots > 0
      modifies `slots
      ensures slots == old(slots) - 1
    {
      slots := slots - 1;
    }

    method Out32(value: nat) returns (ok: bool)
      modifies `address, `asked
      ensures ok == grants(old(asked)) && asked == old(asked) + 1
      ensures address == if ok then value else old(address)
    {
      ok := grants(asked);
      asked := asked + 1;
      if ok {
        address := value;
      }
    }

    method In32() returns (ok: bool, value: U32)
      requires SpaceValid(space)
      modifies `asked
      ensures ok == grants(old(asked)) && asked == old(asked) + 1
      ensures ok ==> value == Dword(Selected(space, address), address % 0x100)
    {
      ok := grants(asked);
      asked := asked + 1;
      value := if ok then Dword(Selected(space, address), address % 0x100) else 0;
    }

    /** A read is two requests: the address, and the data if that went through. */
    method ReadDword(device: nat, offset: nat) returns (ok: bool, value: U32)
      requires SpaceValid(space) && device < DEVICES
      modifies `address, `asked
      ensures ok <==> grants(old(asked)) && grants(old(asked) + 1)
      ensures asked == old(asked) + (if grants(old(asked)) then 2 else 1)
      ensures ok ==> value == Dword(FunctionZero(space, device), offset)
      ensures Faults() == old(Faults()) + if ok then 0 else 1
    {
      hide ConfigAddress, Dword, Selected, FunctionZero;
      value := 0;
      ok := Out32(ConfigAddress(device, 0, offset));
      if !ok {
        return;
      }
      AddressSelects(space, device, offset);
      SameDword(FunctionZero(space, device), offset);
      ok, value := In32();
      assert Refusals(grants, asked - 1) == old(Faults());
    }

    /** A 16-bit half of the dword, through `0xcfc + (offset & 2)`. */
    method ReadWord(device: nat, offset: nat) returns (ok: bool, value: U16)
      requires SpaceValid(space) && device < DEVICES
      modifies `address, `asked
      ensures ok <==> grants(old(asked)) && grants(old(asked) + 1)
      ensures asked == old(asked) + (if grants(old(asked)) then 2 else 1)
      ensures ok ==> value == Word(FunctionZero(space, device), offset)
      ensures Faults() == old(Faults()) + if ok then 0 else 1
    {
      var dword;
      ok, dword := ReadDword(device, offset);
      value := 0;
      if ok {
        value := dword / (if offset / 2 % 2 == 0 then 1 else 0x1_0000) % 0x1_0000;
      }
    }

    /** A byte, shifted out of the dword around it. */
    method ReadByte(device: nat, offset: nat) returns (ok: bool, value: U8)
      requires SpaceValid(space) && device < DEVICES
      modifies `address, `asked
      ensures ok <==> grants(old(asked)) && grants(old(asked) + 1)
      ensures asked == old(asked) + (if grants(old(asked)) then 2 else 1)
      ensures ok ==> value == Byte(FunctionZero(space, device), offset)
      ensures Faults() == old(Faults()) + if ok then 0 else 1
    {
      var word;
      ok, word := ReadDword(device, And(offset, 0xfc));
      value := 0;
      if ok {
        DwordOffset(offset);
        hide And, Dword, ShiftedByte;
        SameDword(FunctionZero(space, device), offset);
        ByteOfDword(FunctionZero(space, device), offset);
        value := ShiftedByte(word, offset % 4);
      }
    }
  }

  lemma AddressSelects(space: seq<seq<U8>>, device: nat, offset: nat)
    requires SpaceValid(space) && device < DEVICES
    ensures Selected(space, ConfigAddress(device, 0, offset)) == FunctionZero(space, device)
    ensures ConfigAddress(device, 0, offset) % 0x100 == offset % 256 / 4 * 4
  {
    hide ConfigAddress;
    ConfigAddressDecodes(device, 0, offset);
  }

  lemma SameDword(cfg: seq<U8>, offset: nat)
    requires |cfg| == CONFIG_SIZE
    ensures Dword(cfg, offset % 256 / 4 * 4) == Dword(cfg, offset)
  {
  }

  /** `(seL4_Uint8)(word >> (8 * lane))`. */
  function ShiftedByte(word: U32, lane: nat): U8
    requires lane < 4
  {
    word / (if lane == 0 then 1 else if lane == 1 then 0x100 else if lane == 2 then 0x1_0000 else 0x100_0000) % 0x100
  }

  lemma Lanes(b0: U8, b1: U8, b2: U8, b3: U8)
    ensures var w := b0 + 0x100 * b1 as int + 0x1_0000 * b2 as int + 0x100_0000 * b3 as int;
            w % 0x100 == b0 && w / 0x100 % 0x100 == b1 && w / 0x1_0000 % 0x100 == b2 && w / 0x100_0000 % 0x100 == b3
  {
    var w := b0 + 0x100 * b1 as int + 0x1_0000 * b2 as int + 0x100_0000 * b3 as int;
    var w1: int := b1 + 0x100 * b2 as int + 0x1_0000 * b3 as int;
    var w2: int := b2 + 0x100 * b3 as int;
    DivModUnique(w, 0x100, w1, b0);
    DivModUnique(w1, 0x100, w2, b1);
    DivModUnique(w2, 0x100, b3, b2);
    DivModUnique(w, 0x1_0000, w2, b0 + 0x100 * b1 as int);
    DivModUnique(w, 0x100_0000, b3, b0 + 0x100 * b1 as int + 0x1_0000 * b2 as int);
  }

  lemma ByteOfDword(cfg: seq<U8>, offset: nat)
    requires |cfg| == CONFIG_SIZE
    ensures ShiftedByte(Dword(cfg, offset), offset % 4) == Byte(cfg, offset)
  {
    var at := offset % CONFIG_SIZE / 4 * 4;
    Lanes(cfg[at], cfg[at + 1], cfg[at + 2], cfg[at + 3]);
    assert offset % CONFIG_SIZE == at + offset % 4;
  }
}
