/** Finding a virtio capability on a device's capability list, which the device
    may lay out in any way, cycles included (PCI Local Bus 3.0, section 6.7). */
module PciCapabilities {
  import opened Bits
  import opened PciConfig
  import opened VirtioRange

  const FIRST_CAPABILITY: nat := 0x40
  const LAST_CAPABILITY: nat := 0xf0
  const CAPABILITY_LIMIT: nat := 48
  const VENDOR_SPECIFIC: nat := 0x09
  const COMMON_CFG: nat := 1
  const NOTIFY_CFG: nat := 2
  const MULTIPLIER_OFF: nat := 0x10

  datatype Capability = Capability(at: nat, bar: nat, offset: U32, length: U32, multiplier: U32)

  predicate ValidPointer(p: nat) {
    FIRST_CAPABILITY <= p <= LAST_CAPABILITY && p % 4 == 0
  }

  /** The capability of the wanted type that the bytes at `p` hold.  The
      multiplier of a notify capability at 0xf0 is read from offset zero, where
      the sum of pointer and field offset wraps to. */
  function CapabilityAt(cfg: seq<U8>, kind: nat, p: nat): Option<Capability>
    requires |cfg| == CONFIG_SIZE
  {
    var offset, length := Dword(cfg, p + 8), Dword(cfg, p + 12);
    var multiplier := if kind == NOTIFY_CFG then Dword(cfg, p + 0x10) else 0;
    if && Byte(cfg, p) == VENDOR_SPECIFIC
       && (kind == NOTIFY_CFG ==> Byte(cfg, p + 2) >= NOTIFY_MIN_LENGTH)
       && Byte(cfg, p + 3) == kind
       && Byte(cfg, p + 4) < BAR_COUNT
       && offset % 4 == 0 && length % 4 == 0
       && length >= (if kind == NOTIFY_CFG then NOTIFY_MIN_LENGTH else COMMON_MIN_LENGTH)
       && (kind == NOTIFY_CFG ==> multiplier != 0)
    then
      Some(Capability(p, Byte(cfg, p + 4), offset, length, multiplier))
    else
      None
  }

  /** The pointer reached after k links; a broken link leads to the null pointer. */
  function Pointer(cfg: seq<U8>, k: nat): nat
    requires |cfg| == CONFIG_SIZE
  {
    if k == 0 then Byte(cfg, 0x34)
    else if ValidPointer(Pointer(cfg, k - 1)) then Byte(cfg, Pointer(cfg, k - 1) + 1)
    else 0
  }

  /** Link k is reached over valid pointers only. */
  predicate Reachable(cfg: seq<U8>, k: nat)
    requires |cfg| == CONFIG_SIZE
  {
    forall j :: 0 <= j <= k ==> ValidPointer(Pointer(cfg, j))
  }

  /** Link k is the first reachable one that holds the wanted capability. */
  predicate FirstAt(cfg: seq<U8>, kind: nat, k: nat)
    requires |cfg| == CONFIG_SIZE
  {
    && Reachable(cfg, k)
    && CapabilityAt(cfg, kind, Pointer(cfg, k)).Some?
    && forall j :: 0 <= j < k ==> CapabilityAt(cfg, kind, Pointer(cfg, j)).None?
  }

  /** The first capability of the wanted type on the list, however long the walk
      to it may be. */
  ghost function FirstCapability(cfg: seq<U8>, kind: nat): (r: Option<Capability>)
    requires |cfg| == CONFIG_SIZE
    ensures r.Some? <==> exists k: nat :: FirstAt(cfg, kind, k)
    ensures forall k: nat :: FirstAt(cfg, kind, k) ==> r == CapabilityAt(cfg, kind, Pointer(cfg, k))
  {
    if exists k: nat :: FirstAt(cfg, kind, k) then
      var k: nat :| FirstAt(cfg, kind, k);
      CapabilityAt(cfg, kind, Pointer(cfg, k))
    else
      None
  }

  // ---------------------------------------------------------------- why 48 links are enough

  lemma {:induction false} PointerShift(cfg: seq<U8>, i: nat, j: nat, m: nat)
    requires |cfg| == CONFIG_SIZE && Pointer(cfg, i) == Pointer(cfg, j)
    ensures Pointer(cfg, i + m) == Pointer(cfg, j + m)
    decreases m
  {
    if m > 0 {
      PointerShift(cfg, i, j, m - 1);
    }
  }

  /** On the way to the first match no pointer comes twice: a cycle that is entered
      before a match never leads to one. */
  lemma NoPointerTwice(cfg: seq<U8>, kind: nat, k: nat, i: nat, j: nat)
    requires |cfg| == CONFIG_SIZE && FirstAt(cfg, kind, k) && i < j <= k
    ensures Pointer(cfg, i) != Pointer(cfg, j)
  {
    hide CapabilityAt;
    if Pointer(cfg, i) == Pointer(cfg, j) {
      PointerShift(cfg, i, j, k - j);
      assert false;
    }
  }

  lemma {:induction false} BoundedSetSize(s: set<nat>, n: nat)
    requires forall x :: x in s ==> x < n
    ensures |s| <= n
  {
    if n > 0 {
      BoundedSetSize(s - {n - 1}, n - 1);
    } else {
      assert s == {};
    }
  }

  /** Aligned positions of the first k + 1 pointers. */
  function Visited(cfg: seq<U8>, k: nat): set<nat>
    requires |cfg| == CONFIG_SIZE && Reachable(cfg, k)
  {
    set j | 0 <= j <= k :: Slot(Pointer(cfg, j))
  }

  function Slot(p: nat): nat
    requires ValidPointer(p)
  {
    (p - FIRST_CAPABILITY) / 4
  }

  lemma SlotInjective(p: nat, q: nat)
    requires ValidPointer(p) && ValidPointer(q) && Slot(p) == Slot(q)
    ensures p == q
  {
  }

  lemma {:induction false} VisitedSize(cfg: seq<U8>, kind: nat, k: nat, n: nat)
    requires |cfg| == CONFIG_SIZE && FirstAt(cfg, kind, k) && n <= k
    ensures |Visited(cfg, n)| == n + 1
    decreases n
  {
    hide CapabilityAt, Pointer, Slot, ValidPointer;
    if n == 0 {
      assert Visited(cfg, 0) == {Slot(Pointer(cfg, 0))};
    } else {
      VisitedSize(cfg, kind, k, n - 1);
      var last := Slot(Pointer(cfg, n));
      assert Visited(cfg, n) == Visited(cfg, n - 1) + {last};
      forall j | 0 <= j < n ensures Slot(Pointer(cfg, j)) != last {
        NoPointerTwice(cfg, kind, k, j, n);
        if Slot(Pointer(cfg, j)) == last {
          SlotInjective(Pointer(cfg, j), Pointer(cfg, n));
          assert false;
        }
      }
    }
  }

  /** The first match is among the first 45 links, because only 45 aligned pointers
      lie between 0x40 and 0xf0. */
  lemma FirstMatchIsNear(cfg: seq<U8>, kind: nat, k: nat)
    requires |cfg| == CONFIG_SIZE && FirstAt(cfg, kind, k)
    ensures k < 45
  {
    VisitedSize(cfg, kind, k, k);
    hide CapabilityAt, Pointer;
    BoundedSetSize(Visited(cfg, k), 45);
  }

  // ---------------------------------------------------------------- the multiplier

  /** Where an accepted notify capability has its multiplier from: from its own sixteenth
      byte on, unless it lies at 0xf0.  There that byte would be the first one behind
      the space, and the multiplier is the device's identity instead. */
  lemma MultiplierSource(cfg: seq<U8>, p: nat)
    requires |cfg| == CONFIG_SIZE && ValidPointer(p) && CapabilityAt(cfg, NOTIFY_CFG, p).Some?
    ensures p + MULTIPLIER_OFF + 4 <= CONFIG_SIZE <==> p != LAST_CAPABILITY
    ensures var multiplier := CapabilityAt(cfg, NOTIFY_CFG, p).value.multiplier;
            && (p != LAST_CAPABILITY ==> multiplier == DwordInside(cfg, p + MULTIPLIER_OFF))
            && (p == LAST_CAPABILITY ==> multiplier == DwordInside(cfg, 0))
            && (p == LAST_CAPABILITY && HoldsBlk(cfg) ==> multiplier == 0x1042_1af4)
  {
    MultiplierRead(cfg, p);
    hide CapabilityAt, Dword, DwordInside;
    assert p < LAST_CAPABILITY ==> p <= LAST_CAPABILITY - 4;
    if p < LAST_CAPABILITY {
      NoWrap(cfg, p + MULTIPLIER_OFF);
    } else {
      Wrap(cfg);
    }
  }

  lemma MultiplierRead(cfg: seq<U8>, p: nat)
    requires |cfg| == CONFIG_SIZE && CapabilityAt(cfg, NOTIFY_CFG, p).Some?
    ensures CapabilityAt(cfg, NOTIFY_CFG, p).value.multiplier == Dword(cfg, p + MULTIPLIER_OFF)
  {
    hide Dword, Byte;
  }

  lemma NoWrap(cfg: seq<U8>, at: nat)
    requires |cfg| == CONFIG_SIZE && at % 4 == 0 && at + 4 <= CONFIG_SIZE
    ensures Dword(cfg, at) == DwordInside(cfg, at)
  {
    assert at % CONFIG_SIZE / 4 * 4 == at;
  }

  lemma Wrap(cfg: seq<U8>)
    requires |cfg| == CONFIG_SIZE
    ensures Dword(cfg, CONFIG_SIZE) == Dword(cfg, 0) == DwordInside(cfg, 0)
  {
  }

  /** Four bytes of the space, least significant first, without any wrap. */
  function DwordInside(cfg: seq<U8>, at: nat): nat
    requires at + 4 <= |cfg|
  {
    cfg[at] as int + 0x100 * cfg[at + 1] as int + 0x1_0000 * cfg[at + 2] as int + 0x100_0000 * cfg[at + 3] as int
  }

  // ---------------------------------------------------------------- the walk

  predicate HoldsBlk(cfg: seq<U8>)
    requires |cfg| == CONFIG_SIZE
  {
    Dword(cfg, 0) == BLK_MODERN * 0x1_0000 + VENDOR
  }

  /** The first device that is a modern virtio block device, or 32. */
  function FirstBlk(space: seq<seq<U8>>, from: nat): (d: nat)
    requires SpaceValid(space) && from <= DEVICES
    ensures from <= d <= DEVICES
    ensures forall k :: from <= k < d ==> !HoldsBlk(FunctionZero(space, k))
    ensures d < DEVICES ==> HoldsBlk(FunctionZero(space, d))
    decreases DEVICES - from
  {
    if from == DEVICES || HoldsBlk(FunctionZero(space, from)) then from else FirstBlk(space, from + 1)
  }

  /** The device has a capability list behind an ordinary header. */
  predicate HasList(cfg: seq<U8>)
    requires |cfg| == CONFIG_SIZE
  {
    And(Word(cfg, 6), 0x10) != 0 && And(Dword(cfg, 0x0c) / 0x1_0000, 0x7f) == 0
  }

  ghost function Inspection(space: seq<seq<U8>>, kind: nat): Option<Capability>
    requires SpaceValid(space)
  {
    var d := FirstBlk(space, 0);
    if d < DEVICES && HasList(FunctionZero(space, d)) then FirstCapability(FunctionZero(space, d), kind) else None
  }

  /** One link: the capability there, if it could be read and is the wanted one. */
  method ReadCapability(port: ConfigPort, device: nat, kind: nat, current: U8, capId: U8, capLength: U8)
    returns (r: Option<Capability>)
    requires SpaceValid(port.space) && device < DEVICES && kind in {COMMON_CFG, NOTIFY_CFG}
    requires capId == Byte(FunctionZero(port.space, device), current)
    requires kind == NOTIFY_CFG ==> capLength == Byte(FunctionZero(port.space, device), current + 2)
    modifies port`address, port`asked
    ensures port.asked >= old(port.asked) && port.Faults() >= old(port.Faults())
    ensures r.Some? ==> r == CapabilityAt(FunctionZero(port.space, device), kind, current)
    ensures r.None? && port.Faults() == old(port.Faults()) ==>
              CapabilityAt(FunctionZero(port.space, device), kind, current) == None
  {
    hide Byte, Dword, FunctionZero;
    ghost var cfg := FunctionZero(port.space, device);
    var ok, cfgType, bar, offset, length, multiplier;
    if capId != VENDOR_SPECIFIC || (kind == NOTIFY_CFG && capLength < NOTIFY_MIN_LENGTH) {
      return None;
    }
    ok, cfgType := port.ReadByte(device, current + 3);
    if !ok {
      return None;
    }
    ok, bar := port.ReadByte(device, current + 4);
    if !ok {
      return None;
    }
    ok, offset := port.ReadDword(device, current + 8);
    if !ok {
      return None;
    }
    ok, length := port.ReadDword(device, current + 12);
    if !ok {
      return None;
    }
    multiplier := 0;
    if kind == NOTIFY_CFG {
      ok, multiplier := port.ReadDword(device, current + 0x10);
      if !ok {
        return None;
      }
    }
    if && cfgType == kind && bar < BAR_COUNT && offset % 4 == 0
       && length >= (if kind == NOTIFY_CFG then NOTIFY_MIN_LENGTH else COMMON_MIN_LENGTH)
       && length % 4 == 0 && (kind == NOTIFY_CFG ==> multiplier != 0)
    {
      return Some(Capability(current, bar, offset, length, multiplier));
    }
    return None;
  }

  /** The bytes every link starts with. */
  method ReadLink(port: ConfigPort, device: nat, kind: nat, current: U8)
    returns (ok: bool, capId: U8, next: U8, capLength: U8)
    requires SpaceValid(port.space) && device < DEVICES
    modifies port`address, port`asked
    ensures ok ==>
              var cfg := FunctionZero(port.space, device);
              && port.Faults() == old(port.Faults())
              && capId == Byte(cfg, current) && next == Byte(cfg, current + 1)
              && (kind == NOTIFY_CFG ==> capLength == Byte(cfg, current + 2))
    ensures port.asked >= old(port.asked)
    ensures !ok ==> port.Faults() > old(port.Faults())
  {
    hide Byte, FunctionZero;
    next, capLength := 0, 0;
    ok, capId := port.ReadByte(device, current);
    if ok {
      ok, next := port.ReadByte(device, current + 1);
    }
    if ok && kind == NOTIFY_CFG {
      ok, capLength := port.ReadByte(device, current + 2);
    }
  }

  /** The bounded walk.  Whatever it returns is a capability reachable on the list;
      and when no port access fails it returns the first one, or there is none. */
  method Walk(port: ConfigPort, device: nat, kind: nat, start: U8) returns (r: Option<Capability>)
    requires SpaceValid(port.space) && device < DEVICES && kind in {COMMON_CFG, NOTIFY_CFG}
    requires start == Byte(FunctionZero(port.space, device), 0x34)
    modifies port`address, port`asked
    ensures port.asked >= old(port.asked) && port.Faults() >= old(port.Faults())
    ensures var cfg := FunctionZero(port.space, device);
            && (r.Some? ==> exists k: nat :: Reachable(cfg, k) && r == CapabilityAt(cfg, kind, Pointer(cfg, k)))
            && (port.Faults() == old(port.Faults()) ==> r == FirstCapability(cfg, kind))
  {
    ghost var cfg := FunctionZero(port.space, device);
    hide Byte, Dword, CapabilityAt, FunctionZero, FirstCapability, FirstAt, Pointer, Walked;
    FirstPointer(cfg, kind);
    var current := start;
    for seen := 0 to CAPABILITY_LIMIT
      invariant port.asked >= old(port.asked) && port.Faults() >= old(port.Faults())
      invariant current == Pointer(cfg, seen)
      invariant Walked(cfg, kind, seen, port.Faults() == old(port.Faults()))
    {
      if current < FIRST_CAPABILITY || current > LAST_CAPABILITY || current % 4 != 0 {
        Stuck(cfg, kind, seen, port.Faults() == old(port.Faults()));
        return None;
      }
      ghost var was := port.Faults() == old(port.Faults());
      var ok, capId, next, capLength := ReadLink(port, device, kind, current);
      if !ok {
        return None;
      }
      r := ReadCapability(port, device, kind, current, capId, capLength);
      if r.Some? {
        MatchFound(cfg, kind, seen, was, port.Faults() == old(port.Faults()));
        return;
      }
      NextPointer(cfg, kind, seen, was, port.Faults() == old(port.Faults()));
      if next == 0 {
        Stuck(cfg, kind, seen + 1, port.Faults() == old(port.Faults()));
        return None;
      }
      current := next;
    }
    TooFar(cfg, kind, port.Faults() == old(port.Faults()));
    return None;
  }

  /** The first n pointers are valid, and hold nothing wanted unless a read failed. */
  predicate Walked(cfg: seq<U8>, kind: nat, n: nat, faultless: bool)
    requires |cfg| == CONFIG_SIZE
  {
    && (forall j :: 0 <= j < n ==> ValidPointer(Pointer(cfg, j)))
    && (faultless ==> forall j :: 0 <= j < n ==> CapabilityAt(cfg, kind, Pointer(cfg, j)).None?)
  }

  lemma FirstPointer(cfg: seq<U8>, kind: nat)
    requires |cfg| == CONFIG_SIZE
    ensures Pointer(cfg, 0) == Byte(cfg, 0x34) && Walked(cfg, kind, 0, true)
  {
  }

  lemma NextPointer(cfg: seq<U8>, kind: nat, k: nat, was: bool, faultless: bool)
    requires |cfg| == CONFIG_SIZE && ValidPointer(Pointer(cfg, k))
    requires Walked(cfg, kind, k, was) && (faultless ==> was)
    requires faultless ==> CapabilityAt(cfg, kind, Pointer(cfg, k)).None?
    ensures Pointer(cfg, k + 1) == Byte(cfg, Pointer(cfg, k) + 1)
    ensures Walked(cfg, kind, k + 1, faultless)
  {
    hide CapabilityAt;
  }

  /** A match is reachable, and the first one when every read succeeded. */
  lemma MatchFound(cfg: seq<U8>, kind: nat, k: nat, was: bool, faultless: bool)
    requires |cfg| == CONFIG_SIZE && ValidPointer(Pointer(cfg, k)) && CapabilityAt(cfg, kind, Pointer(cfg, k)).Some?
    requires Walked(cfg, kind, k, was) && (faultless ==> was)
    ensures Reachable(cfg, k)
    ensures faultless ==> FirstCapability(cfg, kind) == CapabilityAt(cfg, kind, Pointer(cfg, k))
  {
    hide CapabilityAt, FirstCapability;
    assert faultless ==> FirstAt(cfg, kind, k);
  }

  /** Behind an invalid pointer there is nothing. */
  lemma Stuck(cfg: seq<U8>, kind: nat, n: nat, faultless: bool)
    requires |cfg| == CONFIG_SIZE && !ValidPointer(Pointer(cfg, n)) && Walked(cfg, kind, n, faultless)
    ensures faultless ==> FirstCapability(cfg, kind) == None
  {
    hide CapabilityAt, Pointer;
    assert faultless ==> forall k: nat :: !FirstAt(cfg, kind, k);
  }

  /** Behind 48 links without a match there is none either. */
  lemma TooFar(cfg: seq<U8>, kind: nat, faultless: bool)
    requires |cfg| == CONFIG_SIZE && Walked(cfg, kind, CAPABILITY_LIMIT, faultless)
    ensures faultless ==> FirstCapability(cfg, kind) == None
  {
    hide CapabilityAt, Pointer;
    if faultless {
      forall k: nat ensures !FirstAt(cfg, kind, k) {
        if k >= CAPABILITY_LIMIT && FirstAt(cfg, kind, k) {
          FirstMatchIsNear(cfg, kind, k);
        }
      }
    }
  }

  // ---------------------------------------------------------------- the inspection

  /** The scan of the 32 devices. */
  method FindBlk(port: ConfigPort) returns (device: Option<nat>)
    requires SpaceValid(port.space)
    modifies port`address, port`asked
    ensures port.asked >= old(port.asked) && port.Faults() >= old(port.Faults())
    ensures device.Some? ==> device.value < DEVICES && HoldsBlk(FunctionZero(port.space, device.value))
    ensures port.Faults() == old(port.Faults()) ==>
              device == var d := FirstBlk(port.space, 0); if d < DEVICES then Some(d) else None
  {
    hide Dword, FunctionZero;
    for d := 0 to DEVICES
      invariant port.asked >= old(port.asked) && port.Faults() >= old(port.Faults())
      invariant port.Faults() == old(port.Faults()) ==> FirstBlk(port.space, 0) == FirstBlk(port.space, d)
    {
      var ok, identity := port.ReadDword(d, 0);
      if !ok {
        continue;
      }
      if identity % 0x1_0000 == 0x1af4 && identity / 0x1_0000 == 0x1042 {
        return Some(d);
      }
    }
    return None;
  }

  /** `selinos_pci_inspect_qemu_virtio_blk_{common,notify}_capability`: the slot is
      given back on every path, and without port failures the answer is the first
      capability of the wanted type on the first virtio block device. */
  method Inspect(port: ConfigPort, kind: nat) returns (acquired: bool, device: nat, r: Option<Capability>)
    requires SpaceValid(port.space) && kind in {COMMON_CFG, NOTIFY_CFG}
    modifies port
    ensures port.slots == old(port.slots) && port.asked >= old(port.asked)
    ensures acquired == port.grants(old(port.asked)) && (!acquired ==> r == None)
    ensures (forall k :: old(port.asked) <= k < port.asked ==> port.grants(k)) ==> r == Inspection(port.space, kind)
    ensures (forall k :: old(port.asked) <= k < port.asked ==> port.grants(k)) && r.Some? ==>
              device == FirstBlk(port.space, 0)
    ensures r.Some? ==>
              && device < DEVICES && HoldsBlk(FunctionZero(port.space, device))
              && exists k: nat :: Reachable(FunctionZero(port.space, device), k)
                   && r == CapabilityAt(FunctionZero(port.space, device), kind,
                                        Pointer(FunctionZero(port.space, device), k))
  {
    hide Byte, Word, Dword, And, FunctionZero, CapabilityAt, FirstCapability, Reachable, Pointer, HoldsBlk, FirstBlk;
    hide Refusals;
    device, r := 0, None;
    acquired := port.Acquire();
    if !acquired {
      return;
    }
    var found := FindBlk(port);
    if found.Some? {
      device := found.value;
      var ok, status, header, start;
      ok, status := port.ReadWord(device, 6);
      if ok {
        ok, header := port.ReadDword(device, 0x0c);
      }
      if ok && And(status, 0x10) != 0 && And(header / 0x1_0000, 0x7f) == 0 {
        ok, start := port.ReadByte(device, 0x34);
        if ok {
          r := Walk(port, device, kind, start);
        }
      }
    }
    port.Release();
    NoRefusal(port.grants, old(port.asked) + 1, port.asked);
  }
}
