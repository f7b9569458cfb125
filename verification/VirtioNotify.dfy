/** The validators that put the pieces together (src/selinos_pci.c): the common range
    validator chooses the transaction by the BAR's type, and the notify validator goes
    from the inspection of the configuration space over that range to its own tests. */
module VirtioNotify {
  import opened Bits
  import opened VirtioRange
  import opened PciConfig
  import opened PciCapabilities
  import opened PciBar

  // ---------------------------------------------------------------- the common range

  /** What the common validator answers when every request goes through. */
  function CommonValidation(cap: CommonCap, bars: seq<U32>, masks: seq<U32>, wired: seq<U32>): Option<CommonRange>
    requires |bars| == |masks| == |wired| == BAR_COUNT
  {
    if cap.bar >= BAR_COUNT || And(bars[cap.bar], 1) != 0 then None
    else if And(bars[cap.bar], TYPE_MASK) == 0 then Validation32(cap, bars, masks, wired)
    else if And(bars[cap.bar], TYPE_MASK) == TYPE_64 then Validation64(cap, bars, masks, wired)
    else None
  }

  /** `selinos_pci_validate_qemu_virtio_blk_common_range`: one look at the BAR decides
      which transaction is run. */
  method ValidateCommonRange(f: PciFunction, cap: CommonCap) returns (range: Option<CommonRange>)
    requires f.Settled()
    modifies f`command, f`bars, f`trace, f`slots, f`asked
    ensures f.slots == old(f.slots) && f.Wired()
    ensures range.Some? ==> range == CommonValidation(cap, old(f.bars), f.masks, f.wired)
    ensures (forall k: nat :: k >= old(f.asked) ==> f.port(k)) ==>
              range == CommonValidation(cap, old(f.bars), f.masks, f.wired) && Restored(f)
  {
    hide And, Quiet, Validation32, Validation64, Stored, StoredWord, CommonCapOk, Begins32, Begins64;
    hide Passed4, Passed8, Next4, Next8, Enable32, Enable64, ProbeStays, LowStays, HighStays, Pair;
    NothingYet(f.trace, f.bars);
    range := None;
    if cap.identity.device >= 32 || cap.identity.function_ >= 8 || cap.bar >= BAR_COUNT {
      NotValidated(cap, f.bars, f.masks, f.wired);
      return;
    }
    var acquired := f.Acquire();
    if !acquired {
      return;
    }
    var ok, bar := f.ReadBar(cap.bar);
    f.Release();
    if !ok || And(bar, 1) != 0 {
      return;
    }
    if And(bar, TYPE_MASK) == 0 {
      range := ValidateRange32(f, cap);
    } else if And(bar, TYPE_MASK) == TYPE_64 {
      range := ValidateRange64(f, cap);
    }
  }

  lemma NotValidated(cap: CommonCap, bars: seq<U32>, masks: seq<U32>, wired: seq<U32>)
    requires |bars| == |masks| == |wired| == BAR_COUNT
    requires cap.identity.device >= 32 || cap.identity.function_ >= 8 || cap.bar >= BAR_COUNT
    ensures CommonValidation(cap, bars, masks, wired) == None
  {
    hide And;
  }

  // ---------------------------------------------------------------- from the configuration space to the range

  /** The capability as the range validators take it. */
  function AsCommon(device: nat, c: Capability): CommonCap {
    CommonCap(Identity(device, 0, VENDOR, BLK_MODERN), c.bar, c.offset, c.length)
  }

  /** The registers of function zero of every device. */
  datatype Registers = Registers(bars: seq<U32>, masks: seq<U32>, wired: seq<U32>) {
    predicate Valid() {
      |bars| == |masks| == |wired| == BAR_COUNT
    }
  }

  /** The range a common capability of a device leads to, and a notify capability with it. */
  function NotifyBy(cap: NotifyCap, device: nat, c: Capability, r: Registers): Option<NotifyRange>
    requires r.Valid()
  {
    var common := CommonValidation(AsCommon(device, c), r.bars, r.masks, r.wired);
    if common.Some? then NotifyRangeFor(cap, common.value) else None
  }

  /** What the notify validator answers when every request goes through: the first
      common capability of the first block device decides. */
  ghost function NotifyValidation(cap: NotifyCap, space: seq<seq<U8>>, registers: seq<Registers>): Option<NotifyRange>
    requires SpaceValid(space) && |registers| == DEVICES && forall d :: 0 <= d < DEVICES ==> registers[d].Valid()
  {
    var device, c := FirstBlk(space, 0), Inspection(space, COMMON_CFG);
    if c.Some? && device < DEVICES then NotifyBy(cap, device, c.value, registers[device]) else None
  }

  /** The capability's own tests, which come before anything is asked of the machine. */
  predicate NotifyCapOk(cap: NotifyCap) {
    && IsBlk(cap.identity) && cap.identity.device < 32 && cap.identity.function_ < 8
    && cap.bar < BAR_COUNT && cap.length >= NOTIFY_MIN_LENGTH
    && And(cap.offset, 3) == 0 && And(cap.length, 3) == 0 && cap.multiplier != 0
  }

  lemma OkForAny(cap: NotifyCap, device: nat, c: Capability, r: Registers)
    requires r.Valid() && !NotifyCapOk(cap)
    ensures NotifyBy(cap, device, c, r) == None
  {
    hide And, CommonValidation, IsBlk;
  }

  /** An answer of the notify validator is a window of its BAR, at the sum of the BAR's
      address and the capability's offset. */
  lemma NotifyBySane(cap: NotifyCap, device: nat, c: Capability, r: Registers)
    requires r.Valid() && NotifyBy(cap, device, c, r).Some?
    ensures var range := NotifyBy(cap, device, c, r).value;
            && NotifySane(range) && range.capability == cap
            && range.capPaddr == range.barPaddr + cap.offset
            && range.capPaddr + cap.length <= range.barPaddr + range.barSize
            && cap.identity.device == device && cap.bar == c.bar
  {
    CommonIsSane(AsCommon(device, c), r);
    hide And, CommonValidation, CommonSane;
    var common := CommonValidation(AsCommon(device, c), r.bars, r.masks, r.wired).value;
    NotifyAccepted(cap, common);
    NotifyContained(NotifyRangeFor(cap, common).value);
  }

  lemma CommonIsSane(cap: CommonCap, r: Registers)
    requires r.Valid() && CommonValidation(cap, r.bars, r.masks, r.wired).Some?
    ensures var range := CommonValidation(cap, r.bars, r.masks, r.wired).value;
            CommonSane(range) && range.capability == cap
  {
    hide And, CommonSane, Size32, Size64, Bar64, Stored, CommonCapOk, Assigned32, Memory64;
  }

  function RegistersOf(f: PciFunction): Registers
    reads f`bars
  {
    Registers(f.bars, f.masks, f.wired)
  }

  /** From a common capability on. */
  method ValidateNotifyAt(f: PciFunction, cap: NotifyCap, device: nat, c: Capability)
    returns (range: Option<NotifyRange>)
    requires f.Settled()
    modifies f`command, f`bars, f`trace, f`slots, f`asked
    ensures range.Some? ==> range == NotifyBy(cap, device, c, old(RegistersOf(f)))
    ensures (forall k: nat :: f.port(k)) ==> range == NotifyBy(cap, device, c, old(RegistersOf(f))) && Restored(f)
  {
    hide CommonValidation, NotifyRangeFor, Stored, StoredWord, And, Quiet;
    var common := ValidateCommonRange(f, AsCommon(device, c));
    return if common.Some? then NotifyRangeFor(cap, common.value) else None;
  }

  /** The answer follows from a common capability on a block device's list. */
  ghost predicate Follows(cap: NotifyCap, space: seq<seq<U8>>, registers: seq<Registers>, range: Option<NotifyRange>)
    requires SpaceValid(space) && |registers| == DEVICES && forall d :: 0 <= d < DEVICES ==> registers[d].Valid()
  {
    exists d: nat, k: nat ::
      && d < DEVICES && HoldsBlk(FunctionZero(space, d)) && Reachable(FunctionZero(space, d), k)
      && LedBy(cap, d, CapabilityAt(FunctionZero(space, d), COMMON_CFG, Pointer(FunctionZero(space, d), k)),
               registers[d], range)
  }

  predicate LedBy(cap: NotifyCap, device: nat, c: Option<Capability>, r: Registers, range: Option<NotifyRange>)
    requires r.Valid()
  {
    c.Some? && range == NotifyBy(cap, device, c.value, r)
  }

  /** `selinos_pci_validate_qemu_virtio_blk_notify_range`, from end to end, over the
      function zero of every device and its registers at entry.  Whatever it answers
      follows from a common capability that is reachable on a block device's list; and
      when every request goes through it is the answer for the first such capability
      of the first such device, and all registers are as before. */
  method ValidateNotifyRange(port: ConfigPort, functions: seq<PciFunction>, cap: NotifyCap,
                             ghost registers: seq<Registers>)
    returns (range: Option<NotifyRange>)
    requires SpaceValid(port.space) && |functions| == |registers| == DEVICES
    requires forall d :: 0 <= d < DEVICES ==> functions[d].Settled() && registers[d] == RegistersOf(functions[d])
    requires forall d :: 0 <= d < DEVICES ==> registers[d].Valid()
    modifies port, set f | f in functions
    ensures range.Some? ==> Follows(cap, port.space, registers, range)
    ensures (forall k: nat :: port.grants(k)) && (forall d, k: nat :: 0 <= d < DEVICES ==> functions[d].port(k)) ==>
              && range == NotifyValidation(cap, port.space, registers)
              && forall d :: 0 <= d < DEVICES ==>
                   RegistersOf(functions[d]) == registers[d] && functions[d].command == old(functions[d].command)
  {
    hide NotifyBy, And, Stored, StoredWord, FunctionZero, Reachable, Pointer, CapabilityAt, HoldsBlk, FirstBlk,
      Inspection;
    hide PciFunction.Settled, Quiet;
    range := None;
    if !NotifyCapOk(cap) {
      NothingForBad(cap, port.space, registers);
      return;
    }
    var acquired, device, c := Inspect(port, COMMON_CFG);
    if c.Some? {
      range := ValidateNotifyAt(functions[device], cap, device, c.value);
    }
  }

  lemma NothingForBad(cap: NotifyCap, space: seq<seq<U8>>, registers: seq<Registers>)
    requires SpaceValid(space) && |registers| == DEVICES && forall d :: 0 <= d < DEVICES ==> registers[d].Valid()
    requires !NotifyCapOk(cap)
    ensures NotifyValidation(cap, space, registers) == None
  {
    var device, c := FirstBlk(space, 0), Inspection(space, COMMON_CFG);
    if c.Some? && device < DEVICES {
      OkForAny(cap, device, c.value, registers[device]);
    }
  }
}
