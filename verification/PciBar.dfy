/** BAR sizing as a transaction (PCI Local Bus 3.0, section 6.2.5.1): the range
    validators and the allocator of src/selinos_pci.c, over one function's
    registers.  Every port access may fail; a failed write changes nothing. */
module PciBar {
  import opened Bits
  import opened VirtioRange

  const COMMAND_MEMORY: nat := 2
  const COMMAND_MASTER: nat := 4
  const DECODE_BITS: nat := 6  // COMMAND_MEMORY | COMMAND_MASTER
  const ADDRESS_MASK: U32 := 0xffff_fff0
  const TYPE_MASK: nat := 6
  const TYPE_64: nat := 4
  const ALL_ONES: U32 := 0xffff_ffff
  const LIMIT_32: nat := WRAP32

  datatype Snapshot = Snapshot(command: U16, bars: seq<U32>) {
    predicate DecodeOff() {
      And(command, DECODE_BITS) == 0
    }
  }

  /** What a register holds after `v` is written: the writable bits of `v`, and
      the wired ones. */
  function Stored(v: U32, mask: U32, wired: U32): U32 {
    Pow2Values();
    OrBound(And(v, mask), wired, 32);
    Or(And(v, mask), wired)
  }

  function StoredWord(v: U16, mask: U16, wired: U16): U16 {
    Pow2Values();
    OrBound(And(v, mask), wired, 16);
    Or(And(v, mask), wired)
  }

  /** Memory decoding and bus mastering are off in every later state in which the
      BARs are not the original ones. */
  ghost predicate Quiet(trace: seq<Snapshot>, from: nat, bars: seq<U32>) {
    forall k :: from <= k < |trace| && trace[k].bars != bars ==> trace[k].DecodeOff()
  }

  lemma QuietStep(trace: seq<Snapshot>, s: Snapshot, from: nat, bars: seq<U32>)
    requires Quiet(trace, from, bars) && (s.bars != bars ==> s.DecodeOff())
    ensures Quiet(trace + [s], from, bars)
  {
  }

  // ---------------------------------------------------------------- which requests go through

  /** How many requests from the m-th on go through before the first that is refused,
      counted up to four and up to eight. */
  function Passed4(port: nat -> bool, m: nat): (k: nat)
    ensures k <= 4
  {
    if !port(m) then 0 else if !port(m + 1) then 1 else if !port(m + 2) then 2 else if !port(m + 3) then 3 else 4
  }

  function Passed8(port: nat -> bool, m: nat): (k: nat)
    ensures k <= 8
  {
    if Passed4(port, m) < 4 then Passed4(port, m) else 4 + Passed4(port, m + 4)
  }

  /** The request after such a sequence, which stops at the first that is refused. */
  function Next4(port: nat -> bool, m: nat): nat {
    if Passed4(port, m) < 4 then m + Passed4(port, m) + 1 else m + 4
  }

  function Next8(port: nat -> bool, m: nat): nat {
    if Passed4(port, m) < 4 then Next4(port, m) else Next4(port, m + 4)
  }

  lemma AllPass(port: nat -> bool, m: nat)
    requires forall k: nat :: k >= m ==> port(k)
    ensures Passed4(port, m) == 4 && Next4(port, m) == m + 4
    ensures Passed8(port, m) == 8 && Next8(port, m) == m + 8
  {
  }

  /** `port` decides, request by request, which ones go through. */
  class PciFunction {
    const port: nat -> bool
    const identity: U32
    const masks: seq<U32>
    const wired: seq<U32>
    const commandMask: U16
    const commandWired: U16
    var command: U16
    var bars: seq<U32>
    var slots: nat
    var asked: nat
    ghost var trace: seq<Snapshot>

    /** Six BARs, and neither decode bit stuck on. */
    predicate Wired()
      reads `bars
    {
      |masks| == |wired| == |bars| == BAR_COUNT && And(commandWired, DECODE_BITS) == 0
    }

    /** Each register holds a value that writing it back would leave. */
    predicate Settled()
      reads `bars, `command
    {
      && Wired()
      && command == StoredWord(command, commandMask, commandWired)
      && forall i :: 0 <= i < BAR_COUNT ==> bars[i] == Stored(bars[i], masks[i], wired[i])
    }

    constructor (port: nat -> bool, identity: U32, masks: seq<U32>, wired: seq<U32>, commandMask: U16,
                 commandWired: U16)
      requires |masks| == |wired| == BAR_COUNT && And(commandWired, DECODE_BITS) == 0
      ensures Wired() && command == commandWired && bars == wired && asked == 0
      ensures this.port == port && this.identity == identity && this.masks == masks && this.wired == wired
      ensures this.commandMask == commandMask && this.commandWired == commandWired
    {
      this.port, this.identity, this.masks, this.wired := port, identity, masks, wired;
      this.commandMask, this.commandWired := commandMask, commandWired;
      command, bars, slots, asked, trace := commandWired, wired, 0, 0, [];
    }

    method Attempt() returns (ok: bool)
      modifies `asked
      ensures ok == port(old(asked)) && asked == old(asked) + 1
    {
      ok := port(asked);
      asked := asked + 1;
    }

    method Acquire() returns (ok: bool)
      modifies `slots, `asked
      ensures ok == port(old(asked)) && asked == old(asked) + 1
      ensures slots == old(slots) + (if ok then 1 else 0)
    {
      ok := Attempt();
      if ok {
        slots := slots + 1;
      }
    }

    method Release()
      requires slots > 0
      modifies `slots
      ensures slots == old(slots) - 1
    {
      slots := slots - 1;
    }

    method ReadIdentity() returns (ok: bool, value: U32)
      modifies `asked
      ensures ok == port(old(asked)) && asked == old(asked) + 1
      ensures ok ==> value == identity
    {
      ok := Attempt();
      value := identity;
    }

    method ReadCommand() returns (ok: bool, value: U16)
      modifies `asked
      ensures ok == port(old(asked)) && asked == old(asked) + 1
      ensures ok ==> value == command
    {
      ok := Attempt();
      value := command;
    }

    method ReadBar(i: nat) returns (ok: bool, value: U32)
      requires Wired() && i < BAR_COUNT
      modifies `asked
      ensures ok == port(old(asked)) && asked == old(asked) + 1
      ensures ok ==> value == bars[i]
    {
      ok := Attempt();
      value := bars[i];
    }

    method WriteCommand(value: U16) returns (ok: bool)
      modifies `command, `asked, `trace
      ensures ok == port(old(asked)) && asked == old(asked) + 1
      ensures ok ==> command == StoredWord(value, commandMask, commandWired)
      ensures ok ==> trace == old(trace) + [Snapshot(command, bars)]
      ensures !ok ==> command == old(command) && trace == old(trace)
    {
      ok := Attempt();
      if ok {
        command := StoredWord(value, commandMask, commandWired);
        trace := trace + [Snapshot(command, bars)];
      }
    }

    method WriteBar(i: nat, value: U32) returns (ok: bool)
      requires Wired() && i < BAR_COUNT
      modifies `bars, `asked, `trace
      ensures ok == port(old(asked)) && asked == old(asked) + 1
      ensures Wired()
      ensures ok ==> bars == old(bars)[i := Stored(value, masks[i], wired[i])]
      ensures ok ==> trace == old(trace) + [Snapshot(command, bars)]
      ensures !ok ==> bars == old(bars) && trace == old(trace)
    {
      ok := Attempt();
      if ok {
        bars := bars[i := Stored(value, masks[i], wired[i])];
        trace := trace + [Snapshot(command, bars)];
      }
    }
  }

  /** `original & ~(PCI_COMMAND_MEMORY | PCI_COMMAND_MASTER)`. */
  function Quiesced(command: U16): U16 {
    And(command, 0xffff_fff9)
  }

  /** Writing the quiesced command turns memory decoding and mastering off,
      whatever the other bits are wired to. */
  lemma QuiescedDecodeOff(command: U16, mask: U16, wired: U16)
    requires And(wired, DECODE_BITS) == 0
    ensures And(StoredWord(Quiesced(command), mask, wired), DECODE_BITS) == 0
  {
    Pow2Values();
    AndComplement(command, DECODE_BITS, 32);
    ClearedBits(command, DECODE_BITS);
    AndKeepsClear(Quiesced(command), mask, DECODE_BITS);
    OrStaysClear(And(Quiesced(command), mask), wired, DECODE_BITS);
  }

  /** Subtracting a word's own bits clears them. */
  lemma {:induction false} ClearedBits(a: nat, m: nat)
    ensures And(a - And(a, m), m) == 0
    decreases a
  {
    if a != 0 {
      hide And;
      LowBit(a, m);
      var b := And(a, m);
      ClearedBits(a / 2, m / 2);
      HalfDifference(a, b);
      ClearParts(a - b, m);
    }
  }

  lemma HalfDifference(a: nat, b: nat)
    requires b <= a && b % 2 <= a % 2
    ensures (a - b) / 2 == a / 2 - b / 2 && (a - b) % 2 == a % 2 - b % 2
  {
  }

  // ---------------------------------------------------------------- sizes

  /** The size a 32-bit sizing response announces; none for I/O space, for other
      memory types, for an unimplemented BAR, and for a mask with holes. */
  function Size32(sizing: U32): Option<nat> {
    if And(sizing, 1) != 0 || And(sizing, TYPE_MASK) != 0 then None
    else
      var mask := And(sizing, ADDRESS_MASK);
      if mask == 0 then None
      else
        var size := And(Not64(mask), 0xffff_ffff) + 1;
        if And(size, size - 1) != 0 then None else Some(size)
  }

  /** Two registers as one 64-bit address or mask. */
  function Bar64(low: U32, high: U32): (r: U64)
    ensures r == high * WRAP32 + (low - low % 16)
  {
    AddressPart(low);
    OrShifted64(high, And(low, ADDRESS_MASK));
    Or(high * WRAP32, And(low, ADDRESS_MASK))
  }

  function Size64(low: U32, high: U32): Option<nat> {
    var mask := Bar64(low, high);
    if mask == 0 then None
    else
      var size := Add64(Not64(mask), 1);
      if size == 0 || And(size, size - 1) != 0 then None else Some(size)
  }

  lemma OrShifted64(high: U32, low: U32)
    ensures Or(high * WRAP32, low) == high * WRAP32 + low < WRAP64
  {
    Pow2Values();
    OrShifted(high, 32, low);
  }

  lemma SizeMask(mask: U32)
    requires mask != 0
    ensures And(Not64(mask), 0xffff_ffff) + 1 == WRAP32 - mask
  {
    Pow2Values();
    AndLowMask(Not64(mask), 32);
    hide And;
    DivModUnique(Not64(mask), WRAP32, WRAP32 - 1, WRAP32 - 1 - mask);
  }

  /** The address part of a BAR value. */
  lemma AddressPart(v: U32)
    ensures And(v, ADDRESS_MASK) == v - v % 16
  {
    Pow2Values();
    AndHighMask(v, 4, 32);
    hide And;
    assert WRAP32 - 16 == ADDRESS_MASK;
  }

  /** Every announced size is a power of two from 16 to 2^32, and adds up to 2^32
      with the mask. */
  lemma SizeMeaning(sizing: U32)
    ensures Size32(sizing).Some? ==>
              var size := Size32(sizing).value;
              && PowerOfTwo(size) && 16 <= size <= WRAP32
              && size == WRAP32 - (sizing - sizing % 16)
  {
    hide And;
    AddressPart(sizing);
    if And(sizing, ADDRESS_MASK) != 0 {
      SizeMask(And(sizing, ADDRESS_MASK));
    }
  }

  // ---------------------------------------------------------------- range validators

  /** The arithmetic of the 32-bit validator, after the BAR has been restored. */
  function RangeFor32(cap: CommonCap, original: U32, sizing: U32): Option<CommonRange> {
    var size := Size32(sizing);
    if size.None? || size.value > MAX64 then None
    else
      var bar := And(original, ADDRESS_MASK);
      if bar > MAX64 - size.value || cap.offset > size.value || cap.length > size.value - cap.offset then None
      else RangeAt(cap, bar, size.value)
  }

  function RangeFor64(cap: CommonCap, low: U32, high: U32, sizingLow: U32, sizingHigh: U32): Option<CommonRange> {
    var size, bar := Size64(sizingLow, sizingHigh), Bar64(low, high);
    if || size.None? || bar == 0 || cap.offset > size.value || cap.length > size.value - cap.offset
       || bar > MAX64 - cap.offset
    then None
    else RangeAt(cap, bar, size.value)
  }

  /** The common tail: the capability's address, its page, and the sanity test. */
  function RangeAt(cap: CommonCap, bar: U64, size: U64): Option<CommonRange> {
    var common := Add64(bar, cap.offset);
    if common < bar || common > MAX64 - FEATURE_OFF || And(common, 3) != 0 then None
    else
      var page := And(common, Not64(PAGE - 1));
      var r := CommonRange(cap, bar, size, common, page, Sub64(common, page));
      if CommonSane(r) then Some(r) else None
  }

  predicate CommonCapOk(cap: CommonCap, lastBar: nat) {
    && IsBlk(cap.identity) && cap.identity.device < 32 && cap.identity.function_ < 8
    && cap.bar < lastBar && cap.length >= COMMON_MIN_LENGTH
    && And(cap.offset, 3) == 0 && And(cap.length, 3) == 0
  }

  /** An assigned 32-bit memory BAR, as firmware leaves it: only such a one is probed. */
  predicate Assigned32(bar: U32) {
    And(bar, 1) == 0 && And(bar, TYPE_MASK) == 0 && And(bar, ADDRESS_MASK) != 0
  }

  /** The low half of a 64-bit memory BAR. */
  predicate Memory64(bar: U32) {
    And(bar, 1) == 0 && And(bar, TYPE_MASK) == TYPE_64
  }

  /** What a validator answers when every request goes through: which BARs are probed
      at all, and the arithmetic. */
  function Validation32(cap: CommonCap, bars: seq<U32>, masks: seq<U32>, wired: seq<U32>): Option<CommonRange>
    requires |bars| == |masks| == |wired| == BAR_COUNT
  {
    if CommonCapOk(cap, BAR_COUNT) && Assigned32(bars[cap.bar]) then
      RangeFor32(cap, bars[cap.bar], Stored(ALL_ONES, masks[cap.bar], wired[cap.bar]))
    else None
  }

  function Validation64(cap: CommonCap, bars: seq<U32>, masks: seq<U32>, wired: seq<U32>): Option<CommonRange>
    requires |bars| == |masks| == |wired| == BAR_COUNT
  {
    if CommonCapOk(cap, BAR_COUNT - 1) && Memory64(bars[cap.bar]) then
      RangeFor64(cap, bars[cap.bar], bars[cap.bar + 1], Stored(ALL_ONES, masks[cap.bar], wired[cap.bar]),
                 Stored(ALL_ONES, masks[cap.bar + 1], wired[cap.bar + 1]))
    else None
  }

  /** What a validator leaves behind when its clean-up writes go through: the entry
      values, with decoding off whenever the BARs held anything else. */
  twostate predicate Restored(f: PciFunction)
    reads f
  {
    && f.command == old(f.command)
    && f.bars == old(f.bars)
    && QuietSince(f)
  }

  twostate predicate QuietSince(f: PciFunction)
    reads f
  {
    |old(f.trace)| <= |f.trace| && Quiet(f.trace, |old(f.trace)|, old(f.bars))
  }

  lemma CapOkBar(cap: CommonCap)
    ensures CommonCapOk(cap, BAR_COUNT) ==> cap.bar < BAR_COUNT
    ensures CommonCapOk(cap, BAR_COUNT - 1) ==> cap.bar < BAR_COUNT - 1
  {
  }

  lemma NothingYet(trace: seq<Snapshot>, bars: seq<U32>)
    ensures Quiet(trace, |trace|, bars)
  {
  }

  /** A BAR write while decoding is off. */
  method SetBar(f: PciFunction, b: nat, value: U32, ghost from: nat, ghost bars: seq<U32>) returns (ok: bool)
    requires f.Wired() && b < BAR_COUNT && And(f.command, DECODE_BITS) == 0
    requires from <= |f.trace| && Quiet(f.trace, from, bars)
    modifies f`bars, f`trace, f`asked
    ensures f.Wired() && from <= |f.trace| && Quiet(f.trace, from, bars)
    ensures f.bars == if ok then old(f.bars)[b := Stored(value, f.masks[b], f.wired[b])] else old(f.bars)
    ensures ok == f.port(old(f.asked)) && f.asked == old(f.asked) + 1
  {
    hide And, Or, Stored, Quiet;
    ok := f.WriteBar(b, value);
    if ok {
      QuietStep(old(f.trace), Snapshot(f.command, f.bars), from, bars);
    }
  }

  /** A command write: one that turns decoding off, or one with the BARs in place. */
  method SetCommand(f: PciFunction, value: U16, ghost from: nat, ghost bars: seq<U32>) returns (ok: bool)
    requires from <= |f.trace|
    modifies f`command, f`trace, f`asked
    ensures f.command == if ok then StoredWord(value, f.commandMask, f.commandWired) else old(f.command)
    ensures from <= |f.trace|
    ensures old(Quiet(f.trace, from, bars)) && (ok ==> f.bars == bars) ==> Quiet(f.trace, from, bars)
    ensures ok == f.port(old(f.asked)) && f.asked == old(f.asked) + 1
  {
    hide StoredWord, Quiet;
    ok := f.WriteCommand(value);
    if ok && old(Quiet(f.trace, from, bars)) && f.bars == bars {
      QuietStep(old(f.trace), Snapshot(f.command, f.bars), from, bars);
    }
  }

  // ---------------------------------------------------------------- the 32-bit validator

  /** A validation that quiesces the device.  Its requests are, from the n-th on: open
      the ports, read the command, read the BAR, quiesce; then, from the (n + 4)-th
      on, write the probe, read the size, write the BAR back, read it back. */
  predicate Begins32(port: nat -> bool, n: nat, cap: CommonCap, bars: seq<U32>)
    requires |bars| == BAR_COUNT
  {
    && CommonCapOk(cap, BAR_COUNT) && Assigned32(bars[cap.bar])
    && port(n) && port(n + 1) && port(n + 2) && port(n + 3)
  }

  /** The probe was written and not written back, and the clean-up write is refused. */
  predicate ProbeStays(port: nat -> bool, m: nat) {
    1 <= Passed4(port, m) <= 2 && !port(Next4(port, m))
  }

  lemma ProbeGone(port: nat -> bool, m: nat)
    ensures port(Next4(port, m)) || Passed4(port, m) == 4 ==> !ProbeStays(port, m)
  {
  }

  /** The last request: the command write, behind a clean-up write if there is one. */
  function Enable32(port: nat -> bool, m: nat, failed: bool): nat {
    Next4(port, m) + if Passed4(port, m) >= 1 && failed then 1 else 0
  }

  /** The 32-bit validator.  For every pattern of refused requests: its answer, what is
      in the registers when it returns, and when decoding may be on with the probe in
      the BAR.  In particular they are restored if the clean-up writes go through. */
  method ValidateRange32(f: PciFunction, cap: CommonCap) returns (range: Option<CommonRange>)
    requires f.Settled()
    modifies f`command, f`bars, f`trace, f`slots, f`asked
    ensures f.slots == old(f.slots) && f.Wired()
    ensures !Begins32(f.port, old(f.asked), cap, old(f.bars)) ==> range == None && Restored(f)
    ensures Begins32(f.port, old(f.asked), cap, old(f.bars)) ==>
              var b, m := cap.bar, old(f.asked) + 4;
              var last := Enable32(f.port, m, range.None?);
              && range == (if Passed4(f.port, m) == 4 then Validation32(cap, old(f.bars), f.masks, f.wired) else None)
              && f.bars == (if ProbeStays(f.port, m) then old(f.bars)[b := Stored(ALL_ONES, f.masks[b], f.wired[b])]
                            else old(f.bars))
              && f.command == (if f.port(last) then old(f.command)
                               else StoredWord(Quiesced(old(f.command)), f.commandMask, f.commandWired))
              && (QuietSince(f) || (ProbeStays(f.port, m) && f.port(last)))
              && f.asked == last + 1
    ensures Begins32(f.port, old(f.asked), cap, old(f.bars)) ==>
              var m := old(f.asked) + 4;
              f.port(Next4(f.port, m)) && f.port(Enable32(f.port, m, range.None?)) ==> Restored(f)
    ensures (forall k: nat :: k >= old(f.asked) ==> f.port(k)) ==>
              range == Validation32(cap, old(f.bars), f.masks, f.wired) && Restored(f)
  {
    hide And, Or, Stored, StoredWord, RangeFor32, Quiet, CommonCapOk, Assigned32, Passed4;
    CapOkBar(cap);
    range := None;
    NothingYet(f.trace, f.bars);
    ghost var from := |f.trace|;
    if !CommonCapOk(cap, BAR_COUNT) {
      return;
    }
    var acquired := f.Acquire();
    if !acquired {
      return;
    }
    var ok;
    var command: U16 := 0;
    var original: U32 := 0;
    label out: {
      ok, command := f.ReadCommand();
      if !ok {
        break out;
      }
      ok, original := f.ReadBar(cap.bar);
      if !ok || !Assigned32(original) {
        break out;
      }
      range := Transact32(f, cap, command, original, from);
    }
    f.Release();
    if forall k: nat :: k >= old(f.asked) ==> f.port(k) {
      AllPass(f.port, old(f.asked) + 4);
    }
  }

  /** From the quiescing write to the last clean-up write. */
  method Transact32(f: PciFunction, cap: CommonCap, command: U16, original: U32, ghost from: nat)
    returns (range: Option<CommonRange>)
    requires f.Settled() && cap.bar < BAR_COUNT && from <= |f.trace| && Quiet(f.trace, from, f.bars)
    requires command == f.command && original == f.bars[cap.bar]
    modifies f`command, f`bars, f`trace, f`asked
    ensures f.Wired() && from <= |f.trace|
    ensures var q, b, m := old(f.asked), cap.bar, old(f.asked) + 1;
            var last := Enable32(f.port, m, range.None?);
            if !f.port(q) then
              range == None && f.command == old(f.command) && f.bars == old(f.bars) && Quiet(f.trace, from, f.bars)
            else
              && range == (if Passed4(f.port, m)
                == 4 then RangeFor32(cap, original, Stored(ALL_ONES, f.masks[b], f.wired[b]))
                           else None)
              && f.bars == (if ProbeStays(f.port, m) then old(f.bars)[b := Stored(ALL_ONES, f.masks[b], f.wired[b])]
                            else old(f.bars))
              && f.command == (if f.port(last) then command
                               else StoredWord(Quiesced(command), f.commandMask, f.commandWired))
              && (Quiet(f.trace, from, old(f.bars)) || (ProbeStays(f.port, m) && f.port(last)))
              && f.asked == last + 1
  {
    hide And, Or, Stored, StoredWord, RangeFor32, Quiet, Passed4;
    range := None;
    ghost var bars := f.bars;
    var ok := SetCommand(f, Quiesced(command), from, bars);
    if !ok {
      return;
    }
    QuiescedDecodeOff(command, f.commandMask, f.commandWired);
    var touched;
    range, touched := Probe32(f, cap, original, from);
    if touched && range.None? {
      ok := SetBar(f, cap.bar, original, from, bars);
    }
    ok := SetCommand(f, command, from, bars);
  }

  /** The sizing probe: all-ones, read, write back, read back; then the arithmetic. */
  method Probe32(f: PciFunction, cap: CommonCap, original: U32, ghost from: nat)
    returns (range: Option<CommonRange>, touched: bool)
    requires f.Wired() && cap.bar < BAR_COUNT && And(f.command, DECODE_BITS) == 0
    requires original == f.bars[cap.bar] == Stored(original, f.masks[cap.bar], f.wired[cap.bar])
    requires from <= |f.trace| && Quiet(f.trace, from, f.bars)
    modifies f`bars, f`trace, f`asked
    ensures f.Wired() && from <= |f.trace| && Quiet(f.trace, from, old(f.bars))
    ensures var b, k := cap.bar, Passed4(f.port, old(f.asked));
            var sizing := Stored(ALL_ONES, f.masks[b], f.wired[b]);
            && (touched <==> k >= 1) && f.asked == Next4(f.port, old(f.asked))
            && f.bars == (if 1 <= k <= 2 then old(f.bars)[b := sizing] else old(f.bars))
            && range == (if k == 4 then RangeFor32(cap, original, sizing) else None)
  {
    hide And, Or, Stored, RangeFor32, Quiet;
    range, touched := None, false;
    var ok, sizing, back;
    ok := SetBar(f, cap.bar, ALL_ONES, from, old(f.bars));
    if !ok {
      return;
    }
    touched := true;
    ok, sizing := f.ReadBar(cap.bar);
    if !ok {
      return;
    }
    ok := SetBar(f, cap.bar, original, from, old(f.bars));
    if !ok {
      return;
    }
    ok, back := f.ReadBar(cap.bar);
    if !ok || back != original {
      return;
    }
    range := RangeFor32(cap, original, sizing);
  }

  // ---------------------------------------------------------------- the 64-bit validator

  /** As for 32 bits, with one more BAR read before the quiescing write; then, from
      the (n + 5)-th request on, write both probes, read both sizes, write the high
      and the low BAR back, read both back. */
  predicate Begins64(port: nat -> bool, n: nat, cap: CommonCap, bars: seq<U32>)
    requires |bars| == BAR_COUNT
  {
    CommonCapOk(cap, BAR_COUNT - 1) && port(n) && Quiesces64(port, n + 1, bars[cap.bar])
  }

  predicate Quiesces64(port: nat -> bool, q: nat, low: U32) {
    Memory64(low) && port(q) && port(q + 1) && port(q + 2) && port(q + 3)
  }

  /** The clean-up rewrites the high BAR first, and both whenever a probe was written. */
  predicate HighStays(port: nat -> bool, m: nat) {
    2 <= Passed8(port, m) <= 4 && !port(Next8(port, m))
  }

  predicate LowStays(port: nat -> bool, m: nat) {
    1 <= Passed8(port, m) <= 5 && !port(Next8(port, m) + 1)
  }

  lemma PairGone(port: nat -> bool, m: nat)
    ensures port(Next8(port, m)) ==> !HighStays(port, m)
    ensures port(Next8(port, m) + 1) ==> !LowStays(port, m)
  {
  }

  function Enable64(port: nat -> bool, m: nat): nat {
    Next8(port, m) + if Passed8(port, m) >= 1 then 2 else 0
  }

  /** The pair with the probe in one half, both or none. */
  function Pair(bars: seq<U32>, b: nat, masks: seq<U32>, wired: seq<U32>, low: bool, high: bool): seq<U32>
    requires b + 1 < |bars| == |masks| == |wired|
  {
    bars[b := if low then Stored(ALL_ONES, masks[b], wired[b]) else bars[b]]
        [b + 1 := if high then Stored(ALL_ONES, masks[b + 1], wired[b + 1]) else bars[b + 1]]
  }

  lemma AllPass64(port: nat -> bool, m: nat)
    requires forall k: nat :: k >= m ==> port(k)
    ensures Passed8(port, m) == 8 && Enable64(port, m) == m + 10 && !LowStays(port, m) && !HighStays(port, m)
  {
    AllPass(port, m);
  }

  /** The 64-bit validator: the same transaction over a pair of BARs. */
  method ValidateRange64(f: PciFunction, cap: CommonCap) returns (range: Option<CommonRange>)
    requires f.Settled()
    modifies f`command, f`bars, f`trace, f`slots, f`asked
    ensures f.slots == old(f.slots) && f.Wired()
    ensures !Begins64(f.port, old(f.asked), cap, old(f.bars)) ==> range == None && Restored(f)
    ensures Begins64(f.port, old(f.asked), cap, old(f.bars)) ==>
              var m := old(f.asked) + 5;
              var last, low, high := Enable64(f.port, m), LowStays(f.port, m), HighStays(f.port, m);
              && range == (if Passed8(f.port, m) == 8 then Validation64(cap, old(f.bars), f.masks, f.wired) else None)
              && f.bars == Pair(old(f.bars), cap.bar, f.masks, f.wired, low, high)
              && f.command == (if f.port(last) then old(f.command)
                               else StoredWord(Quiesced(old(f.command)), f.commandMask, f.commandWired))
              && (QuietSince(f) || ((low || high) && f.port(last)))
              && f.asked == last + 1
    ensures Begins64(f.port, old(f.asked), cap, old(f.bars)) ==>
              var m := old(f.asked) + 5;
              var u := Next8(f.port, m);
              f.port(u) && f.port(u + 1) && f.port(Enable64(f.port, m)) ==> Restored(f)
    ensures (forall k: nat :: k >= old(f.asked) ==> f.port(k)) ==>
              range == Validation64(cap, old(f.bars), f.masks, f.wired) && Restored(f)
  {
    hide And, Or, Stored, StoredWord, RangeFor64, Quiet, CommonCapOk, Memory64, Quiesces64;
    hide Passed8, Next8, Pair, Enable64, LowStays, HighStays;
    CapOkBar(cap);
    NothingYet(f.trace, f.bars);
    range := None;
    if CommonCapOk(cap, BAR_COUNT - 1) {
      var acquired := f.Acquire();
      if acquired {
        range := Opened64(f, cap, |f.trace|);
        f.Release();
      }
    }
    PairGone(f.port, old(f.asked) + 5);
    if CommonCapOk(cap, BAR_COUNT - 1) {
      PairAsIs(old(f.bars), cap.bar, f.masks, f.wired);
      QuiescedIsMemory(f.port, old(f.asked) + 1, old(f.bars)[cap.bar]);
    }
    if forall k: nat :: k >= old(f.asked) ==> f.port(k) {
      AllPass64(f.port, old(f.asked) + 5);
      AllQuiesce64(f.port, old(f.asked) + 1);
    }
  }

  lemma QuiescedIsMemory(port: nat -> bool, q: nat, low: U32)
    ensures Quiesces64(port, q, low) ==> Memory64(low)
  {
  }

  lemma AllQuiesce64(port: nat -> bool, q: nat)
    requires forall k: nat :: k >= q ==> port(k)
    ensures forall low: U32 :: Quiesces64(port, q, low) <==> Memory64(low)
  {
  }

  /** With the ports open. */
  method Opened64(f: PciFunction, cap: CommonCap, ghost from: nat) returns (range: Option<CommonRange>)
    requires f.Settled() && cap.bar + 1 < BAR_COUNT && from <= |f.trace| && Quiet(f.trace, from, f.bars)
    modifies f`command, f`bars, f`trace, f`asked
    ensures f.Wired() && from <= |f.trace|
    ensures var b, m := cap.bar, old(f.asked) + 4;
            var last, low, high := Enable64(f.port, m), LowStays(f.port, m), HighStays(f.port, m);
            if !Quiesces64(f.port, old(f.asked), old(f.bars)[b]) then
              range == None && f.command == old(f.command) && f.bars == old(f.bars) && Quiet(f.trace, from, f.bars)
            else
              && range == (if Passed8(f.port, m) == 8 then
                             RangeFor64(cap, old(f.bars)[b], old(f.bars)[b + 1],
                               Stored(ALL_ONES, f.masks[b], f.wired[b]),
                                        Stored(ALL_ONES, f.masks[b + 1], f.wired[b + 1]))
                           else None)
              && f.bars == Pair(old(f.bars), b, f.masks, f.wired, low, high)
              && f.command == (if f.port(last) then old(f.command)
                               else StoredWord(Quiesced(old(f.command)), f.commandMask, f.commandWired))
              && (Quiet(f.trace, from, old(f.bars)) || ((low || high) && f.port(last)))
              && f.asked == last + 1
  {
    hide And, Or, Stored, StoredWord, RangeFor64, Quiet, Memory64;
    hide Passed8, Next8, Pair, Enable64, LowStays, HighStays;
    range := None;
    var ok, command := f.ReadCommand();
    if !ok {
      return;
    }
    var low, high;
    ok, low := f.ReadBar(cap.bar);
    if !ok {
      return;
    }
    ok, high := f.ReadBar(cap.bar + 1);
    if !ok || !Memory64(low) {
      return;
    }
    range := Transact64(f, cap, command, low, high, from);
  }

  lemma PairAsIs(bars: seq<U32>, b: nat, masks: seq<U32>, wired: seq<U32>)
    requires b + 1 < |bars| == |masks| == |wired|
    ensures Pair(bars, b, masks, wired, false, false) == bars
  {
  }

  /** Writing the halves back, the high one first. */
  lemma PairRestored(bars: seq<U32>, b: nat, masks: seq<U32>, wired: seq<U32>, low: bool, high: bool)
    requires b + 1 < |bars| == |masks| == |wired|
    ensures Pair(bars, b, masks, wired, low, high)[b + 1 := bars[b + 1]] == Pair(bars, b, masks, wired, low, false)
    ensures Pair(bars, b, masks, wired, low, high)[b := bars[b]] == Pair(bars, b, masks, wired, false, high)
  {
  }

  /** From the quiescing write to the last clean-up write. */
  method Transact64(f: PciFunction, cap: CommonCap, command: U16, low: U32, high: U32, ghost from: nat)
    returns (range: Option<CommonRange>)
    requires f.Settled() && cap.bar + 1 < BAR_COUNT && from <= |f.trace| && Quiet(f.trace, from, f.bars)
    requires command == f.command && low == f.bars[cap.bar] && high == f.bars[cap.bar + 1]
    modifies f`command, f`bars, f`trace, f`asked
    ensures f.Wired() && from <= |f.trace|
    ensures var q, b, m := old(f.asked), cap.bar, old(f.asked) + 1;
            var last, lowStays, highStays := Enable64(f.port, m), LowStays(f.port, m), HighStays(f.port, m);
            if !f.port(q) then
              range == None && f.command == old(f.command) && f.bars == old(f.bars) && Quiet(f.trace, from, f.bars)
            else
              && range == (if Passed8(f.port, m) == 8 then
                             RangeFor64(cap, low, high, Stored(ALL_ONES, f.masks[b], f.wired[b]),
                                        Stored(ALL_ONES, f.masks[b + 1], f.wired[b + 1]))
                           else None)
              && f.bars == Pair(old(f.bars), b, f.masks, f.wired, lowStays, highStays)
              && f.command == (if f.port(last) then command
                               else StoredWord(Quiesced(command), f.commandMask, f.commandWired))
              && (Quiet(f.trace, from, old(f.bars)) || ((lowStays || highStays) && f.port(last)))
              && f.asked == last + 1
  {
    hide And, Or, Stored, StoredWord, RangeFor64, Quiet, Passed8, Next8, Pair;
    range := None;
    ghost var bars := f.bars;
    PairAsIs(bars, cap.bar, f.masks, f.wired);
    var ok := SetCommand(f, Quiesced(command), from, bars);
    if !ok {
      return;
    }
    QuiescedDecodeOff(command, f.commandMask, f.commandWired);
    var touched;
    ghost var k := Passed8(f.port, f.asked);
    range, touched := Probe64(f, cap, low, high, from);
    if touched {
      PairRestored(bars, cap.bar, f.masks, f.wired, 1 <= k <= 5, 2 <= k <= 4);
      ok := SetBar(f, cap.bar + 1, high, from, bars);
      PairRestored(bars, cap.bar, f.masks, f.wired, 1 <= k <= 5, 2 <= k <= 4 && !ok);
      ok := SetBar(f, cap.bar, low, from, bars);
    }
    ok := SetCommand(f, command, from, bars);
  }

  method Probe64(f: PciFunction, cap: CommonCap, low: U32, high: U32, ghost from: nat)
    returns (range: Option<CommonRange>, touched: bool)
    requires f.Wired() && cap.bar + 1 < BAR_COUNT && And(f.command, DECODE_BITS) == 0
    requires low == f.bars[cap.bar] == Stored(low, f.masks[cap.bar], f.wired[cap.bar])
    requires high == f.bars[cap.bar + 1] == Stored(high, f.masks[cap.bar + 1], f.wired[cap.bar + 1])
    requires from <= |f.trace| && Quiet(f.trace, from, f.bars)
    modifies f`bars, f`trace, f`asked
    ensures f.Wired() && from <= |f.trace| && Quiet(f.trace, from, old(f.bars))
    ensures var b, k := cap.bar, Passed8(f.port, old(f.asked));
            && (touched <==> k >= 1) && f.asked == Next8(f.port, old(f.asked))
            && f.bars == Pair(old(f.bars), b, f.masks, f.wired, 1 <= k <= 5, 2 <= k <= 4)
            && range == (if k == 8 then RangeFor64(cap, low, high, Stored(ALL_ONES, f.masks[b], f.wired[b]),
                                                   Stored(ALL_ONES, f.masks[b + 1], f.wired[b + 1]))
                         else None)
  {
    hide And, Or, Stored, RangeFor64, Quiet, Pair;
    range, touched := None, false;
    var ok, sizingLow, sizingHigh, backLow, backHigh;
    ghost var bars := f.bars;
    ok, touched, sizingLow, sizingHigh := SizePair(f, cap.bar, from);
    if !ok {
      return;
    }
    PairRestored(bars, cap.bar, f.masks, f.wired, true, true);
    ok := SetBar(f, cap.bar + 1, high, from, bars);
    if !ok {
      return;
    }
    PairRestored(bars, cap.bar, f.masks, f.wired, true, false);
    ok := SetBar(f, cap.bar, low, from, bars);
    if !ok {
      return;
    }
    PairAsIs(bars, cap.bar, f.masks, f.wired);
    ok, backLow := f.ReadBar(cap.bar);
    if !ok {
      return;
    }
    ok, backHigh := f.ReadBar(cap.bar + 1);
    if !ok || backLow != low || backHigh != high {
      return;
    }
    range := RangeFor64(cap, low, high, sizingLow, sizingHigh);
  }

  /** The pair's probe and its answer, without the write back. */
  method SizePair(f: PciFunction, b: nat, ghost from: nat)
    returns (ok: bool, touched: bool, low: U32, high: U32)
    requires f.Wired() && b + 1 < BAR_COUNT && And(f.command, DECODE_BITS) == 0
    requires from <= |f.trace| && Quiet(f.trace, from, f.bars)
    modifies f`bars, f`trace, f`asked
    ensures f.Wired() && from <= |f.trace| && Quiet(f.trace, from, old(f.bars))
    ensures var k := Passed4(f.port, old(f.asked));
            && (touched <==> k >= 1) && (ok <==> k == 4) && f.asked == Next4(f.port, old(f.asked))
            && f.bars == Pair(old(f.bars), b, f.masks, f.wired, k >= 1, k >= 2)
    ensures ok ==>
              && low == Stored(ALL_ONES, f.masks[b], f.wired[b])
              && high == Stored(ALL_ONES, f.masks[b + 1], f.wired[b + 1])
  {
    hide And, Or, Stored, Quiet;
    ok, touched, low, high := false, false, 0, 0;
    var done := SetBar(f, b, ALL_ONES, from, old(f.bars));
    if !done {
      return;
    }
    touched := true;
    done := SetBar(f, b + 1, ALL_ONES, from, old(f.bars));
    if !done {
      return;
    }
    done, low := f.ReadBar(b);
    if !done {
      return;
    }
    ok, high := f.ReadBar(b + 1);
  }

  // ---------------------------------------------------------------- e1000

  const E1000: U32 := 0x100e_8086  // device 0x100e, vendor 0x8086

  datatype Resource = Resource(paddr: U64, size: nat, bar: nat)

  function E1000Range(original: U32, sizing: U32): Option<Resource> {
    var size := Size32(sizing);
    if size.None? || size.value > LIMIT_32 || And(original, ADDRESS_MASK) > LIMIT_32 - size.value then None
    else Some(Resource(And(original, ADDRESS_MASK), size.value, 0))
  }

  predicate Identifies(observed: U32, id: Identity) {
    observed % 0x1_0000 == id.vendor && observed / 0x1_0000 == id.product
  }

  lemma OnlyE1000(observed: U32, id: Identity)
    requires id.vendor == 0x8086 && id.product == 0x100e
    ensures Identifies(observed, id) <==> observed == E1000
  {
  }

  predicate E1000Id(id: Identity, identity: U32) {
    id.device < 32 && id.function_ < 8 && id.vendor == 0x8086 && id.product == 0x100e && identity == E1000
  }

  /** What the reader answers when every request goes through. */
  function E1000Reading(id: Identity, identity: U32, original: U32, mask: U32, wired: U32): Option<Resource> {
    if E1000Id(id, identity) && Assigned32(original) then E1000Range(original, Stored(ALL_ONES, mask, wired)) else None
  }

  /** As for 32 bits, with the identity read before the command. */
  predicate BeginsE1000(port: nat -> bool, n: nat, id: Identity, identity: U32, original: U32) {
    E1000Id(id, identity) && port(n) && QuiescesE1000(port, n + 1, original)
  }

  predicate QuiescesE1000(port: nat -> bool, q: nat, original: U32) {
    Assigned32(original) && port(q) && port(q + 1) && port(q + 2) && port(q + 3)
  }

  /** The command write; before it, after an incomplete probe, a clean-up write of the
      BAR and, if that goes through, its read-back. */
  function EnableE1000(port: nat -> bool, m: nat): nat {
    var u := Next4(port, m);
    if 1 <= Passed4(port, m) <= 3 then (if port(u) then u + 2 else u + 1) else u
  }

  lemma AllPassE1000(port: nat -> bool, m: nat)
    requires forall k: nat :: k >= m ==> port(k)
    ensures Passed4(port, m) == 4 && EnableE1000(port, m) == m + 4 && !ProbeStays(port, m)
  {
    AllPass(port, m);
  }

  /** The e1000 reader verifies its clean-up: it succeeds only if the last command write
      and its read-back go through. */
  method ReadE1000Range(f: PciFunction, id: Identity) returns (resource: Option<Resource>)
    requires f.Settled()
    modifies f`command, f`bars, f`trace, f`slots, f`asked
    ensures f.slots == old(f.slots) && f.Wired()
    ensures !BeginsE1000(f.port, old(f.asked), id, f.identity, old(f.bars)[0]) ==> resource == None && Restored(f)
    ensures BeginsE1000(f.port, old(f.asked), id, f.identity, old(f.bars)[0]) ==>
              var m := old(f.asked) + 5;
              var last := EnableE1000(f.port, m);
              && resource == (if Passed4(f.port, m) == 4 && f.port(last) && f.port(last + 1)
                              then E1000Range(old(f.bars)[0], Stored(ALL_ONES, f.masks[0], f.wired[0])) else None)
              && f.bars == (if ProbeStays(f.port, m) then old(f.bars)[0 := Stored(ALL_ONES, f.masks[0], f.wired[0])]
                            else old(f.bars))
              && f.command == (if f.port(last) then old(f.command)
                               else StoredWord(Quiesced(old(f.command)), f.commandMask, f.commandWired))
              && (QuietSince(f) || (ProbeStays(f.port, m) && f.port(last)))
    ensures BeginsE1000(f.port, old(f.asked), id, f.identity, old(f.bars)[0]) ==>
              var m := old(f.asked) + 5;
              f.port(Next4(f.port, m)) && f.port(EnableE1000(f.port, m)) ==> Restored(f)
    ensures resource.Some? ==> Restored(f)
    ensures (forall k: nat :: k >= old(f.asked) ==> f.port(k)) ==>
              && resource == E1000Reading(id, f.identity, old(f.bars)[0], f.masks[0], f.wired[0])
              && Restored(f)
  {
    hide And, Or, Stored, StoredWord, E1000Range, Quiet, Assigned32, QuiescesE1000;
    hide Passed4, Next4, EnableE1000, ProbeStays;
    NothingYet(f.trace, f.bars);
    resource := None;
    if id.device < 32 && id.function_ < 8 && id.vendor == 0x8086 && id.product == 0x100e {
      var acquired := f.Acquire();
      if acquired {
        resource := OpenedE1000(f, id, |f.trace|);
        f.Release();
      }
    }
    ProbeGone(f.port, old(f.asked) + 5);
    if forall k: nat :: k >= old(f.asked) ==> f.port(k) {
      AllPassE1000(f.port, old(f.asked) + 5);
      AllQuiesceE1000(f.port, old(f.asked) + 1);
    }
  }

  lemma AllQuiesceE1000(port: nat -> bool, q: nat)
    requires forall k: nat :: k >= q ==> port(k)
    ensures forall bar: U32 :: QuiescesE1000(port, q, bar) <==> Assigned32(bar)
  {
  }

  /** With the ports open. */
  method OpenedE1000(f: PciFunction, id: Identity, ghost from: nat) returns (resource: Option<Resource>)
    requires f.Settled() && from <= |f.trace| && Quiet(f.trace, from, f.bars)
    requires id.vendor == 0x8086 && id.product == 0x100e
    modifies f`command, f`bars, f`trace, f`asked
    ensures f.Wired() && from <= |f.trace|
    ensures var m := old(f.asked) + 4;
            var last := EnableE1000(f.port, m);
            if f.identity != E1000 || !QuiescesE1000(f.port, old(f.asked), old(f.bars)[0]) then
              resource == None && f.command == old(f.command) && f.bars == old(f.bars) && Quiet(f.trace, from, f.bars)
            else
              && resource == (if Passed4(f.port, m) == 4 && f.port(last) && f.port(last + 1)
                              then E1000Range(old(f.bars)[0], Stored(ALL_ONES, f.masks[0], f.wired[0])) else None)
              && f.bars == (if ProbeStays(f.port, m) then old(f.bars)[0 := Stored(ALL_ONES, f.masks[0], f.wired[0])]
                            else old(f.bars))
              && f.command == (if f.port(last) then old(f.command)
                               else StoredWord(Quiesced(old(f.command)), f.commandMask, f.commandWired))
              && (Quiet(f.trace, from, old(f.bars)) || (ProbeStays(f.port, m) && f.port(last)))
  {
    hide And, Or, Stored, StoredWord, E1000Range, Quiet, Assigned32, Identifies;
    hide Passed4, Next4, EnableE1000, ProbeStays;
    OnlyE1000(f.identity, id);
    resource := None;
    var ok, observed := f.ReadIdentity();
    if !ok || !Identifies(observed, id) {
      return;
    }
    var command, original;
    ok, command := f.ReadCommand();
    if !ok {
      return;
    }
    ok, original := f.ReadBar(0);
    if !ok || !Assigned32(original) {
      return;
    }
    resource := TransactE1000(f, command, original, from);
  }

  /** From the quiescing write to the last read-back of the clean-up. */
  method TransactE1000(f: PciFunction, command: U16, original: U32, ghost from: nat)
    returns (resource: Option<Resource>)
    requires f.Settled() && from <= |f.trace| && Quiet(f.trace, from, f.bars)
    requires command == f.command && original == f.bars[0]
    modifies f`command, f`bars, f`trace, f`asked
    ensures f.Wired() && from <= |f.trace|
    ensures var q, m := old(f.asked), old(f.asked) + 1;
            var last := EnableE1000(f.port, m);
            if !f.port(q) then
              resource == None && f.command == old(f.command) && f.bars == old(f.bars) && Quiet(f.trace, from, f.bars)
            else
              && resource == (if Passed4(f.port, m) == 4 && f.port(last) && f.port(last + 1)
                              then E1000Range(original, Stored(ALL_ONES, f.masks[0], f.wired[0])) else None)
              && f.bars == (if ProbeStays(f.port, m) then old(f.bars)[0 := Stored(ALL_ONES, f.masks[0], f.wired[0])]
                            else old(f.bars))
              && f.command == (if f.port(last) then command
                               else StoredWord(Quiesced(command), f.commandMask, f.commandWired))
              && (Quiet(f.trace, from, old(f.bars)) || (ProbeStays(f.port, m) && f.port(last)))
  {
    hide And, Or, Stored, StoredWord, E1000Range, Quiet, Passed4;
    resource := None;
    ghost var bars := f.bars;
    var ok := SetCommand(f, Quiesced(command), from, bars);
    if !ok {
      return;
    }
    QuiescedDecodeOff(command, f.commandMask, f.commandWired);
    var touched;
    resource, touched := ProbeE1000(f, original, from);
    if touched {
      ok := SetBar(f, 0, original, from, bars);
      resource := CheckBar(f, original, ok, resource);
    }
    ok := SetCommand(f, command, from, bars);
    resource := CheckCommand(f, command, ok, resource);
  }

  /** A clean-up write counts only when it went through and reads back. */
  method CheckBar(f: PciFunction, original: U32, written: bool, resource: Option<Resource>)
    returns (kept: Option<Resource>)
    requires f.Wired()
    modifies f`asked
    ensures kept == if written && f.port(old(f.asked)) && f.bars[0] == original then resource else None
    ensures f.asked == old(f.asked) + if written then 1 else 0
  {
    if !written {
      return None;
    }
    var ok, back := f.ReadBar(0);
    return if ok && back == original then resource else None;
  }

  method CheckCommand(f: PciFunction, original: U16, written: bool, resource: Option<Resource>)
    returns (kept: Option<Resource>)
    modifies f`asked
    ensures kept == if written && f.port(old(f.asked)) && f.command == original then resource else None
    ensures f.asked == old(f.asked) + if written then 1 else 0
  {
    if !written {
      return None;
    }
    var ok, back := f.ReadCommand();
    return if ok && back == original then resource else None;
  }

  method ProbeE1000(f: PciFunction, original: U32, ghost from: nat)
    returns (resource: Option<Resource>, touched: bool)
    requires f.Wired() && And(f.command, DECODE_BITS) == 0
    requires original == f.bars[0] == Stored(original, f.masks[0], f.wired[0])
    requires from <= |f.trace| && Quiet(f.trace, from, f.bars)
    modifies f`bars, f`trace, f`asked
    ensures f.Wired() && from <= |f.trace| && Quiet(f.trace, from, old(f.bars))
    ensures var k := Passed4(f.port, old(f.asked));
            var sizing := Stored(ALL_ONES, f.masks[0], f.wired[0]);
            && (touched <==> 1 <= k <= 3) && f.asked == Next4(f.port, old(f.asked))
            && f.bars == (if 1 <= k <= 2 then old(f.bars)[0 := sizing] else old(f.bars))
            && resource == (if k == 4 then E1000Range(original, sizing) else None)
  {
    hide And, Or, Stored, E1000Range, Quiet;
    resource, touched := None, false;
    var ok, sizing, back;
    ok := SetBar(f, 0, ALL_ONES, from, old(f.bars));
    if !ok {
      return;
    }
    touched := true;
    ok, sizing := f.ReadBar(0);
    if !ok {
      return;
    }
    ok := SetBar(f, 0, original, from, old(f.bars));
    if !ok {
      return;
    }
    ok, back := f.ReadBar(0);
    if !ok || back != original {
      return;
    }
    touched := false;
    resource := E1000Range(original, sizing);
  }

  // ---------------------------------------------------------------- what the validators accept

  /** The common tail accepts an aligned window unless the two feature words would
      leave its page, and then answers with plain integer sums. */
  lemma RangeAtExact(cap: CommonCap, bar: U64, size: U64)
    requires CommonCapOk(cap, BAR_COUNT) && bar != 0 && bar % 16 == 0 && size != 0
    requires cap.offset + cap.length <= size && bar + cap.offset <= MAX64
    ensures var common := bar + cap.offset;
            RangeAt(cap, bar, size) ==
            if common % PAGE + 8 > PAGE then None
            else Some(CommonRange(cap, bar, size, common, common - common % PAGE, common % PAGE))
    ensures RangeAt(cap, bar, size).Some? ==> CommonSane(RangeAt(cap, bar, size).value)
  {
    hide And, CommonSane, CommonCapOk;
    var common := bar + cap.offset;
    PageMask(common);
    DwordMask(common);
    AlignedSum(cap, bar);
    SaneAt(cap, bar, size);
  }

  lemma AlignedSum(cap: CommonCap, bar: nat)
    requires CommonCapOk(cap, BAR_COUNT) && bar % 16 == 0
    ensures (bar + cap.offset) % 4 == 0
  {
    hide And;
    DwordMask(cap.offset);
  }

  lemma SaneAt(cap: CommonCap, bar: U64, size: U64)
    requires CommonCapOk(cap, BAR_COUNT) && bar != 0 && size != 0
    requires cap.offset + cap.length <= size && bar + cap.offset <= MAX64
    ensures var common := bar + cap.offset;
            CommonSane(CommonRange(cap, bar, size, common, common - common % PAGE, common % PAGE)) <==>
            common % PAGE + 8 <= PAGE
  {
    hide And;
    PageMask(bar + cap.offset - (bar + cap.offset) % PAGE);
  }

  lemma MultipleOf16Bar(original: U32)
    ensures (original - original % 16) % 16 == 0
  {
  }

  /** For a well-formed capability of an assigned 32-bit BAR, the validator's
      arithmetic accepts exactly when the BAR announces a size, the window fits, and
      the feature words stay in one page. */
  lemma Range32Exact(cap: CommonCap, original: U32, sizing: U32)
    requires CommonCapOk(cap, BAR_COUNT) && And(original, ADDRESS_MASK) != 0
    ensures RangeFor32(cap, original, sizing).Some? <==>
            && Size32(sizing).Some?
            && cap.offset + cap.length <= Size32(sizing).value
            && (original - original % 16 + cap.offset) % PAGE + 8 <= PAGE
    ensures RangeFor32(cap, original, sizing).Some? ==>
              && CommonSane(RangeFor32(cap, original, sizing).value)
              && RangeFor32(cap, original, sizing).value.barPaddr == original - original % 16
              && RangeFor32(cap, original, sizing).value.barSize == Size32(sizing).value
  {
    hide And, CommonSane, PowerOfTwo, Size32, RangeAt;
    AddressPart(original);
    SizeMeaning(sizing);
    if Size32(sizing).Some? && cap.offset + cap.length <= Size32(sizing).value {
      var bar := original - original % 16;
      MultipleOf16Bar(original);
      RangeAtExact(cap, bar, Size32(sizing).value);
    }
  }

  /** The same for a 64-bit BAR pair, where the address must not wrap either. */
  lemma Range64Exact(cap: CommonCap, low: U32, high: U32, sizingLow: U32, sizingHigh: U32)
    requires CommonCapOk(cap, BAR_COUNT - 1)
    ensures var bar, size, r := Bar64(low, high), Size64(sizingLow, sizingHigh),
              RangeFor64(cap, low, high, sizingLow, sizingHigh);
            && (r.Some? <==>
                  && bar != 0 && size.Some?
                  && cap.offset + cap.length <= size.value
                  && bar + cap.offset <= MAX64
                  && (bar + cap.offset) % PAGE + 8 <= PAGE)
            && (r.Some? ==> CommonSane(r.value) && r.value.barPaddr == bar && r.value.barSize == size.value)
  {
    Size64Meaning(sizingLow, sizingHigh);
    hide And, CommonSane, PowerOfTwo, Size64, Bar64;
    var bar, size := Bar64(low, high), Size64(sizingLow, sizingHigh);
    assert bar % 16 == 0;
    if bar != 0 && size.Some? && cap.offset + cap.length <= size.value && bar + cap.offset <= MAX64 {
      RangeAtExact(cap, bar, size.value);
      hide RangeAt;
    }
  }

  /** A 64-bit size is a power of two and adds up to 2^64 with the mask. */
  lemma Size64Meaning(low: U32, high: U32)
    ensures Size64(low, high).Some? ==>
              var size := Size64(low, high).value;
              PowerOfTwo(size) && 16 <= size < WRAP64 && size == WRAP64 - Bar64(low, high)
  {
    hide And, Bar64;
    assert Bar64(low, high) % 16 == 0;
  }

  /** The register of a memory BAR of size 2^k: the address bits above are writable,
      only the prefetchable bit may be wired. */
  predicate MemoryBar32(mask: U32, wired: U32, k: nat) {
    4 <= k <= 31 && Pow2(k) <= 0x8000_0000 && mask == WRAP32 - Pow2(k) && (wired == 0 || wired == 8)
  }

  /** Such a register answers the probe with its size. */
  lemma ProbeAnnouncesSize(mask: U32, wired: U32, k: nat)
    requires MemoryBar32(mask, wired, k)
    ensures Size32(Stored(ALL_ONES, mask, wired)) == Some(Pow2(k))
    ensures And(Stored(ALL_ONES, mask, wired), ADDRESS_MASK) == mask
  {
    hide And, Or, Pow2, Stored, PowerOfTwo, Size32;
    Pow2Values();
    Pow2Divides(4, k);
    assert Pow2(k) % 16 == 0 && mask % 16 == 0;
    ProbeResponse(mask, wired);
    SizeBits(k);
    SizeAnnounced(mask, wired, Pow2(k));
  }

  /** An all-ones write reads back as the writable bits plus the wired ones. */
  lemma SizeAnnounced(mask: U32, wired: U32, size: nat)
    requires mask == WRAP32 - size && mask % 16 == 0 && mask != 0 && (wired == 0 || wired == 8)
    requires And(size, size - 1) == 0 && mask + wired < WRAP32
    ensures Size32(mask + wired) == Some(size) && And(mask + wired, ADDRESS_MASK) == mask
  {
    hide And;
    var q := mask / 16;
    DivModUnique(mask + wired, 16, q, wired);
    DivModUnique(mask + wired, 8, if wired == 0 then 2 * q else 2 * q + 1, 0);
    AddressPart(mask + wired);
    NoTypeBits(mask + wired);
    SizeMask(mask);
    assert And(mask + wired, ADDRESS_MASK) == mask;
  }

  lemma SizeBits(k: nat)
    ensures And(Pow2(k), Pow2(k) - 1) == 0
  {
    Pow2IsPowerOfTwo(k);
  }

  lemma ProbeResponse(mask: U32, wired: U32)
    requires mask % 16 == 0 && wired < 16
    ensures Stored(ALL_ONES, mask, wired) == mask + wired
  {
    hide And, Or, Pow2;
    AllOnes(mask);
    OrNibble(mask, wired);
  }

  lemma OrNibble(a: nat, b: nat)
    requires a % 16 == 0 && b < 16
    ensures Or(a, b) == a + b
  {
    hide Or;
    Pow2Values();
    OrShifted(a / 16, 4, b);
    assert a / 16 * 16 == a;
  }

  lemma AllOnes(v: U32)
    ensures And(ALL_ONES, v) == v
  {
    hide And;
    Pow2Values();
    AndCommutes(ALL_ONES, v);
    AndLowMask(v, 32);
  }

  lemma NoTypeBits(v: U32)
    requires v % 8 == 0
    ensures And(v, 1) == 0 && And(v, TYPE_MASK) == 0
  {
    assert Pow2(3) == 8;
    AndLowByte(v, 1, 3);
    AndLowByte(v, TYPE_MASK, 3);
    AndZero(v, TYPE_MASK);
    AndZero(v, 1);
  }
}
