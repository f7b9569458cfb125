/** `selinos_pci_assign_unconfigured_bar32`: giving an unassigned BAR the lowest
    aligned block of a policy window. */
module PciAllocator {
  import opened Bits
  import opened VirtioRange
  import opened PciBar

  /** Firmware's two ways to show an unassigned BAR. */
  predicate Unassigned(bar: U32) {
    And(bar, ADDRESS_MASK) == 0 || And(bar, ADDRESS_MASK) == ADDRESS_MASK
  }

  /** The two forms in numbers: the address bits, from bit 4 on, all zero or all one. */
  lemma UnassignedMeans(bar: U32)
    ensures Unassigned(bar) <==> bar < 16 || bar >= 0xffff_fff0
  {
    AddressPart(bar);
    hide And;
  }

  /** The block the source picks in the window for a sizing response. */
  function Place(start: U64, end: U64, sizing: U32): Option<(U32, nat)> {
    var size := Size32(sizing);
    if size.None? || start > MAX64 - (size.value - 1) then None
    else
      var aligned := And(start + size.value - 1, Not64(size.value - 1));
      if aligned < start || aligned > end || size.value > end - aligned || aligned + size.value > LIMIT_32 then None
      else Some((aligned, size.value))
  }

  /** The value then programmed: the address, and the attribute bits of a mask from
      which those bits have already been cleared. */
  function Programmed(address: U32, sizing: U32): U32 {
    ProgrammedIsAddress(address, sizing);
    Or(address, And(And(sizing, ADDRESS_MASK), 0xf))
  }

  lemma ProgrammedIsAddress(address: U32, sizing: U32)
    ensures Or(address, And(And(sizing, ADDRESS_MASK), 0xf)) == address
  {
    hide And, Or, Pow2;
    AddressPart(sizing);
    Pow2Values();
    AndLowMask(And(sizing, ADDRESS_MASK), 4);
    AndZero(address, 0);
    OrPlusAnd(address, 0);
  }

  /** `a` is the least multiple of `size` not below `start`. */
  ghost predicate LeastAligned(a: nat, size: nat, start: nat) {
    && size > 0 && a % size == 0 && start <= a
    && forall b: nat :: b % size == 0 && start <= b ==> a <= b
  }

  lemma RoundUpLeast(start: nat, size: nat)
    requires size > 0
    ensures var n := start + size - 1; LeastAligned(n - n % size, size, start)
  {
    var n := start + size - 1;
    var p := n / size;
    var a := n - n % size;
    assert a == p * size by {
      assert n == size * p + n % size;
    }
    DivModUnique(a, size, p, 0);
    forall b: nat | b % size == 0 && start <= b ensures a <= b {
      var q := b / size;
      assert b == q * size by {
        assert b == size * q + b % size;
      }
      var d := p - q;
      assert d * size == a - b;
      MulAtLeast(d, size);
    }
  }

  /** The placement is the least aligned block, and it is refused exactly when that
      block, and so any aligned block, does not fit below the end of the window. */
  lemma PlacementLeast(start: U64, end: U64, sizing: U32)
    requires start < end <= LIMIT_32 && Size32(sizing).Some?
    ensures var size := Size32(sizing).value;
            && (Place(start, end, sizing).Some? ==>
                  && Place(start, end, sizing).value.1 == size
                  && LeastAligned(Place(start, end, sizing).value.0, size, start)
                  && Place(start, end, sizing).value.0 + size <= end)
            && (Place(start, end, sizing).None? <==>
                  forall b: nat :: b % size == 0 && start <= b ==> b + size > end)
  {
    hide And, Size32, PowerOfTwo, LeastAligned;
    var size := Size32(sizing).value;
    SizeMeaning(sizing);
    var n := start + size - 1;
    AlignMask(n, size);
    RoundUpLeast(start, size);
    LeastDecides(n - n % size, size, start, end);
  }

  /** If the least aligned block does not fit, none does. */
  lemma LeastDecides(a: nat, size: nat, start: nat, end: nat)
    requires LeastAligned(a, size, start)
    ensures start <= a
    ensures a + size > end <==> forall b: nat :: b % size == 0 && start <= b ==> b + size > end
  {
    assert a % size == 0 && start <= a;
  }

  lemma AlignMask(n: U64, size: nat)
    requires PowerOfTwo(size) && size <= WRAP32
    ensures And(n, Not64(size - 1)) == n - n % size
  {
    hide And, PowerOfTwo, Pow2;
    var k := PowerOfTwoExponent(size);
    Pow2Values();
    if k > 64 {
      Pow2Monotone(64, k);
    }
    AndNot64(n, k);
  }

  /** The assignment a call makes when no port access fails. */
  function Assignment(original: U32, mask: U32, wired: U32, i: nat, start: U64, end: U64): Option<Resource> {
    if !Unassigned(original) then None
    else
      Programming(Stored(ALL_ONES, mask, wired), mask, wired, i, start, end)
  }

  /** The same once the sizing response is known. */
  function Programming(sizing: U32, mask: U32, wired: U32, i: nat, start: U64, end: U64): Option<Resource> {
    var place := Place(start, end, sizing);
    if place.None? then None
    else
      var programmed := Programmed(place.value.0, sizing);
      if Stored(programmed, mask, wired) != programmed then None
      else Some(Resource(place.value.0, place.value.1, i))
  }

  predicate ArgumentsOk(device: nat, function_: nat, i: nat, start: U64, end: U64) {
    device < 32 && function_ < 8 && i < BAR_COUNT && start < end <= LIMIT_32
  }

  // The requests of a call are, from the n-th on: open the ports, read the command,
  // read the BAR, quiesce; then, from the (n + 4)-th on, write the probe, read the
  // size, write the BAR back, write the placement, read it back; then the clean-up.

  predicate Opens(port: nat -> bool, n: nat) {
    port(n) && port(n + 1) && port(n + 2)
  }

  /** The probe is written, and then the sizing read or the write back is refused. */
  predicate Interrupted(port: nat -> bool, m: nat) {
    port(m) && !(port(m + 1) && port(m + 2))
  }

  predicate Sized(port: nat -> bool, m: nat) {
    port(m) && port(m + 1) && port(m + 2)
  }

  /** What a quiesced call assigns. */
  function Outcome(port: nat -> bool, m: nat, original: U32, mask: U32, wired: U32, i: nat, start: U64, end: U64)
    : Option<Resource>
  {
    if Sized(port, m) && port(m + 3) && port(m + 4) then Assignment(original, mask, wired, i, start, end) else None
  }

  /** What a quiesced call that assigns nothing leaves in the BAR: the probe if it was
      interrupted, the placement if that was written, did not read back and its
      clean-up write is refused, and otherwise the entry value. */
  function LeftBar(port: nat -> bool, m: nat, original: U32, mask: U32, wired: U32, start: U64, end: U64): U32 {
    if !Unassigned(original) then original
    else if Interrupted(port, m) then Stored(ALL_ONES, mask, wired)
    else if Sized(port, m) then
      var sizing := Stored(ALL_ONES, mask, wired);
      var place := Place(start, end, sizing);
      if place.Some? && port(m + 3) && !port(m + 5) then Stored(Programmed(place.value.0, sizing), mask, wired)
      else original
    else original
  }

  /** The last request, the command write: where it comes depends on how far the call
      got and whether a clean-up write precedes it. */
  function EnableAt(port: nat -> bool, m: nat, unassigned: bool, placed: bool, failed: bool): nat {
    if !unassigned then m
    else if !port(m) then m + 1
    else if !port(m + 1) then m + 2
    else if !port(m + 2) then m + 3
    else if !placed then m + 4
    else if !port(m + 3) then m + 5
    else if failed then m + 6
    else m + 5
  }

  /** The allocator.  For every pattern of refused requests: its answer, and what is in
      the registers when it returns. */
  method AssignBar32(f: PciFunction, device: nat, function_: nat, i: nat, start: U64, end: U64)
    returns (resource: Option<Resource>)
    requires f.Settled()
    modifies f`command, f`bars, f`trace, f`slots, f`asked
    ensures f.slots == old(f.slots) && f.Wired()
    ensures var n := old(f.asked);
            !(ArgumentsOk(device, function_, i, start, end) && Opens(f.port, n) && f.port(n + 3)) ==>
              resource == None && Restored(f)
    ensures var n, m := old(f.asked), old(f.asked) + 4;
            ArgumentsOk(device, function_, i, start, end) && Opens(f.port, n) && f.port(n + 3) ==>
              var original, mask, wired := old(f.bars)[i], f.masks[i], f.wired[i];
              var last := LastRequest(f.port, m, original, mask, wired, start, end, resource.None?);
              && resource == Outcome(f.port, m, original, mask, wired, i, start, end)
              && f.bars == old(f.bars)[i := if resource.Some? then resource.value.paddr
                                            else LeftBar(f.port, m, original, mask, wired, start, end)]
              && f.command == (if f.port(last) then old(f.command)
                               else StoredWord(Quiesced(old(f.command)), f.commandMask, f.commandWired))
              && (resource.None? && f.bars == old(f.bars) ==> QuietSince(f))
              && f.asked == last + 1
    ensures (forall k: nat :: k >= old(f.asked) ==> f.port(k)) && ArgumentsOk(device, function_, i, start, end) ==>
              && resource == Assignment(old(f.bars)[i], f.masks[i], f.wired[i], i, start, end)
              && f.command == old(f.command)
              && (resource.None? ==> Restored(f))
  {
    hide And, Or, Stored, StoredWord, Quiet, Outcome, LeftBar, LastRequest, Assignment;
    resource := None;
    NothingYet(f.trace, f.bars);
    if ArgumentsOk(device, function_, i, start, end) {
      var acquired := f.Acquire();
      if acquired {
        resource := OpenedAssign(f, i, start, end, |f.trace|);
        f.Release();
      }
      if forall k: nat :: k >= old(f.asked) ==> f.port(k) {
        AllPassAssign(f.port, old(f.asked) + 4, old(f.bars)[i], f.masks[i], f.wired[i], i, start, end);
      }
    }
  }

  function LastRequest(port: nat -> bool, m: nat, original: U32, mask: U32, wired: U32, start: U64, end: U64,
                       failed: bool)
    : nat
  {
    EnableAt(port, m, Unassigned(original), Place(start, end, Stored(ALL_ONES, mask, wired)).Some?, failed)
  }

  lemma AllPassAssign(port: nat -> bool, m: nat, original: U32, mask: U32, wired: U32, i: nat, start: U64, end: U64)
    requires forall k: nat :: k >= m ==> port(k)
    ensures Outcome(port, m, original, mask, wired, i, start, end) == Assignment(original, mask, wired, i, start, end)
    ensures LeftBar(port, m, original, mask, wired, start, end) == original
    ensures forall failed :: port(LastRequest(port, m, original, mask, wired, start, end, failed))
  {
    hide And, Or, Stored, Place, Assignment;
  }

  /** With the ports open. */
  method OpenedAssign(f: PciFunction, i: nat, start: U64, end: U64, ghost from: nat)
    returns (resource: Option<Resource>)
    requires f.Settled() && i < BAR_COUNT && from <= |f.trace| && Quiet(f.trace, from, f.bars)
    modifies f`command, f`bars, f`trace, f`asked
    ensures f.Wired() && from <= |f.trace|
    ensures var q, m := old(f.asked), old(f.asked) + 3;
            var original, mask, wired := old(f.bars)[i], f.masks[i], f.wired[i];
            var last := LastRequest(f.port, m, original, mask, wired, start, end, resource.None?);
            if !(f.port(q) && f.port(q + 1) && f.port(q + 2)) then
              resource == None && f.command == old(f.command) && f.bars == old(f.bars) && Quiet(f.trace, from, f.bars)
            else
              && resource == Outcome(f.port, m, original, mask, wired, i, start, end)
              && f.bars == old(f.bars)[i := if resource.Some? then resource.value.paddr
                                            else LeftBar(f.port, m, original, mask, wired, start, end)]
              && f.command == (if f.port(last) then old(f.command)
                               else StoredWord(Quiesced(old(f.command)), f.commandMask, f.commandWired))
              && (resource.None? && f.bars == old(f.bars) ==> Quiet(f.trace, from, f.bars))
              && f.asked == last + 1
  {
    hide And, Or, Stored, StoredWord, Quiet, Outcome, LeftBar, LastRequest;
    resource := None;
    var ok, command := f.ReadCommand();
    if !ok {
      return;
    }
    var original;
    ok, original := f.ReadBar(i);
    if !ok {
      return;
    }
    resource := TransactAssign(f, i, command, original, start, end, from);
  }

  /** From the quiescing write to the last clean-up write. */
  method TransactAssign(f: PciFunction, i: nat, command: U16, original: U32, start: U64, end: U64, ghost from: nat)
    returns (resource: Option<Resource>)
    requires f.Settled() && i < BAR_COUNT && from <= |f.trace| && Quiet(f.trace, from, f.bars)
    requires command == f.command && original == f.bars[i]
    modifies f`command, f`bars, f`trace, f`asked
    ensures f.Wired() && from <= |f.trace|
    ensures var q, m := old(f.asked), old(f.asked) + 1;
            var mask, wired := f.masks[i], f.wired[i];
            var last := LastRequest(f.port, m, original, mask, wired, start, end, resource.None?);
            if !f.port(q) then
              resource == None && f.command == old(f.command) && f.bars == old(f.bars) && Quiet(f.trace, from, f.bars)
            else
              && resource == Outcome(f.port, m, original, mask, wired, i, start, end)
              && f.bars == old(f.bars)[i := if resource.Some? then resource.value.paddr
                                            else LeftBar(f.port, m, original, mask, wired, start, end)]
              && f.command == (if f.port(last) then command
                               else StoredWord(Quiesced(command), f.commandMask, f.commandWired))
              && (resource.None? && f.bars == old(f.bars) ==> Quiet(f.trace, from, f.bars))
              && f.asked == last + 1
  {
    hide And, Or, Stored, StoredWord, Place, Quiet, Programmed;
    resource := None;
    ghost var bars := f.bars;
    var ok := SetCommand(f, Quiesced(command), from, bars);
    if !ok {
      return;
    }
    QuiescedDecodeOff(command, f.commandMask, f.commandWired);
    if Unassigned(original) {
      var touched, sizing := SizeBar(f, i, original, from);
      if touched {
        resource := ProgramBar(f, i, sizing, start, end, from, bars);
        if resource.None? {
          ok := SetBar(f, i, original, from, bars);
        }
      }
    }
    ok := SetCommand(f, command, from, bars);
  }

  /** The sizing sequence; only a complete one counts as having touched the BAR. */
  method SizeBar(f: PciFunction, i: nat, original: U32, ghost from: nat) returns (touched: bool, sizing: U32)
    requires f.Wired() && i < BAR_COUNT && And(f.command, DECODE_BITS) == 0
    requires original == f.bars[i] == Stored(original, f.masks[i], f.wired[i])
    requires from <= |f.trace| && Quiet(f.trace, from, f.bars)
    modifies f`bars, f`trace, f`asked
    ensures f.Wired() && from <= |f.trace| && Quiet(f.trace, from, old(f.bars))
    ensures var m := old(f.asked);
            && (touched <==> Sized(f.port, m))
            && f.asked == m + (if !f.port(m) then 1 else if !f.port(m + 1) then 2 else 3)
            && f.bars == (if Interrupted(f.port, m) then old(f.bars)[i := Stored(ALL_ONES, f.masks[i], f.wired[i])]
                          else old(f.bars))
    ensures touched ==> sizing == Stored(ALL_ONES, f.masks[i], f.wired[i])
  {
    hide And, Or, Stored, Quiet;
    touched, sizing := false, 0;
    var ok := SetBar(f, i, ALL_ONES, from, old(f.bars));
    if !ok {
      return;
    }
    ok, sizing := f.ReadBar(i);
    if !ok {
      return;
    }
    touched := SetBar(f, i, original, from, old(f.bars));
  }

  /** Placement, programming and the read-back test. */
  method ProgramBar(f: PciFunction, i: nat, sizing: U32, start: U64, end: U64, ghost from: nat, ghost bars: seq<U32>)
    returns (resource: Option<Resource>)
    requires f.Wired() && i < BAR_COUNT && And(f.command, DECODE_BITS) == 0
    requires f.bars == bars && from <= |f.trace| && Quiet(f.trace, from, bars)
    modifies f`bars, f`trace, f`asked
    ensures f.Wired() && from <= |f.trace| && Quiet(f.trace, from, bars)
    ensures var p, place := old(f.asked), Place(start, end, sizing);
            && resource
              == (if f.port(p) && f.port(p + 1) then Programming(sizing, f.masks[i], f.wired[i], i, start, end)
                            else None)
            && f.asked == (if place.None? then p else if f.port(p) then p + 2 else p + 1)
            && f.bars == (if place.Some? && f.port(p)
                          then bars[i := Stored(Programmed(place.value.0, sizing), f.masks[i], f.wired[i])] else bars)
    ensures resource.Some? ==> f.bars == bars[i := resource.value.paddr]
  {
    hide And, Or, Stored, Place, Quiet;
    resource := None;
    var place := Place(start, end, sizing);
    if place.None? {
      return;
    }
    ProgrammedIsAddress(place.value.0, sizing);
    var programmed := Programmed(place.value.0, sizing);
    var ok := SetBar(f, i, programmed, from, bars);
    if !ok {
      return;
    }
    var back;
    ok, back := f.ReadBar(i);
    if !ok || back != programmed {
      return;
    }
    resource := Some(Resource(place.value.0, place.value.1, i));
  }

  /** The interrupted case at work, on an unassigned BAR of 4096 bytes with decoding on:
      one refused sizing read, every other request granted, and the call fails with the
      probe in the BAR and memory decoding on again. */
  method ProbeLeftBehind(f: PciFunction) returns (resource: Option<Resource>)
    requires f.Settled() && f.bars[0] == 0 && f.command == COMMAND_MEMORY
    requires f.masks[0] == 0xffff_f000 && f.wired[0] == 0
    requires forall k: nat :: f.port(k) <==> k != f.asked + 5
    modifies f`command, f`bars, f`trace, f`slots, f`asked
    ensures resource == None && f.asked == old(f.asked) + 7
    ensures f.command == COMMAND_MEMORY && f.bars == old(f.bars)[0 := 0xffff_f000]
  {
    WitnessRegisters();
    hide And, Or, Stored, StoredWord, Place, Quiet;
    resource := AssignBar32(f, 0, 0, 0, 0x8000_0000, 0x9000_0000);
  }

  /** Such a function exists: right after power-on, with decoding turned on. */
  method PoweredOn() returns (f: PciFunction)
    ensures f.Settled() && f.bars[0] == 0 && f.command == COMMAND_MEMORY
    ensures f.masks[0] == 0xffff_f000 && f.wired[0] == 0
    ensures forall k: nat :: f.port(k) <==> k != f.asked + 5
  {
    var zeros := [0, 0, 0, 0, 0, 0];
    f := new PciFunction(k => k != 6, 0, zeros[0 := 0xffff_f000], zeros, 0xffff, 0);
    WitnessRegisters();
    hide And, Or, Stored, StoredWord;
    var ok := f.WriteCommand(COMMAND_MEMORY);
  }

  lemma WitnessRegisters()
    ensures StoredWord(COMMAND_MEMORY, 0xffff, 0) == COMMAND_MEMORY
    ensures And(0, DECODE_BITS) == 0 && And(0, ADDRESS_MASK) == 0
    ensures Stored(0, 0xffff_f000, 0) == 0 && Stored(0, 0, 0) == 0
    ensures Stored(ALL_ONES, 0xffff_f000, 0) == 0xffff_f000
  {
    Pow2Values();
    AndHighMask(ALL_ONES, 12, 32);
    AndLowMask(COMMAND_MEMORY, 16);
    hide Pow2;
  }

  /** The allocator's law for a memory BAR of size 2^k from 16 to 2^31, in every
      window: when no access fails, a non-prefetchable unassigned BAR is given the
      least aligned block, or no aligned block fits the window; a prefetchable one
      is always refused, because the attribute bits have been cleared before the
      value that must read back is formed. */
  lemma AssignmentLaw(original: U32, mask: U32, wired: U32, k: nat, i: nat, start: U64, end: U64)
    requires MemoryBar32(mask, wired, k) && start < end <= 0x1_0000_0000
    requires original < 16 || original >= 0xffff_fff0
    ensures var r := Assignment(original, mask, wired, i, start, end);
            var size := Pow2(k);
            && (r.Some? <==> wired == 0 && exists b: nat :: b % size == 0 && start <= b && b + size <= end)
            && (r.Some? ==>
                  && r.value.size == size && r.value.bar == i
                  && LeastAligned(r.value.paddr, size, start)
                  && r.value.paddr + size <= end)
  {
    UnassignedMeans(original);
    hide And, Or, Stored, Size32, Pow2;
    ProbeAnnouncesSize(mask, wired, k);
    var sizing := Stored(ALL_ONES, mask, wired);
    PlacementLeast(start, end, sizing);
    var place := Place(start, end, sizing);
    if place.Some? {
      hide Place;
      ProgrammedIsAddress(place.value.0, sizing);
      ReadBack(place.value.0, mask, wired, k);
    }
  }

  /** A BAR that firmware has programmed is refused and left alone, whatever requests go
      through: nothing is written to it, and the next request turns decoding on again. */
  lemma FirmwareBarKept(port: nat -> bool, m: nat, original: U32, mask: U32, wired: U32, i: nat, start: U64, end: U64)
    requires 16 <= original < 0xffff_fff0
    ensures Outcome(port, m, original, mask, wired, i, start, end) == None
    ensures LeftBar(port, m, original, mask, wired, start, end) == original
    ensures forall failed :: LastRequest(port, m, original, mask, wired, start, end, failed) == m
  {
    UnassignedMeans(original);
    hide Unassigned, Stored, Place;
  }

  /** An aligned address reads back unchanged exactly when no bit is wired. */
  lemma ReadBack(a: U32, mask: U32, wired: U32, k: nat)
    requires MemoryBar32(mask, wired, k) && a % Pow2(k) == 0
    ensures Stored(a, mask, wired) == a + wired
  {
    hide And, Or, Pow2;
    Pow2Values();
    AndHighMask(a, k, 32);
    assert And(a, mask) == a;
    MultipleOf16(a, k);
    OrNibble(a, wired);
  }

  lemma MultipleOf16(a: nat, k: nat)
    requires k >= 4 && a % Pow2(k) == 0
    ensures a % 16 == 0
  {
    hide Pow2;
    Pow2Values();
    Pow2Divides(4, k);
    var p, q := Pow2(k - 4), a / Pow2(k);
    assert a == q * Pow2(k) by {
      assert a == Pow2(k) * q + a % Pow2(k);
    }
    assert q * (p * 16) == (q * p) * 16;
    DivModUnique(a, 16, q * p, 0);
  }
}
