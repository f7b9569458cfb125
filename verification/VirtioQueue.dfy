/** The stage that programs, enables and notifies queue zero (M9): three pages
    mapped at once, one notification, and everything taken down again. */
module VirtioQueue {
  import opened Bits
  import opened VirtioRange
  import opened VirtioPlatform
  import opened VirtioStages
  import opened VirtioScript

  const LAYOUT_SIZE: nat := 1
  const LAYOUT_BYTES: nat := 36
  const DRIVER_OFFSET: nat := 16
  const DEVICE_OFFSET: nat := 24

  // ---------------------------------------------------------------- the queue's addresses

  function Low(paddr: nat): nat {
    paddr % WRAP32
  }

  function High(paddr: nat): nat {
    paddr / WRAP32
  }

  /** The layout fits behind its frame address, by the source's wrap-around tests. */
  predicate LayoutFits(frame: U64) {
    && Add64(frame, 0) >= frame
    && Add64(frame, DRIVER_OFFSET) >= frame
    && Add64(frame, DEVICE_OFFSET) >= frame
    && Add64(frame, DEVICE_OFFSET) <= Sub64(Add64(frame, PAGE), LAYOUT_BYTES)
  }

  /** Those tests refuse nothing that the first address test lets through, not even
      the frame that ends at the top of the address space, where two sums wrap. */
  lemma LayoutNeverRefused(frame: U64)
    requires frame <= MAX64 - (PAGE - 1)
    ensures LayoutFits(frame)
  {
  }

  /** The queue's size and its three addresses have been read back as programmed. */
  ghost predicate Programmed(last: map<nat, Event>, frame: nat) {
    && ReadBack(last, QUEUE_SIZE, LAYOUT_SIZE)
    && ReadBack(last, DESC_LO, Low(frame)) && ReadBack(last, DESC_HI, High(frame))
    && ReadBack(last, DRIVER_LO, Low(frame + DRIVER_OFFSET)) && ReadBack(last, DRIVER_HI, High(frame + DRIVER_OFFSET))
    && ReadBack(last, DEVICE_LO, Low(frame + DEVICE_OFFSET)) && ReadBack(last, DEVICE_HI, High(frame + DEVICE_OFFSET))
  }

  /** The last access to the register was a read that returned `value`. */
  ghost predicate ReadBack(last: map<nat, Event>, reg: nat, value: nat) {
    reg in last && last[reg] == Saw(reg, value)
  }

  // ---------------------------------------------------------------- the script

  function AddressWrites(frame: nat): seq<Event> {
    [Wrote(DESC_LO, Low(frame)), Wrote(DESC_HI, High(frame)),
     Wrote(DRIVER_LO, Low(frame + DRIVER_OFFSET)), Wrote(DRIVER_HI, High(frame + DRIVER_OFFSET)),
     Wrote(DEVICE_LO, Low(frame + DEVICE_OFFSET)), Wrote(DEVICE_HI, High(frame + DEVICE_OFFSET))]
  }

  function AddressBlock(reg: nat, value: nat): Block {
    Block([], [reg], Is(value))
  }

  /** The whole stage: select and inspect, size, addresses, enable, notify, reset. */
  function QueueScript(frame: nat, target: nat): Script {
    Climb()
    + [Block([Wrote(QUEUE_SELECT, 0)], [QUEUE_SELECT, QUEUE_SIZE, QUEUE_ENABLE, QUEUE_NOTIFY_OFF], QueueDisabled),
       Block([Wrote(QUEUE_SIZE, LAYOUT_SIZE)], [QUEUE_SIZE], Is(LAYOUT_SIZE)),
       Block(AddressWrites(frame), [DESC_LO], Is(Low(frame))), AddressBlock(DESC_HI, High(frame)),
       AddressBlock(DRIVER_LO, Low(frame + DRIVER_OFFSET)), AddressBlock(DRIVER_HI, High(frame + DRIVER_OFFSET)),
       AddressBlock(DEVICE_LO, Low(frame + DEVICE_OFFSET)), AddressBlock(DEVICE_HI, High(frame + DEVICE_OFFSET)),
       Block([Wrote(QUEUE_ENABLE, 1)], [QUEUE_ENABLE], Is(1)),
       Block([Notified(target, 0)], [], AllZero),
       Block([Wrote(STATUS, 0)], [STATUS, QUEUE_ENABLE], AllZero)]
  }

  const SELECTED: nat := 5     // blocks before the queue is inspected
  const ENABLED: nat := 14     // blocks up to the enabled queue
  const FINISHED: nat := 16

  const QUEUE_REACH: nat := 0x38

  /** How far behind the window's start the accesses of a part of the script end. */
  function QueueReach(answers: Answers): nat {
    if |answers| <= SELECTED then STATUS_REACH
    else if |answers| <= SELECTED + 2 then NOTIFY_OFF_REACH
    else QUEUE_REACH
  }

  // ---------------------------------------------------------------- programming the queue

  /** Selects queue zero; it must exist and be disabled. */
  method CheckQueue(p: Platform, w: Window, ghost from: nat, ghost frame: nat, ghost answers: Answers)
    returns (ok: bool, notifyOff: U16, ghost next: Answers)
    requires Session(p, w, from) && Stands(p.log, from, QueueScript(frame, 0), answers, true) && |answers| == SELECTED
    modifies p`log, p`escapes, p`nullWrites, p`touched
    ensures Session(p, w, from) && LastStatus(p.log, from) == old(LastStatus(p.log, from))
    ensures Stands(p.log, from, QueueScript(frame, 0), next, ok)
    ensures |next| == SELECTED + 1 && |next[SELECTED]| == 4 && next[SELECTED][3] == notifyOff
    ensures Extends(p) && Reaches(p, w, NOTIFY_OFF_REACH)
    ensures ok ==> ReadBack(LastOn(p.log, from), QUEUE_ENABLE, 0)
  {
    hide LastOn, LastStatus, Disciplined, Silent, Pow2, Stands, Sees;
    var index, size := SelectQueueZero(p, w, from);
    var enable := ReadRegister(p, w, QUEUE_ENABLE, 2, from);
    notifyOff := ReadNotifyOff(p, w, from);
    ok := index == 0 && size != 0 && enable == 0;
    next := answers + [[index, size, enable, notifyOff]];
    SeesFour(QUEUE_SELECT, index, QUEUE_SIZE, size, QUEUE_ENABLE, enable, QUEUE_NOTIFY_OFF, notifyOff);
    Advance(old(p.log), from, QueueScript(frame, 0), answers, p.log, [index, size, enable, notifyOff]);
  }

  /** Writes a register and has it read back. */
  method SetRegister(p: Platform, w: Window, reg: nat, value: nat, ghost from: nat,
                     ghost script: Script, ghost answers: Answers)
    returns (ok: bool, ghost next: Answers)
    requires Session(p, w, from) && reg != STATUS && reg + 2 <= 0x38
    requires Stands(p.log, from, script, answers, true) && |answers| < |script|
    requires script[|answers|] == Block([Wrote(reg, value)], [reg], Is(value))
    modifies p`log, p`escapes, p`nullWrites, p`touched
    ensures Session(p, w, from) && LastStatus(p.log, from) == old(LastStatus(p.log, from))
    ensures exists v ::
              && LastOn(p.log, from) == old(LastOn(p.log, from))[reg := Wrote(reg, value)][reg := Saw(reg, v)]
              && (ok <==> v == value)
    ensures Stands(p.log, from, script, next, ok) && |next| == |answers| + 1 && answers <= next
    ensures Extends(p) && Reaches(p, w, reg + 2)
  {
    hide LastOn, LastStatus, Disciplined, Silent, Pow2, Stands, Sees;
    WriteRegister(p, w, reg, 2, value, from);
    var back := ReadRegister(p, w, reg, 2, from);
    ok := back == value;
    next := answers + [[back]];
    SeesOne(reg, back);
    Advance(old(p.log), from, script, answers, p.log, [back]);
  }

  method ProgramQueue(p: Platform, w: Window, frame: nat, ghost from: nat, ghost answers: Answers)
    returns (ok: bool, ghost next: Answers)
    requires Session(p, w, from) && LastStatus(p.log, from).Some?
    requires Stands(p.log, from, QueueScript(frame, 0), answers, true) && |answers| == SELECTED + 1
    modifies p`log, p`escapes, p`nullWrites, p`touched
    ensures Session(p, w, from) && LastStatus(p.log, from) == old(LastStatus(p.log, from))
    ensures Stands(p.log, from, QueueScript(frame, 0), next, ok) && answers < next && |next| <= ENABLED - 1
    ensures ok ==> |next| == ENABLED - 1
    ensures Extends(p) && Reaches(p, w, if |next| > SELECTED + 2 then QUEUE_REACH else SIZE_REACH)
    ensures ok ==> Programmed(LastOn(p.log, from), frame)
  {
    hide LastOn, LastStatus, Disciplined, Silent, Pow2, Stands, Session, Programmed;
    ok, next := SetRegister(p, w, QUEUE_SIZE, LAYOUT_SIZE, from, QueueScript(frame, 0), answers);
    if ok {
      ghost var log := p.log;
      WriteAddresses(p, w, frame, from);
      ok, next := CheckAddresses(p, w, frame, from, next, log);
    }
  }

  method WriteAddresses(p: Platform, w: Window, frame: nat, ghost from: nat)
    requires Session(p, w, from)
    modifies p`log, p`escapes, p`nullWrites, p`touched
    ensures Session(p, w, from) && LastStatus(p.log, from) == old(LastStatus(p.log, from))
    ensures p.log == old(p.log) + AddressWrites(frame)
    ensures Extends(p) && Reaches(p, w, QUEUE_REACH)
    ensures forall v :: old(ReadBack(LastOn(p.log, from), QUEUE_SIZE, v)) ==>
              ReadBack(LastOn(p.log, from), QUEUE_SIZE, v)
  {
    hide LastOn, LastStatus, Disciplined, Silent, Session, Low, High;
    WritePair(p, w, DESC_LO, frame, from);
    WritePair(p, w, DRIVER_LO, frame + DRIVER_OFFSET, from);
    WritePair(p, w, DEVICE_LO, frame + DEVICE_OFFSET, from);
  }

  /** The two halves of one address. */
  method WritePair(p: Platform, w: Window, reg: nat, paddr: nat, ghost from: nat)
    requires Session(p, w, from) && QUEUE_SIZE < reg && reg + 8 <= QUEUE_REACH
    modifies p`log, p`escapes, p`nullWrites, p`touched
    ensures Session(p, w, from) && LastStatus(p.log, from) == old(LastStatus(p.log, from))
    ensures p.log == old(p.log) + [Wrote(reg, Low(paddr)), Wrote(reg + 4, High(paddr))]
    ensures Extends(p) && Reaches(p, w, reg + 8)
    ensures forall v :: old(ReadBack(LastOn(p.log, from), QUEUE_SIZE, v)) ==>
              ReadBack(LastOn(p.log, from), QUEUE_SIZE, v)
  {
    hide LastOn, LastStatus, Disciplined, Silent, Session, Low, High;
    WriteRegister(p, w, reg, 4, Low(paddr), from);
    WriteRegister(p, w, reg + 4, 4, High(paddr), from);
  }

  /** Reads the six halves back, stopping at the first that differs. */
  method CheckAddresses(p: Platform, w: Window, frame: nat, ghost from: nat, ghost answers: Answers,
                        ghost log: seq<Event>)
    returns (ok: bool, ghost next: Answers)
    requires Session(p, w, from) && ReadBack(LastOn(p.log, from), QUEUE_SIZE, LAYOUT_SIZE)
    requires Stands(log, from, QueueScript(frame, 0), answers, true) && |answers| == SELECTED + 2
    requires p.log == log + AddressWrites(frame)
    modifies p`log, p`escapes, p`touched
    ensures Session(p, w, from) && LastStatus(p.log, from) == old(LastStatus(p.log, from))
    ensures Stands(p.log, from, QueueScript(frame, 0), next, ok) && answers < next && |next| <= ENABLED - 1
    ensures ok ==> |next| == ENABLED - 1
    ensures Extends(p) && Within(p, w, QUEUE_REACH)
    ensures ok ==> Programmed(LastOn(p.log, from), frame)
  {
    hide PairSeen, QueueScript, AddressWrites;
    hide LastOn, LastStatus, Disciplined, Silent, Session, Stands, Programmed, Low, High;
    ghost var script := QueueScript(frame, 0);
    ghost var last := LastOn(p.log, from);
    AddressBlocks(frame);
    ok, next := CheckPair(p, w, DESC_LO, frame, from, script, answers, log);
    if ok {
      ok, next := CheckPair(p, w, DRIVER_LO, frame + DRIVER_OFFSET, from, script, next, p.log);
    }
    if ok {
      ok, next := CheckPair(p, w, DEVICE_LO, frame + DEVICE_OFFSET, from, script, next, p.log);
    }
    if ok {
      AllReadBack(last, frame);
    }
  }

  lemma AddressBlocks(frame: nat)
    ensures var s := QueueScript(frame, 0);
            && |s| == FINISHED
            && s[7] == Block(AddressWrites(frame), [DESC_LO], Is(Low(frame)))
            && s[8] == AddressBlock(DESC_HI, High(frame))
            && s[9] == AddressBlock(DRIVER_LO, Low(frame + DRIVER_OFFSET))
            && s[10] == AddressBlock(DRIVER_HI, High(frame + DRIVER_OFFSET))
            && s[11] == AddressBlock(DEVICE_LO, Low(frame + DEVICE_OFFSET))
            && s[12] == AddressBlock(DEVICE_HI, High(frame + DEVICE_OFFSET))
  {
  }

  lemma AllReadBack(last: map<nat, Event>, frame: nat)
    requires ReadBack(last, QUEUE_SIZE, LAYOUT_SIZE)
    ensures Programmed(
              PairSeen(PairSeen(PairSeen(last, DESC_LO, frame), DRIVER_LO, frame + DRIVER_OFFSET),
                       DEVICE_LO, frame + DEVICE_OFFSET),
              frame)
  {
  }

  /** The last accesses after both halves of an address have been read back. */
  ghost function PairSeen(last: map<nat, Event>, reg: nat, paddr: nat): map<nat, Event> {
    last[reg := Saw(reg, Low(paddr))][reg + 4 := Saw(reg + 4, High(paddr))]
  }

  /** Two blocks of the script; the writes of the first, if any, are already in the
      log after `log`. */
  method CheckPair(p: Platform, w: Window, reg: nat, paddr: nat, ghost from: nat, ghost script: Script,
                   ghost answers: Answers, ghost log: seq<Event>)
    returns (ok: bool, ghost next: Answers)
    requires Session(p, w, from) && reg + 8 <= 0x38
    requires Stands(log, from, script, answers, true) && |answers| + 1 < |script|
    requires script[|answers|] == Block(script[|answers|].puts, [reg], Is(Low(paddr)))
    requires script[|answers| + 1] == AddressBlock(reg + 4, High(paddr)) && p.log == log + script[|answers|].puts
    modifies p`log, p`escapes, p`touched
    ensures Session(p, w, from) && LastStatus(p.log, from) == old(LastStatus(p.log, from))
    ensures Stands(p.log, from, script, next, ok) && answers < next && |next| <= |answers| + 2
    ensures ok ==> |next| == |answers| + 2
    ensures Extends(p) && Within(p, w, reg + 8)
    ensures ok ==> LastOn(p.log, from) == PairSeen(old(LastOn(p.log, from)), reg, paddr)
  {
    hide LastOn, LastStatus, Disciplined, Silent, Pow2, Stands, Sees;
    var value := ReadRegister(p, w, reg, 4, from);
    ok := value == Low(paddr);
    next := answers + [[value]];
    SeesOne(reg, value);
    Advance(log, from, script, answers, p.log, [value]);
    if ok {
      ghost var half := p.log;
      value := ReadRegister(p, w, reg + 4, 4, from);
      ok := value == High(paddr);
      SeesOne(reg + 4, value);
      assert half + [] == half;
      Advance(half, from, script, next, p.log, [value]);
      next := next + [[value]];
    }
  }

  // ---------------------------------------------------------------- three triples

  /** The books are `before` with the two triples of the set-up. */
  ghost predicate HoldsTwo(b: Books, before: Books, c: Triple, l: Triple) {
    && Owned(b, c) && Owned(b, l)
    && Fresh(c, before) && Fresh(l, Plus(before, c)) && Apart(c, l)
    && b == Plus(Plus(before, c), l)
  }

  ghost predicate HoldsThree(b: Books, before: Books, c: Triple, l: Triple, n: Triple) {
    && Owned(b, c) && Owned(b, l) && Owned(b, n)
    && Fresh(c, before) && Fresh(l, Plus(before, c)) && Fresh(n, Plus(Plus(before, c), l))
    && Apart(c, l) && Apart(c, n) && Apart(l, n)
    && b == Plus(Plus(Plus(before, c), l), n)
  }

  /** Both frames of the set-up and the common page are granted, and the layout frame's
      address is one the source can use. */
  predicate CommonMapped(grants: nat -> bool, pages: nat -> U64, n: nat) {
    && grants(n) && grants(n + 1) && 0 < pages(n + 1) <= MAX64 - (PAGE - 1)
    && grants(n + 2) && grants(n + 3)
  }

  predicate LayoutMapped(grants: nat -> bool, n: nat) {
    grants(n + 4) && grants(n + 5)
  }

  /** The source's set-up: both frames first, then the two mappings; it stops at
      the first step that fails and keeps what it has. */
  method PreparePages(p: Platform, page: nat) returns (c: Triple, l: Triple, frame: U64)
    requires p.Valid()
    modifies p`nextId, p`frames, p`reservations, p`mappings, p`asked
    ensures p.Valid() && HoldsTwo(p.Live(), old(p.Live()), c, l)
    ensures c.mapped <==> CommonMapped(p.grants, p.pages, old(p.asked))
    ensures l.mapped <==> c.mapped && LayoutMapped(p.grants, old(p.asked))
    ensures l.mapped ==> p.asked == old(p.asked) + 6 && frame == p.pages(old(p.asked) + 1)
    ensures l.mapped ==> l.frame.Some? && l.frame.value.page == frame
    ensures c.mapped ==> c.frame.Some? && c.frame.value.page == page
  {
    c, l, frame := NOTHING, NOTHING, 0;
    NothingOwned(p.Live());
    label out: {
      var common := p.AllocFrame(page);
      if common.None? {
        break out;
      }
      c := c.(frame := common);
      frame := p.pages(p.asked);
      var layout := p.AllocFrame(frame);
      if layout.None? {
        break out;
      }
      l := l.(frame := layout);
      if frame == 0 || frame > MAX64 - (PAGE - 1) {
        break out;
      }
      c, l := MapTwo(p, common.value, layout.value);
    }
    assert p.frames == old(p.frames) + FrameSet(c) + FrameSet(l);
    assert p.reservations == old(p.reservations) + ReservationSet(c) + ReservationSet(l);
    assert p.mappings == old(p.mappings) + MappingMap(c) + MappingMap(l);
  }

  method MapTwo(p: Platform, common: Frame, layout: Frame) returns (c: Triple, l: Triple)
    requires p.Valid() && common in p.frames && layout in p.frames && common != layout
    requires forall m :: m in p.mappings ==> p.mappings[m].frame !in {Some(common), Some(layout)}
    modifies p`nextId, p`reservations, p`mappings, p`asked
    ensures p.Valid() && Owned(p.Live(), c) && Owned(p.Live(), l)
    ensures c.frame == Some(common) && l.frame == Some(layout)
    ensures var n := old(p.asked);
            && (c.mapped <==> p.grants(n) && p.grants(n + 1))
            && (l.mapped <==> c.mapped && p.grants(n + 2) && p.grants(n + 3))
            && (l.mapped ==> p.asked == n + 4)
    ensures ReservationSet(c) !! old(p.reservations) && MappingMap(c).Keys !! old(p.mappings).Keys
    ensures ReservationSet(l) !! old(p.reservations) + ReservationSet(c)
    ensures MappingMap(l).Keys !! (old(p.mappings) + MappingMap(c)).Keys
    ensures p.reservations == old(p.reservations) + ReservationSet(c) + ReservationSet(l)
    ensures p.mappings == old(p.mappings) + MappingMap(c) + MappingMap(l)
  {
    c := p.MapFrame(common);
    l := Triple(Some(layout), None, 0, false);
    assert p.reservations == p.reservations + ReservationSet(l);
    assert p.mappings == p.mappings + MappingMap(l);
    if c.mapped {
      ghost var b := p.Live();
      l := p.MapFrame(layout);
      OwnedKept(b, p.Live(), c, l);
    }
  }

  /** Takes the three triples down in the source's order. */
  method TakeDown(p: Platform, n: Triple, l: Triple, c: Triple, ghost before: Books)
    requires p.Valid() && HoldsThree(p.Live(), before, c, l, n)
    modifies p`frames, p`reservations, p`mappings
    ensures p.Valid() && p.Live() == before
  {
    hide Owned, Fresh, Plus, Minus, Apart;
    OwnedAfter(p.Live(), c, n);
    OwnedAfter(p.Live(), l, n);
    p.ReleaseTriple(n);
    PlusMinus(Plus(Plus(before, c), l), n);
    OwnedAfter(p.Live(), c, l);
    p.ReleaseTriple(l);
    PlusMinus(Plus(before, c), l);
    p.ReleaseTriple(c);
    PlusMinus(before, c);
  }

  lemma NothingJoins(b: Books, before: Books, c: Triple, l: Triple)
    requires HoldsTwo(b, before, c, l)
    ensures HoldsThree(b, before, c, l, NOTHING)
  {
    hide Owned;
    NothingOwned(b);
    assert b.0 + {} == b.0 && b.1 + {} == b.1 && b.2 + map[] == b.2;
  }

  lemma NothingOwned(b: Books)
    ensures Owned(b, NOTHING)
  {
  }

  /** A third fresh triple joins the two of the set-up. */
  lemma ThirdJoins(b: Books, before: Books, c: Triple, l: Triple, n: Triple)
    requires BooksValid(b) && HoldsTwo(b, before, c, l)
    requires Fresh(n, b) && Owned(Plus(b, n), n)
    ensures HoldsThree(Plus(b, n), before, c, l, n)
  {
    StillOwned(b, c, n);
    StillOwned(b, l, n);
    hide Owned;
  }

  /** A whole page of the capability with the address `paddr` at `offset` in it. */
  predicate InsideCapability(notify: NotifyRange, page: nat, offset: nat, paddr: nat) {
    && page % PAGE == 0 && offset + 2 <= PAGE && page + offset == paddr
    && notify.capPaddr <= page && page + PAGE <= notify.capPaddr + notify.capability.length
  }

  /** Capability base plus offset times multiplier. */
  function Target(notify: NotifyRange, notifyOff: U16): nat {
    OffsetProductSmall(notifyOff, notify.capability.multiplier);
    notify.capPaddr + notifyOff * notify.capability.multiplier
  }

  /** The page and offset to notify at, when every address test passes. */
  function NotificationPlace(notify: NotifyRange, notifyOff: U16): (r: Option<(U64, U64)>)
    ensures r.Some? ==>
              InsideCapability(notify, r.value.0, r.value.1, Target(notify, notifyOff))
  {
    NotificationAccepted(notify, notifyOff);
    OffsetProductSmall(notifyOff, notify.capability.multiplier);
    var address := NotificationAddress(notify, notifyOff);
    if address.None? then None
    else
      PageInside(notify, address.value);
      NotificationPage(notify, address.value)
  }

  lemma PageInside(notify: NotifyRange, paddr: U64)
    ensures NotificationPage(notify, paddr).Some? ==>
              var place := NotificationPage(notify, paddr).value;
              InsideCapability(notify, place.0, place.1, paddr)
  {
    NotificationPageContained(notify, paddr);
    hide NotificationPage;
  }

  /** Maps the page of the notification address, if it lies wholly inside the
      notify capability. */
  method MapNotification(p: Platform, notify: NotifyRange, notifyOff: U16,
                         ghost before: Books, ghost c: Triple, ghost l: Triple)
    returns (n: Triple, page: nat, offset: nat)
    requires p.Valid() && HoldsTwo(p.Live(), before, c, l)
    modifies p`nextId, p`frames, p`reservations, p`mappings, p`asked
    ensures p.Valid() && HoldsThree(p.Live(), before, c, l, n)
    ensures n.mapped ==>
              && NotificationPlace(notify, notifyOff) == Some((page, offset)) && offset + 2 <= PAGE
              && Opens(Window(n.mapping, offset, page), p.mappings)
    ensures n.mapped <==> NotificationPlace(notify, notifyOff).Some? && Maps(p.grants, old(p.asked))
    ensures n.mapped ==> p.asked == old(p.asked) + 3
  {
    ghost var b := p.Live();
    assert BooksValid(b);
    hide NotificationPlace, Target, HoldsTwo, HoldsThree, Owned, Fresh, Plus, Platform.Valid;
    n, page, offset := NOTHING, 0, 0;
    var place := NotificationPlace(notify, notifyOff);
    if place.Some? {
      page, offset := place.value.0, place.value.1;
      n := MapCommon(p, page);
      OpensOwned(p.Live(), n);
      ThirdJoins(b, before, c, l, n);
    } else {
      NothingJoins(b, before, c, l);
    }
  }

  // ---------------------------------------------------------------- the stage

  /** At most one notification since `from`, of queue zero at the target; and when it
      is made the queue's size, its addresses and its enable bit have all been read
      back as programmed, with no later access to any of them. */
  ghost predicate NotifiedOnce(log: seq<Event>, from: nat, frame: nat, target: nat) {
    forall k :: from <= k < |log| && log[k].Notified? ==> NotifiedAt(log, from, frame, target, k)
  }

  ghost predicate NotifiedAt(log: seq<Event>, from: nat, frame: nat, target: nat, k: nat)
    requires from <= k < |log|
  {
    && log[k] == Notified(target, 0)
    && Silent(log[..k], from) && Silent(log, k + 1)
    && Programmed(LastOn(log[..k], from), frame)
    && ReadBack(LastOn(log[..k], from), QUEUE_ENABLE, 1)
  }

  /** A run of the stage that stopped: at a refused test, at a notification place that
      does not exist or is not granted, or at a layout page that no longer reads as
      zero.  The notification's requests to the platform start with the n-th. */
  ghost predicate Halted(log: seq<Event>, from: nat, frame: nat, notify: NotifyRange, answers: Answers,
                         grants: nat -> bool, n: nat)
  {
    var script := QueueScript(frame, TargetOf(notify, answers));
    || Stands(log, from, script, answers, false)
    || (Stands(log, from, script, answers, true) && |answers| == ENABLED
        && !(Place(notify, answers).Some? && Maps(grants, n)))
    || (Stands(log, from, script, answers, true) && |answers| == ENABLED + 1
        && Place(notify, answers).Some? && Maps(grants, n) && !grants(n + 3))
  }

  ghost predicate Completed(log: seq<Event>, from: nat, frame: nat, notify: NotifyRange, answers: Answers,
                            grants: nat -> bool, n: nat)
  {
    && Stands(log, from, QueueScript(frame, TargetOf(notify, answers)), answers, true) && |answers| == FINISHED
    && Place(notify, answers).Some? && Maps(grants, n) && grants(n + 3)
  }

  /** The device has answered with its notification offset. */
  predicate Located(answers: Answers) {
    |answers| > SELECTED && |answers[SELECTED]| == 4 && answers[SELECTED][3] < 0x1_0000
  }

  /** Where the answers so far say to notify. */
  function Place(notify: NotifyRange, answers: Answers): Option<(U64, U64)> {
    if Located(answers) then NotificationPlace(notify, answers[SELECTED][3]) else None
  }

  function TargetOf(notify: NotifyRange, answers: Answers): nat {
    if Located(answers) then Target(notify, answers[SELECTED][3]) else 0
  }

  function PlacePage(place: Option<(U64, U64)>): set<nat> {
    if place.Some? then {place.value.0} else {}
  }

  /** Up to the enabled queue the script does not depend on the target. */
  lemma Retarget(log: seq<Event>, from: nat, frame: nat, target: nat, answers: Answers, ok: bool)
    requires Stands(log, from, QueueScript(frame, 0), answers, ok) && |answers| <= ENABLED
    ensures Stands(log, from, QueueScript(frame, target), answers, ok)
  {
    hide Stands;
    var a, b := QueueScript(frame, 0), QueueScript(frame, target);
    assert a[..ENABLED] == b[..ENABLED];
    assert a[..|answers|] == a[..ENABLED][..|answers|] == b[..|answers|];
    StandsFor(log, from, a, b, answers, ok);
  }

  /** From reset to an enabled queue. */
  method ReadyQueue(p: Platform, w: Window, frame: U64, ghost from: nat)
    returns (ok: bool, notifyOff: U16, ghost answers: Answers)
    requires Session(p, w, from) && frame <= MAX64 - (PAGE - 1) && Stands(p.log, from, QueueScript(frame, 0), [], true)
    modifies p`log, p`escapes, p`nullWrites, p`touched
    ensures Session(p, w, from) && LastStatus(p.log, from).Some?
    ensures Stands(p.log, from, QueueScript(frame, 0), answers, ok) && |answers| <= ENABLED
    ensures ok ==> |answers| == ENABLED && |answers[SELECTED]| == 4 && answers[SELECTED][3] == notifyOff
    ensures Extends(p) && Reaches(p, w, QueueReach(answers))
    ensures ok ==> Programmed(LastOn(p.log, from), frame) && ReadBack(LastOn(p.log, from), QUEUE_ENABLE, 1)
  {
    hide LastOn, LastStatus, Disciplined, Silent, Programmed, ReadBack, Session, Stands;
    notifyOff := 0;
    ghost var script := QueueScript(frame, 0);
    ok, answers := BringUp(p, w, from, script);
    if ok {
      ok, notifyOff, answers := CheckQueue(p, w, from, frame, answers);
    }
    LayoutNeverRefused(frame);
    if ok && LayoutFits(frame) {
      ok, answers := ProgramQueue(p, w, frame, from, answers);
      if ok {
        ghost var last := LastOn(p.log, from);
        ok, answers := SetRegister(p, w, QUEUE_ENABLE, 1, from, script, answers);
        if ok {
          EnableKeeps(last, LastOn(p.log, from), frame);
        }
      }
    }
  }

  lemma EnableKeeps(last: map<nat, Event>, now: map<nat, Event>, frame: nat)
    requires Programmed(last, frame)
    requires now == last[QUEUE_ENABLE := Wrote(QUEUE_ENABLE, 1)][QUEUE_ENABLE := Saw(QUEUE_ENABLE, 1)]
    ensures Programmed(now, frame) && ReadBack(now, QUEUE_ENABLE, 1)
  {
  }

  /** The last reset, and the two read-backs success depends on. */
  method ResetQueue(p: Platform, w: Window, ghost from: nat, ghost frame: nat, ghost target: nat,
                    ghost answers: Answers)
    returns (success: bool, ghost next: Answers)
    requires Session(p, w, from)
    requires Stands(p.log, from, QueueScript(frame, target), answers, true) && |answers| == FINISHED - 1
    modifies p`log, p`escapes, p`nullWrites, p`touched
    ensures Session(p, w, from) && LastStatus(p.log, from) == Some(0)
    ensures Stands(p.log, from, QueueScript(frame, target), next, success) && |next| == FINISHED && answers <= next
    ensures Extends(p) && Within(p, w, QUEUE_REACH)
    ensures success ==> ReadBack(LastOn(p.log, from), STATUS, 0) && ReadBack(LastOn(p.log, from), QUEUE_ENABLE, 0)
  {
    StatusValues();
    hide LastOn, LastStatus, Disciplined, Silent, Session, Pow2, Advances, Stands, Sees;
    WriteStatus(p, w, 0, from);
    var status := ReadRegister(p, w, STATUS, 1, from);
    var enable := ReadRegister(p, w, QUEUE_ENABLE, 2, from);
    success := status == 0 && enable == 0;
    next := answers + [[status, enable]];
    SeesTwo(STATUS, status, QUEUE_ENABLE, enable);
    Advance(old(p.log), from, QueueScript(frame, target), answers, p.log, [status, enable]);
    BothZero(status, enable);
  }

  lemma BothZero(a: nat, b: nat)
    ensures Passes(AllZero, [a, b]) <==> a == 0 && b == 0
  {
    assert [a, b][0] == a && [a, b][1] == b;
  }

  /** What the notification step adds to the log. */
  lemma NotifiedNow(log: seq<Event>, from: nat, frame: nat, target: nat)
    requires from <= |log| && Silent(log, from)
    requires Programmed(LastOn(log, from), frame) && ReadBack(LastOn(log, from), QUEUE_ENABLE, 1)
    ensures NotifiedOnce(log + [Notified(target, 0)], from, frame, target)
  {
    hide LastOn, Programmed, ReadBack;
    var s := log + [Notified(target, 0)];
    assert s[..|log|] == log;
    assert forall k :: from <= k < |log| ==> s[k] == log[k];
  }

  /** Later events that are no notifications keep that true. */
  lemma StillNotifiedOnce(log: seq<Event>, later: seq<Event>, from: nat, frame: nat, target: nat)
    requires NotifiedOnce(log, from, frame, target) && log <= later && from <= |log|
    requires Silent(later, |log|)
    ensures NotifiedOnce(later, from, frame, target)
  {
    hide LastOn, Programmed, ReadBack;
    forall k | from <= k < |later| && later[k].Notified? ensures NotifiedAt(later, from, frame, target, k) {
      assert k < |log| && log[k] == later[k];
      assert NotifiedAt(log, from, frame, target, k);
      assert later[..k] == log[..k];
      assert forall q :: k + 1 <= q < |log| ==> later[q] == log[q];
    }
  }

  lemma SilentIsNotifiedOnce(log: seq<Event>, from: nat, frame: nat, target: nat)
    requires Silent(log, from)
    ensures NotifiedOnce(log, from, frame, target)
  {
  }

  /** Everything between the set-up and the take-down. */
  method RunQueue(p: Platform, w: Window, notify: NotifyRange, frame: U64,
                  ghost before: Books, ghost c: Triple, ghost l: Triple, ghost from: nat)
    returns (success: bool, n: Triple, ghost answers: Answers)
    requires p.Valid() && HoldsTwo(p.Live(), before, c, l)
    requires c.mapped && w.mapping == c.mapping && c.frame.Some? && c.frame.value.page == w.page
    requires Session(p, w, from) && Silent(p.log, from) && frame <= MAX64 - (PAGE - 1)
    requires Stands(p.log, from, QueueScript(frame, 0), [], true)
    modifies p
    ensures p.Valid() && HoldsThree(p.Live(), before, c, l, n)
    ensures Session(p, w, from) && LastStatus(p.log, from).Some?
    ensures old(p.log) <= p.log && p.nullWrites == old(p.nullWrites)
    ensures p.escapes >= old(p.escapes)
    ensures p.escapes > old(p.escapes) <==> w.pageOffset + QueueReach(answers) > PAGE
    ensures p.touched <= old(p.touched) + {w.page} + PlacePage(Place(notify, answers))
    ensures NotifiedOnce(p.log, from, frame, TargetOf(notify, answers))
    ensures if success then Completed(p.log, from, frame, notify, answers, p.grants, old(p.asked))
            else Halted(p.log, from, frame, notify, answers, p.grants, old(p.asked))
    ensures success ==>
              && LastStatus(p.log, from) == Some(0)
              && ReadBack(LastOn(p.log, from), STATUS, 0) && ReadBack(LastOn(p.log, from), QUEUE_ENABLE, 0)
  {
    hide LastOn, LastStatus, Disciplined, Silent, Programmed, ReadBack, HoldsTwo, HoldsThree, Owned;
    hide NotificationPlace, Stands, NotifiedOnce, Target;
    n, success := NOTHING, false;
    NothingJoins(p.Live(), before, c, l);
    var ok, notifyOff;
    ok, notifyOff, answers := ReadyQueue(p, w, frame, from);
    ghost var target := TargetOf(notify, answers);
    Retarget(p.log, from, frame, target, answers, ok);
    SilentIsNotifiedOnce(p.log, from, frame, target);
    if !ok {
      return;
    }
    var page, offset;
    n, page, offset := MapNotification(p, notify, notifyOff, before, c, l);
    CommonStays(p.Live(), before, c, l, n);
    if !n.mapped {
      return;
    }
    PlaceAddsUp(notify, notifyOff);
    ghost var ready := answers;
    success, answers := Ring(p, w, Window(n.mapping, offset, page), frame, target, from, answers);
    SamePlace(notify, ready, answers);
  }

  /** The notification, and the reset after it. */
  method Ring(p: Platform, w: Window, bell: Window, ghost frame: nat, ghost target: nat, ghost from: nat,
              ghost answers: Answers)
    returns (success: bool, ghost next: Answers)
    requires Session(p, w, from) && Silent(p.log, from) && LastStatus(p.log, from).Some?
    requires Programmed(LastOn(p.log, from), frame) && ReadBack(LastOn(p.log, from), QUEUE_ENABLE, 1)
    requires Stands(p.log, from, QueueScript(frame, target), answers, true) && |answers| == ENABLED
    requires Opens(bell, p.mappings) && bell.pageOffset + 2 <= PAGE && bell.page + bell.pageOffset == target
    modifies p`log, p`escapes, p`nullWrites, p`touched, p`asked
    ensures Session(p, w, from) && LastStatus(p.log, from).Some? && old(p.log) <= p.log
    ensures p.nullWrites == old(p.nullWrites) && p.touched <= old(p.touched) + {w.page} + {bell.page}
    ensures p.escapes >= old(p.escapes) && (w.pageOffset + QUEUE_REACH <= PAGE ==> p.escapes == old(p.escapes))
    ensures NotifiedOnce(p.log, from, frame, target) && answers < next
    ensures var script := QueueScript(frame, target);
            if success then Stands(p.log, from, script, next, true) && |next| == FINISHED && p.grants(old(p.asked))
            else Stands(p.log, from, script, next, false)
                 || (Stands(p.log, from, script, next, true) && |next| == ENABLED + 1 && !p.grants(old(p.asked)))
    ensures success ==>
              && LastStatus(p.log, from) == Some(0)
              && ReadBack(LastOn(p.log, from), STATUS, 0) && ReadBack(LastOn(p.log, from), QUEUE_ENABLE, 0)
  {
    hide LastOn, LastStatus, Disciplined, Silent, Programmed, ReadBack, Stands, NotifiedOnce;
    NotifiedNow(p.log, from, frame, target);
    LogStep(p.log, from, Notified(target, 0));
    NotifyBlock(p.log, from, frame, target, answers);
    p.Notify(bell, 0);
    next := answers + [[]];
    success := false;
    var zero := p.LayoutIsZero();
    if zero {
      NothingSilent(p.log);
      ghost var noticed := p.log;
      success, next := ResetQueue(p, w, from, frame, target, next);
      StillNotifiedOnce(noticed, p.log, from, frame, target);
    }
  }

  lemma SamePlace(notify: NotifyRange, a: Answers, b: Answers)
    requires a <= b && |a| > SELECTED
    ensures Place(notify, a) == Place(notify, b) && TargetOf(notify, a) == TargetOf(notify, b)
  {
    assert a[SELECTED] == b[SELECTED];
  }

  lemma PlaceAddsUp(notify: NotifyRange, notifyOff: U16)
    ensures NotificationPlace(notify, notifyOff).Some? ==>
              var place := NotificationPlace(notify, notifyOff).value;
              place.0 + place.1 == Target(notify, notifyOff)
  {
  }

  lemma NotifyBlock(log: seq<Event>, from: nat, frame: nat, target: nat, answers: Answers)
    requires Stands(log, from, QueueScript(frame, target), answers, true) && |answers| == ENABLED
    ensures Stands(log + [Notified(target, 0)], from, QueueScript(frame, target), answers + [[]], true)
  {
    hide Stands;
    assert Sees([], []) == [];
    Advance(log, from, QueueScript(frame, target), answers, log + [Notified(target, 0)], []);
  }

  lemma NothingSilent(log: seq<Event>)
    ensures Silent(log, |log|)
  {
  }

  lemma CommonStays(b: Books, before: Books, c: Triple, l: Triple, n: Triple)
    requires HoldsThree(b, before, c, l, n)
    ensures c.mapped ==> c.mapping in b.2 && b.2[c.mapping] == c
    ensures n.mapped ==> n.mapping in b.2 && b.2[n.mapping] == n
  {
  }

  /** The common page gets mapped. */
  predicate CommonOn(p: Platform, common: CommonRange, notify: NotifyRange, n: nat) {
    RangesAgree(common, notify, QUEUE_REACH) && CommonMapped(p.grants, p.pages, n)
  }

  /** The layout page gets mapped too, and reads as zero: the registers are reached. */
  predicate Reached(p: Platform, common: CommonRange, notify: NotifyRange, n: nat) {
    CommonOn(p, common, notify, n) && LayoutMapped(p.grants, n) && p.grants(n + 6)
  }

  /** Stage M9.  For every outcome of allocation, mapping and device reads all three
      pages are given back, and the accesses are those of the script, on the common
      page and the notification's page only, followed by one more reset unless the
      stage succeeds.  A common page that is mapped while the registers are not
      reached costs one write through address zero, and nothing else does. */
  method NotifyZeroDescriptor(p: Platform, common: CommonRange, notify: NotifyRange)
    returns (success: bool, ghost answers: Answers)
    requires p.Valid()
    modifies p
    ensures p.Valid() && p.Live() == old(p.Live())
    ensures p.nullWrites == old(p.nullWrites)
              + if CommonOn(p, common, notify, old(p.asked)) && !Reached(p, common, notify, old(p.asked)) then 1 else 0
    ensures !Reached(p, common, notify, old(p.asked)) ==>
              && !success && p.log == old(p.log) && p.escapes == old(p.escapes) && p.touched == old(p.touched)
    ensures Reached(p, common, notify, old(p.asked)) ==>
              Operated(p, common, notify, p.pages(old(p.asked) + 1), old(p.asked) + 7, success, answers)
  {
    hide QueuePlayed, NotifiedOnce, LastStatus, LastOn, ReadBack, Disciplined, Place, TargetOf;
    hide RangesAgree, HoldsTwo, HoldsThree, Owned;
    success, answers := false, [];
    if !RangesAgree(common, notify, QUEUE_REACH) {
      return;
    }
    var c, l, frame := PreparePages(p, common.pagePaddr);
    var zero := false;
    if l.mapped {
      zero := p.LayoutIsZero();
    }
    success, answers := Operate(p, common, notify, c, l, frame, zero, old(p.Live()));
  }

  /** What a stage that reached the registers promises. */
  twostate predicate Operated(p: Platform, common: CommonRange, notify: NotifyRange, frame: nat, n: nat, success: bool,
                              answers: Answers)
    reads p
  {
    var from := |old(p.log)|;
    && old(p.log) <= p.log && Disciplined(p.log, from) && LastStatus(p.log, from) == Some(0)
    && QueuePlayed(p.log, from, frame, notify, answers, p.grants, n, success)
    && NotifiedOnce(p.log, from, frame, TargetOf(notify, answers))
    && p.escapes >= old(p.escapes)
    && (p.escapes > old(p.escapes) <==> common.pageOffset + QueueReach(answers) > PAGE)
    && p.touched <= old(p.touched) + {common.pagePaddr} + PlacePage(Place(notify, answers))
    && (success ==> ReadBack(LastOn(p.log, from), STATUS, 0) && ReadBack(LastOn(p.log, from), QUEUE_ENABLE, 0))
  }

  /** From the set-up to the end; without a usable layout page only the clean-up. */
  method Operate(p: Platform, common: CommonRange, notify: NotifyRange, c: Triple, l: Triple, frame: U64, zero: bool,
                 ghost before: Books)
    returns (success: bool, ghost answers: Answers)
    requires p.Valid() && HoldsTwo(p.Live(), before, c, l) && (zero ==> c.mapped)
    requires c.mapped ==> c.frame.Some? && c.frame.value.page == common.pagePaddr
    requires zero ==> frame <= MAX64 - (PAGE - 1)
    modifies p
    ensures p.Valid() && p.Live() == before
    ensures p.nullWrites == old(p.nullWrites) + if c.mapped && !zero then 1 else 0
    ensures !zero ==> !success && p.log == old(p.log) && p.escapes == old(p.escapes) && p.touched == old(p.touched)
    ensures zero ==> Operated(p, common, notify, frame, old(p.asked), success, answers)
  {
    hide LastOn, LastStatus, Disciplined, Silent, ReadBack, NotifiedOnce, HoldsTwo, HoldsThree, Owned;
    hide Stands, Halted, Completed, Place, TargetOf;
    ghost var from := |p.log|;
    success, answers := false, [];
    Nothing(p.log);
    SilentIsNotifiedOnce(p.log, from, frame, TargetOf(notify, answers));
    NothingJoins(p.Live(), before, c, l);
    var n: Triple := NOTHING;
    var window: Option<Window> := None;
    CommonStays(p.Live(), before, c, l, n);
    if zero {
      var w := Window(c.mapping, common.pageOffset, common.pagePaddr);
      window := Some(w);
      StandsAtStart(p.log, QueueScript(frame, 0));
      success, n, answers := RunQueue(p, w, notify, frame, before, c, l, from);
      CommonStays(p.Live(), before, c, l, n);
    }
    if c.mapped && !success {
      FailClosed(p, window, from, frame, TargetOf(notify, answers));
    }
    TakeDown(p, n, l, c, before);
  }

  /** The reset a failed stage ends with, through whatever the window is by then. */
  method FailClosed(p: Platform, window: Option<Window>, ghost from: nat, ghost frame: nat, ghost target: nat)
    requires window.Some? ==> Opens(window.value, p.mappings)
    requires from <= |p.log| && Disciplined(p.log, from) && NotifiedOnce(p.log, from, frame, target)
    modifies p`log, p`escapes, p`nullWrites, p`touched
    ensures Disciplined(p.log, from) && NotifiedOnce(p.log, from, frame, target)
    ensures window.None? ==>
              && p.nullWrites == old(p.nullWrites) + 1 && p.log == old(p.log)
              && p.escapes == old(p.escapes) && p.touched == old(p.touched)
    ensures window.Some? ==>
              && Reaches(p, window.value, STATUS_REACH) && LastStatus(p.log, from) == Some(0)
              && |p.log| == |old(p.log)| + 1 && p.log[|old(p.log)|] == Wrote(STATUS, 0)
              && p.log[..|old(p.log)|] == old(p.log)
  {
    hide LastOn, LastStatus, Disciplined, NotifiedOnce;
    LastReset(p.log, from, frame, target);
    p.Write(window, STATUS, 1, 0);
  }

  /** The log of a stage that reached the registers. */
  ghost predicate QueuePlayed(log: seq<Event>, from: nat, frame: nat, notify: NotifyRange, answers: Answers,
                              grants: nat -> bool, n: nat, success: bool)
  {
    if success then Completed(log, from, frame, notify, answers, grants, n)
    else
      && |log| > 0 && log[|log| - 1] == Wrote(STATUS, 0)
      && Halted(log[..|log| - 1], from, frame, notify, answers, grants, n)
  }

  /** The fail-closed reset at the end keeps the discipline and is no notification. */
  lemma LastReset(log: seq<Event>, from: nat, frame: nat, target: nat)
    requires from <= |log| && Disciplined(log, from) && NotifiedOnce(log, from, frame, target)
    ensures var s := log + [Wrote(STATUS, 0)];
            && Disciplined(s, from) && LastStatus(s, from) == Some(0)
            && NotifiedOnce(s, from, frame, target)
  {
    LogStep(log, from, Wrote(STATUS, 0));
    hide LastOn, LastStatus, Disciplined, Programmed, ReadBack;
    StillNotifiedOnce(log, log + [Wrote(STATUS, 0)], from, frame, target);
  }

  const BLOCK_DEVICE := Identity(0, 0, VENDOR, BLK_MODERN)
  const COMMON_EXAMPLE :=
    CommonRange(CommonCap(BLOCK_DEVICE, 0, 0, 0x38), 0x10_0000, 0x2000, 0x10_0000, 0x10_0000, 0)
  const NOTIFY_EXAMPLE :=
    NotifyRange(NotifyCap(BLOCK_DEVICE, 0, 0x1000, 0x1000, 4), 0x10_0000, 0x2000, 0x10_1000)

  lemma ExamplesAgree()
    ensures RangesAgree(COMMON_EXAMPLE, NOTIFY_EXAMPLE, QUEUE_REACH)
  {
    PageMask(0x10_0000);
    DwordMask(0);
    hide And;
  }

  /** The write through address zero at work: every request is granted but the mapping
      of the layout page, and the stage fails without any access to the device but with
      that one write. */
  method LayoutRefused(p: Platform, common: CommonRange, notify: NotifyRange) returns (success: bool)
    requires p.Valid() && RangesAgree(common, notify, QUEUE_REACH)
    requires 0 < p.pages(p.asked + 1) <= MAX64 - (PAGE - 1)
    requires forall k: nat :: p.grants(k) <==> k != p.asked + 5
    modifies p
    ensures !success && p.nullWrites == old(p.nullWrites) + 1
    ensures p.log == old(p.log) && p.touched == old(p.touched) && p.Live() == old(p.Live())
  {
    hide RangesAgree, Operated;
    ghost var answers;
    success, answers := NotifyZeroDescriptor(p, common, notify);
  }

  /** Such a platform and such ranges exist. */
  method RefusingPlatform() returns (p: Platform)
    ensures p.Valid() && RangesAgree(COMMON_EXAMPLE, NOTIFY_EXAMPLE, QUEUE_REACH)
    ensures 0 < p.pages(p.asked + 1) <= MAX64 - (PAGE - 1)
    ensures forall k: nat :: p.grants(k) <==> k != p.asked + 5
  {
    hide RangesAgree;
    ExamplesAgree();
    p := new Platform(k => k != 5, k => 0x1000);
  }

  /** The log decides the outcome of this stage too, and with it the device's answers. */
  lemma QueueLogDecides(log: seq<Event>, from: nat, frame: nat, notify: NotifyRange, a: Answers, b: Answers,
                        grants: nat -> bool, n: nat, won: bool, wonToo: bool)
    requires QueuePlayed(log, from, frame, notify, a, grants, n, won)
    requires QueuePlayed(log, from, frame, notify, b, grants, n, wonToo)
    ensures won == wonToo && a == b
  {
    hide Stands, Place, TargetOf, Transcript;
    if won {
      QueueEnds(log, from, frame, notify, a);
    }
    if wonToo {
      QueueEnds(log, from, frame, notify, b);
    }
    var prefix := if won then log else log[..|log| - 1];
    QueueAnswers(prefix, from, frame, TargetOf(notify, a), TargetOf(notify, b), a, b);
  }

  lemma QueueEnds(log: seq<Event>, from: nat, frame: nat, notify: NotifyRange, a: Answers)
    requires |a| == FINISHED && Stands(log, from, QueueScript(frame, TargetOf(notify, a)), a, true)
    ensures log != [] && log[|log| - 1].Saw?
  {
    hide Stands, TargetOf;
    Finished(log, from, QueueScript(frame, TargetOf(notify, a)), a);
  }

  ghost predicate StandsSomehow(log: seq<Event>, from: nat, script: Script, a: Answers) {
    Stands(log, from, script, a, true) || Stands(log, from, script, a, false)
  }

  /** Whatever the targets of the two scripts, the answers are the same. */
  lemma QueueAnswers(log: seq<Event>, from: nat, frame: nat, t: nat, u: nat, a: Answers, b: Answers)
    requires StandsSomehow(log, from, QueueScript(frame, t), a) && StandsSomehow(log, from, QueueScript(frame, u), b)
    ensures a == b
  {
    QueueSpeaks(frame, t);
    QueuesAlike(frame, t, u);
    hide Transcript, QueueScript, Speaks, Alike;
    AnswersDetermined(QueueScript(frame, t), QueueScript(frame, u), a, b);
  }

  lemma QueuesAlike(frame: nat, t: nat, u: nat)
    ensures Alike(QueueScript(frame, t), QueueScript(frame, u))
  {
  }

  lemma QueueSpeaks(frame: nat, target: nat)
    ensures Speaks(QueueScript(frame, target))
  {
  }
}
