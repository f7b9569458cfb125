/** The root-only virtio stages of src/selinos_pci.c.  Each maps the device, walks
    its status up, does its one thing, resets, and takes everything down again,
    whatever the allocator, the address space and the device answer. */
module VirtioStages {
  import opened Bits
  import opened VirtioRange
  import opened VirtioPlatform
  import opened VirtioScript

  const ACKNOWLEDGE: nat := 1
  const DRIVER: nat := 2
  const DRIVER_OK: nat := 4
  const FEATURES_OK: nat := 8
  const STATUS_FEATURES_OK: nat := 11
  const STATUS_DRIVER_OK: nat := 15

  // How far behind the window's start an access to these registers ends.
  const STATUS_REACH: nat := 0x15
  const SIZE_REACH: nat := 0x1a
  const NOTIFY_OFF_REACH: nat := 0x20

  /** The reach of a stage that inspects the queue: the device decides whether it gets
      there, by answering the climb. */
  function Reach(answers: Answers, inspection: nat): nat {
    if |answers| > |Climb()| then inspection else STATUS_REACH
  }

  /** A session on a mapped device: the status discipline has held since `from`. */
  ghost predicate Session(p: Platform, w: Window, from: nat)
    reads p`log, p`mappings
  {
    Opens(w, p.mappings) && from <= |p.log| && Disciplined(p.log, from)
  }

  /** The log has grown, and not by a notification. */
  twostate predicate Extends(p: Platform)
    reads p`log
  {
    && old(p.log) <= p.log
    && forall f {:trigger Silent(p.log, f)} :: 0 <= f <= |old(p.log)| ==> Silent(p.log, f) == old(Silent(p.log, f))
  }

  /** Accesses went through the window to its page, and off that page only if
      `reach` bytes behind the window's start do not fit on it. */
  twostate predicate Within(p: Platform, w: Window, reach: nat)
    reads p`nullWrites, p`escapes, p`touched
  {
    && p.nullWrites == old(p.nullWrites)
    && p.touched <= old(p.touched) + {w.page}
    && p.escapes >= old(p.escapes) && (w.pageOffset + reach <= PAGE ==> p.escapes == old(p.escapes))
  }

  /** And they do leave the page if those bytes do not fit. */
  twostate predicate Reaches(p: Platform, w: Window, reach: nat)
    reads p`nullWrites, p`escapes, p`touched
  {
    Within(p, w, reach) && (w.pageOffset + reach > PAGE ==> p.escapes > old(p.escapes))
  }

  lemma SilentStep(log: seq<Event>, e: Event)
    requires !e.Notified?
    ensures forall f: nat {:trigger Silent(log + [e], f)} :: f <= |log| ==> Silent(log + [e], f) == Silent(log, f)
  {
    var s := log + [e];
    forall f: nat | f <= |log| ensures Silent(s, f) == Silent(log, f) {
      LogStep(log, f, e);
    }
  }

  method WriteStatus(p: Platform, w: Window, value: nat, ghost from: nat)
    requires Session(p, w, from) && Advances(LastStatus(p.log, from), value)
    modifies p`log, p`escapes, p`nullWrites, p`touched
    ensures Session(p, w, from) && LastStatus(p.log, from) == Some(value)
    ensures LastOn(p.log, from) == old(LastOn(p.log, from))[STATUS := Wrote(STATUS, value)]
    ensures Extends(p) && Reaches(p, w, STATUS_REACH)
    ensures p.log == old(p.log) + [Wrote(STATUS, value)]
  {
    LogStep(p.log, from, Wrote(STATUS, value));
    SilentStep(p.log, Wrote(STATUS, value));
    hide LastOn, LastStatus, Disciplined, Silent, Advances;
    p.Write(Some(w), STATUS, 1, value);
  }

  method WriteRegister(p: Platform, w: Window, reg: nat, width: nat, value: nat, ghost from: nat)
    requires Session(p, w, from) && reg != STATUS && reg + width <= 0x38
    modifies p`log, p`escapes, p`nullWrites, p`touched
    ensures Session(p, w, from) && LastStatus(p.log, from) == old(LastStatus(p.log, from))
    ensures LastOn(p.log, from) == old(LastOn(p.log, from))[reg := Wrote(reg, value)]
    ensures Extends(p) && Reaches(p, w, reg + width)
    ensures p.log == old(p.log) + [Wrote(reg, value)]
  {
    LogStep(p.log, from, Wrote(reg, value));
    SilentStep(p.log, Wrote(reg, value));
    hide LastOn, LastStatus, Disciplined, Silent;
    p.Write(Some(w), reg, width, value);
  }

  method ReadRegister(p: Platform, w: Window, reg: nat, width: nat, ghost from: nat) returns (value: nat)
    requires Session(p, w, from) && width in {1, 2, 4} && reg + width <= 0x38
    modifies p`log, p`escapes, p`touched
    ensures Session(p, w, from) && LastStatus(p.log, from) == old(LastStatus(p.log, from))
    ensures LastOn(p.log, from) == old(LastOn(p.log, from))[reg := Saw(reg, value)]
    ensures Extends(p) && Reaches(p, w, reg + width)
    ensures p.log == old(p.log) + [Saw(reg, value)]
    ensures value < Pow2(8 * width)
  {
    value := p.Read(w, reg, width);
    LogStep(old(p.log), from, Saw(reg, value));
    SilentStep(old(p.log), Saw(reg, value));
    hide LastOn, LastStatus, Disciplined, Silent;
  }

  /** Writes a status and checks that it reads back. */
  method StatusStep(p: Platform, w: Window, value: nat, ghost from: nat, ghost script: Script, ghost answers: Answers)
    returns (ok: bool, ghost next: Answers)
    requires Session(p, w, from) && Advances(LastStatus(p.log, from), value)
    requires Stands(p.log, from, script, answers, true) && |answers| < |script|
               && script[|answers|] == StatusBlock(value)
    modifies p`log, p`escapes, p`nullWrites, p`touched
    ensures Session(p, w, from) && LastStatus(p.log, from) == Some(value)
    ensures Stands(p.log, from, script, next, ok) && |next| == |answers| + 1
    ensures Extends(p) && Reaches(p, w, STATUS_REACH)
  {
    hide LastOn, LastStatus, Disciplined, Silent, Advances, Pow2, Stands, Sees;
    WriteStatus(p, w, value, from);
    var back := ReadRegister(p, w, STATUS, 1, from);
    ok := back == value;
    next := answers + [[back]];
    SeesOne(STATUS, back);
    Advance(old(p.log), from, script, answers, p.log, [back]);
  }

  lemma StatusValues()
    ensures Advances(Some(0), ACKNOWLEDGE)
    ensures Advances(Some(ACKNOWLEDGE), 3)
    ensures Advances(Some(3), STATUS_FEATURES_OK)
    ensures Advances(Some(STATUS_FEATURES_OK), STATUS_DRIVER_OK)
    ensures Or(ACKNOWLEDGE, DRIVER) == 3 && Or(3, FEATURES_OK) == STATUS_FEATURES_OK
    ensures Or(STATUS_FEATURES_OK, DRIVER_OK) == STATUS_DRIVER_OK
    ensures forall s: Option<nat> :: Advances(s, 0)
  {
  }

  /** Reset, ACKNOWLEDGE, DRIVER, FEATURES_OK, DRIVER_OK, each read back. */
  method BringUp(p: Platform, w: Window, ghost from: nat, ghost script: Script)
    returns (ok: bool, ghost answers: Answers)
    requires Session(p, w, from) && Stands(p.log, from, script, [], true) && Climb() <= script
    modifies p`log, p`escapes, p`nullWrites, p`touched
    ensures Session(p, w, from) && LastStatus(p.log, from).Some?
    ensures ok ==> LastStatus(p.log, from) == Some(STATUS_DRIVER_OK) && |answers| == |Climb()|
    ensures Stands(p.log, from, script, answers, ok) && |answers| <= |Climb()|
    ensures Extends(p) && Reaches(p, w, STATUS_REACH)
  {
    StatusValues();
    hide LastOn, LastStatus, Disciplined, Silent, Advances, Stands, Session;
    ok, answers := StatusStep(p, w, 0, from, script, []);
    if ok {
      ok, answers := StatusStep(p, w, ACKNOWLEDGE, from, script, answers);
    }
    if ok {
      ok, answers := StatusStep(p, w, Or(ACKNOWLEDGE, DRIVER), from, script, answers);
    }
    if ok {
      ok, answers := StatusStep(p, w, STATUS_FEATURES_OK, from, script, answers);
    }
    if ok {
      ok, answers := StatusStep(p, w, STATUS_DRIVER_OK, from, script, answers);
    }
  }

  /** Allocates the frame at the range's page and maps it. */
  method MapCommon(p: Platform, page: nat) returns (t: Triple)
    requires p.Valid()
    modifies p`nextId, p`frames, p`reservations, p`mappings, p`asked
    ensures p.Valid() && Owned(p.Live(), t) && (t.frame.None? ==> t == NOTHING)
    ensures t.frame.Some? ==> t.frame.value.page == page
    ensures Fresh(t, old(p.Live())) && p.Live() == Plus(old(p.Live()), t)
    ensures t.mapped <==> Maps(p.grants, old(p.asked))
    ensures t.mapped ==> p.asked == old(p.asked) + 3
  {
    t := NOTHING;
    var frame := p.AllocFrame(page);
    if frame.Some? {
      t := p.MapFrame(frame.value);
    }
    assert p.frames == old(p.frames) + FrameSet(t);
    assert p.reservations == old(p.reservations) + ReservationSet(t);
    assert p.mappings == old(p.mappings) + MappingMap(t);
  }

  /** Everything a single-mapping stage promises about what it leaves behind. */
  twostate predicate CleanExit(p: Platform, mapped: bool)
    reads p
  {
    && p.Valid()
    && p.Live() == old(p.Live())
    && p.nullWrites == old(p.nullWrites)
    && |old(p.log)| <= |p.log|
    && Disciplined(p.log, |old(p.log)|)
    && Silent(p.log, |old(p.log)|)
    && (if mapped then LastStatus(p.log, |old(p.log)|) == Some(0) else p.log == old(p.log))
  }

  /** A mapped stage leaves the page exactly when `reach` bytes behind the start of the
      registers do not fit on it. */
  twostate predicate Confined(p: Platform, pageOffset: nat, reach: nat, mapped: bool)
    reads p
  {
    && p.escapes >= old(p.escapes)
    && (p.escapes > old(p.escapes) <==> mapped && pageOffset + reach > PAGE)
  }

  /** A stage whose page is mapped plays its script on that page and no other. */
  twostate predicate Plays(p: Platform, script: Script, answers: Answers, page: nat, mapped: bool, success: bool)
    reads p
  {
    && |old(p.log)| <= |p.log|
    && (if mapped then Played(p.log, |old(p.log)|, script, answers, success) else !success)
    && p.touched <= old(p.touched) + {page}
  }

  /** The common end of every stage: on failure a last reset; then take-down. */
  method Finish(p: Platform, t: Triple, w: Window, success: bool, ghost from: nat, ghost script: Script,
                ghost answers: Answers)
    requires p.Valid() && Owned(p.Live(), t)
    requires t.mapped ==> w.mapping == t.mapping && Session(p, w, from) && LastStatus(p.log, from).Some?
    requires t.mapped && success ==> LastStatus(p.log, from) == Some(0) && |answers| == |script|
    requires t.mapped ==> Stands(p.log, from, script, answers, success)
    modifies p`frames, p`reservations, p`mappings, p`log, p`escapes, p`nullWrites, p`touched
    ensures p.Valid() && p.Live() == Minus(old(p.Live()), t)
    ensures t.mapped ==>
              && from <= |p.log| && Disciplined(p.log, from) && LastStatus(p.log, from) == Some(0)
              && Played(p.log, from, script, answers, success)
    ensures Extends(p) && Within(p, w, STATUS_REACH)
    ensures !t.mapped ==> p.log == old(p.log) && p.escapes == old(p.escapes) && p.touched == old(p.touched)
  {
    StatusValues();
    hide LastOn, LastStatus, Disciplined, Silent, Advances, Stands;
    if t.mapped && !success {
      WriteStatus(p, w, 0, from);
      assert p.log[..|p.log| - 1] == old(p.log);
    }
    p.ReleaseTriple(t);
  }

  /** Stage M4: up to DRIVER_OK, then reset. */
  method DriverReadyReset(p: Platform, range: CommonRange)
    returns (success: bool, afterDriverOk: nat, afterReset: nat, ghost answers: Answers)
    requires p.Valid()
    modifies p
    ensures var mapped := Accepts(range, STATUS + 1) && Maps(p.grants, old(p.asked));
            && CleanExit(p, mapped) && Confined(p, range.pageOffset, STATUS_REACH, mapped)
            && Plays(p, DriverReadyScript(), answers, range.pagePaddr, mapped, success)
    ensures success ==> afterDriverOk == STATUS_DRIVER_OK && afterReset == 0
  {
    hide LastOn, LastStatus, Disciplined, Silent, Advances, CommonSane, Plus, Minus, Fresh, Owned, Stands, Played;
    ghost var from := |p.log|;
    success, afterDriverOk, afterReset, answers := false, 0, 0, [];
    Nothing(p.log);
    if !CommonSane(range) || range.capability.length < STATUS + 1 {
      return;
    }
    ghost var script := DriverReadyScript();
    StandsAtStart(p.log, script);
    var t := MapCommon(p, range.pagePaddr);
    var w := Window(t.mapping, range.pageOffset, range.pagePaddr);
    OpensOwned(p.Live(), t);
    if t.mapped {
      var ok;
      ok, answers := BringUp(p, w, from, script);
      if ok {
        afterDriverOk := STATUS_DRIVER_OK;
        afterReset, answers := ResetAndCheck(p, w, from, script, answers);
        success := afterReset == 0;
      }
    }
    Finish(p, t, w, success, from, script, answers);
    PlusMinus(old(p.Live()), t);
  }

  predicate Accepts(range: CommonRange, length: nat) {
    CommonSane(range) && range.capability.length >= length
  }

  lemma OpensOwned(b: Books, t: Triple)
    requires Owned(b, t)
    ensures t.mapped ==> t.frame.Some? && t.mapping in b.2 && b.2[t.mapping] == t
  {
  }

  lemma Nothing(log: seq<Event>)
    ensures Disciplined(log, |log|) && Silent(log, |log|) && LastStatus(log, |log|) == None
              && LastOn(log, |log|) == map[]
  {
  }

  /** The last step of a successful stage: reset, and read the status back. */
  method ResetAndCheck(p: Platform, w: Window, ghost from: nat, ghost script: Script, ghost answers: Answers)
    returns (afterReset: nat, ghost next: Answers)
    requires Session(p, w, from)
    requires Stands(p.log, from, script, answers, true) && |answers| < |script| && script[|answers|] == ResetBlock()
    modifies p`log, p`escapes, p`nullWrites, p`touched
    ensures Session(p, w, from) && LastStatus(p.log, from) == Some(0)
    ensures Stands(p.log, from, script, next, afterReset == 0) && next == answers + [[afterReset]]
    ensures Extends(p) && Reaches(p, w, STATUS_REACH)
  {
    StatusValues();
    hide LastOn, LastStatus, Disciplined, Silent, Advances, Pow2, Stands, Sees;
    WriteStatus(p, w, 0, from);
    afterReset := ReadRegister(p, w, STATUS, 1, from);
    next := answers + [[afterReset]];
    SeesOne(STATUS, afterReset);
    Advance(old(p.log), from, script, answers, p.log, [afterReset]);
  }

  /** Stage M3: up to FEATURES_OK with no feature accepted, then reset.  DRIVER_OK
      is never written. */
  method ZeroFeatures(p: Platform, range: CommonRange)
    returns (success: bool, afterFeaturesOk: nat, afterReset: nat, ghost answers: Answers)
    requires p.Valid()
    modifies p
    ensures var mapped := Accepts(range, STATUS + 1) && Maps(p.grants, old(p.asked));
            && CleanExit(p, mapped) && Confined(p, range.pageOffset, STATUS_REACH, mapped)
            && Plays(p, ZeroFeaturesScript(), answers, range.pagePaddr, mapped, success)
    ensures success ==> afterReset == 0 && |answers| == 5 && answers[3] == [afterFeaturesOk]
    ensures success ==> And(afterFeaturesOk, FEATURES_OK) != 0
  {
    hide LastOn, LastStatus, Disciplined, Silent, Advances, CommonSane, Plus, Minus, Fresh, Owned, And, Stands, Played;
    ghost var from := |p.log|;
    success, afterFeaturesOk, afterReset, answers := false, 0, 0, [];
    Nothing(p.log);
    if !CommonSane(range) || range.capability.length < STATUS + 1 {
      return;
    }
    ghost var script := ZeroFeaturesScript();
    StandsAtStart(p.log, script);
    var t := MapCommon(p, range.pagePaddr);
    var w := Window(t.mapping, range.pageOffset, range.pagePaddr);
    OpensOwned(p.Live(), t);
    if t.mapped {
      var ok, status;
      ok, status, answers := OfferNoFeatures(p, w, from);
      if ok {
        afterFeaturesOk := status;
        afterReset, answers := ResetAndCheck(p, w, from, script, answers);
        success := afterReset == 0;
      }
    }
    Finish(p, t, w, success, from, script, answers);
    PlusMinus(old(p.Live()), t);
  }

  method OfferNoFeatures(p: Platform, w: Window, ghost from: nat)
    returns (ok: bool, status: nat, ghost answers: Answers)
    requires Session(p, w, from) && Stands(p.log, from, ZeroFeaturesScript(), [], true)
    modifies p`log, p`escapes, p`nullWrites, p`touched
    ensures Session(p, w, from) && LastStatus(p.log, from).Some?
    ensures Stands(p.log, from, ZeroFeaturesScript(), answers, ok)
    ensures ok ==> |answers| == 4 && answers[3] == [status] && And(status, FEATURES_OK) != 0
    ensures Extends(p) && Reaches(p, w, STATUS_REACH)
  {
    StatusValues();
    hide LastOn, LastStatus, Disciplined, Silent, Advances, And, Pow2, Stands, Sees;
    ghost var script := ZeroFeaturesScript();
    status := 0;
    ok, answers := StatusStep(p, w, 0, from, script, []);
    if ok {
      ok, answers := StatusStep(p, w, ACKNOWLEDGE, from, script, answers);
    }
    if ok {
      ok, answers := StatusStep(p, w, Or(ACKNOWLEDGE, DRIVER), from, script, answers);
    }
    if ok {
      ghost var log := p.log;
      WriteStatus(p, w, STATUS_FEATURES_OK, from);
      status := ReadRegister(p, w, STATUS, 1, from);
      ok := And(status, FEATURES_OK) != 0;
      SeesOne(STATUS, status);
      Advance(log, from, script, answers, p.log, [status]);
      answers := answers + [[status]];
    }
  }

  /** Stage M5: selects queue zero and reads its size. */
  method ObserveQueueZero(p: Platform, range: CommonRange)
    returns (success: bool, queueSize: nat, afterReset: nat, ghost answers: Answers)
    requires p.Valid()
    modifies p
    ensures var mapped := Accepts(range, QUEUE_SIZE + 2) && Maps(p.grants, old(p.asked));
            && CleanExit(p, mapped) && Confined(p, range.pageOffset, Reach(answers, SIZE_REACH), mapped)
            && Plays(p, QueueZeroScript(), answers, range.pagePaddr, mapped, success)
    ensures success ==> afterReset == 0 && |answers| == 7 && answers[5] == [0, queueSize] && queueSize != 0
  {
    hide LastOn, LastStatus, Disciplined, Silent, Advances, CommonSane, Plus, Minus, Fresh, Owned, Stands, Played, Sees;
    ghost var from := |p.log|;
    success, queueSize, afterReset, answers := false, 0, 0, [];
    Nothing(p.log);
    if !CommonSane(range) || range.capability.length < QUEUE_SIZE + 2 {
      return;
    }
    ghost var script := QueueZeroScript();
    StandsAtStart(p.log, script);
    var t := MapCommon(p, range.pagePaddr);
    var w := Window(t.mapping, range.pageOffset, range.pagePaddr);
    OpensOwned(p.Live(), t);
    if t.mapped {
      var ok;
      ok, answers := BringUp(p, w, from, script);
      if ok {
        var index;
        index, queueSize, answers := MeasureQueueZero(p, w, from, answers);
        if index == 0 && queueSize != 0 {
          afterReset, answers := ResetAndCheck(p, w, from, script, answers);
          success := afterReset == 0;
        }
      }
    }
    Finish(p, t, w, success, from, script, answers);
    PlusMinus(old(p.Live()), t);
  }

  method MeasureQueueZero(p: Platform, w: Window, ghost from: nat, ghost answers: Answers)
    returns (index: nat, size: nat, ghost next: Answers)
    requires Session(p, w, from) && Stands(p.log, from, QueueZeroScript(), answers, true) && |answers| == 5
    modifies p`log, p`escapes, p`nullWrites, p`touched
    ensures Session(p, w, from) && LastStatus(p.log, from) == old(LastStatus(p.log, from))
    ensures Stands(p.log, from, QueueZeroScript(), next, index == 0 && size != 0) && next == answers + [[index, size]]
    ensures Extends(p) && Reaches(p, w, SIZE_REACH)
  {
    hide LastOn, LastStatus, Disciplined, Silent, Stands, Sees;
    index, size := SelectQueueZero(p, w, from);
    next := answers + [[index, size]];
    SeesTwo(QUEUE_SELECT, index, QUEUE_SIZE, size);
    Advance(old(p.log), from, QueueZeroScript(), answers, p.log, [index, size]);
  }

  method SelectQueueZero(p: Platform, w: Window, ghost from: nat) returns (index: nat, size: nat)
    requires Session(p, w, from)
    modifies p`log, p`escapes, p`nullWrites, p`touched
    ensures Session(p, w, from) && LastStatus(p.log, from) == old(LastStatus(p.log, from))
    ensures LastOn(p.log, from) ==
            old(LastOn(p.log, from))[QUEUE_SELECT := Saw(QUEUE_SELECT, index)][QUEUE_SIZE := Saw(QUEUE_SIZE, size)]
    ensures p.log == old(p.log) + [Wrote(QUEUE_SELECT, 0), Saw(QUEUE_SELECT, index), Saw(QUEUE_SIZE, size)]
    ensures Extends(p) && Reaches(p, w, SIZE_REACH)
  {
    hide LastOn, LastStatus, Disciplined, Silent, Pow2;
    WriteRegister(p, w, QUEUE_SELECT, 2, 0, from);
    index := ReadRegister(p, w, QUEUE_SELECT, 2, from);
    size := ReadRegister(p, w, QUEUE_SIZE, 2, from);
  }

  /** Same function and BAR on both sides, and a capability long enough. */
  predicate RangesAgree(common: CommonRange, notify: NotifyRange, length: nat) {
    && CommonSane(common) && NotifySane(notify)
    && common.capability.identity.device == notify.capability.identity.device
    && common.capability.identity.function_ == notify.capability.identity.function_
    && common.capability.bar == notify.capability.bar
    && common.capability.length >= length
  }

  /** Stage M8: computes queue zero's notification address without using it. */
  method ObserveNotification(p: Platform, common: CommonRange, notify: NotifyRange)
    returns (success: bool, notifyOff: U16, paddr: U64, ghost answers: Answers)
    requires p.Valid()
    modifies p
    ensures var mapped := RangesAgree(common, notify, QUEUE_NOTIFY_OFF + 2) && Maps(p.grants, old(p.asked));
            && CleanExit(p, mapped) && Confined(p, common.pageOffset, Reach(answers, NOTIFY_OFF_REACH), mapped)
            && Plays(p, LocateScript(notify), answers, common.pagePaddr, mapped, success)
    ensures success ==>
              && |answers| == 7 && |answers[5]| == 3 && answers[5][2] == notifyOff
              && paddr == notify.capPaddr + notifyOff * notify.capability.multiplier
              && notify.capPaddr <= paddr && paddr + 2 <= notify.capPaddr + notify.capability.length
  {
    hide LastOn, LastStatus, Disciplined, Silent, Advances, CommonSane, NotifySane, Plus, Minus, Fresh, Owned, Stands,
      Played;
    ghost var from := |p.log|;
    success, notifyOff, paddr, answers := false, 0, 0, [];
    Nothing(p.log);
    if !RangesAgree(common, notify, QUEUE_NOTIFY_OFF + 2) {
      return;
    }
    ghost var script := LocateScript(notify);
    StandsAtStart(p.log, script);
    var t := MapCommon(p, common.pagePaddr);
    var w := Window(t.mapping, common.pageOffset, common.pagePaddr);
    OpensOwned(p.Live(), t);
    if t.mapped {
      var ok;
      ok, answers := BringUp(p, w, from, script);
      if ok {
        ok, notifyOff, paddr, answers := LocateNotification(p, w, notify, from, answers);
        if ok {
          var afterReset;
          afterReset, answers := ResetAndCheck(p, w, from, script, answers);
          success := afterReset == 0;
        }
      }
    }
    Finish(p, t, w, success, from, script, answers);
    PlusMinus(old(p.Live()), t);
  }

  method LocateNotification(p: Platform, w: Window, notify: NotifyRange, ghost from: nat, ghost answers: Answers)
    returns (ok: bool, notifyOff: U16, paddr: U64, ghost next: Answers)
    requires Session(p, w, from) && Stands(p.log, from, LocateScript(notify), answers, true) && |answers| == 5
    modifies p`log, p`escapes, p`nullWrites, p`touched
    ensures Session(p, w, from) && LastStatus(p.log, from) == old(LastStatus(p.log, from))
    ensures Stands(p.log, from, LocateScript(notify), next, ok) && |next| == 6
    ensures Extends(p) && Reaches(p, w, NOTIFY_OFF_REACH)
    ensures |next[5]| == 3 && next[5][2] == notifyOff
    ensures ok ==>
              && paddr == notify.capPaddr + notifyOff * notify.capability.multiplier
              && notify.capPaddr <= paddr && paddr + 2 <= notify.capPaddr + notify.capability.length
  {
    hide LastOn, LastStatus, Disciplined, Silent, NotificationAddress, Stands, Sees;
    var index, size := SelectQueueZero(p, w, from);
    notifyOff := ReadNotifyOff(p, w, from);
    next := answers + [[index, size, notifyOff]];
    SeesThree(QUEUE_SELECT, index, QUEUE_SIZE, size, QUEUE_NOTIFY_OFF, notifyOff);
    Advance(old(p.log), from, LocateScript(notify), answers, p.log, [index, size, notifyOff]);
    paddr := 0;
    ok := false;
    if index == 0 && size != 0 {
      NotificationAccepted(notify, notifyOff);
      OffsetProductSmall(notifyOff, notify.capability.multiplier);
      var address := NotificationAddress(notify, notifyOff);
      if address.Some? {
        ok, paddr := true, address.value;
      }
    }
  }

  method ReadNotifyOff(p: Platform, w: Window, ghost from: nat) returns (value: U16)
    requires Session(p, w, from)
    modifies p`log, p`escapes, p`touched
    ensures Session(p, w, from) && LastStatus(p.log, from) == old(LastStatus(p.log, from))
    ensures LastOn(p.log, from) == old(LastOn(p.log, from))[QUEUE_NOTIFY_OFF := Saw(QUEUE_NOTIFY_OFF, value)]
    ensures p.log == old(p.log) + [Saw(QUEUE_NOTIFY_OFF, value)]
    ensures Extends(p) && Reaches(p, w, NOTIFY_OFF_REACH)
  {
    hide LastOn, LastStatus, Disciplined, Silent, Pow2;
    Pow2Values();
    value := ReadRegister(p, w, QUEUE_NOTIFY_OFF, 2, from);
  }

  /** Stage M2 only reads: it leaves the books as they were, writes nothing, and a
      sane range is enough to keep both reads on the mapped page. */
  method ObserveFeatures(p: Platform, range: CommonRange) returns (success: bool, select: nat, feature: nat)
    requires p.Valid()
    modifies p
    ensures p.Valid() && p.Live() == old(p.Live())
    ensures p.nullWrites == old(p.nullWrites) && p.escapes == old(p.escapes)
    ensures p.touched <= old(p.touched) + {range.pagePaddr}
    ensures if success then p.log == old(p.log) + [Saw(FEATURE_SELECT_OFF, select), Saw(FEATURE_OFF, feature)]
            else p.log == old(p.log)
    ensures success <==> CommonSane(range) && Maps(p.grants, old(p.asked))
  {
    success, select, feature := false, 0, 0;
    if !CommonSane(range) {
      return;
    }
    hide Plus, Minus, Fresh, Owned, Pow2, And;
    var t := MapCommon(p, range.pagePaddr);
    OpensOwned(p.Live(), t);
    if t.mapped {
      var w := Window(t.mapping, range.pageOffset, range.pagePaddr);
      select := p.Read(w, FEATURE_SELECT_OFF, 4);
      feature := p.Read(w, FEATURE_OFF, 4);
      success := true;
    }
    p.ReleaseTriple(t);
    PlusMinus(old(p.Live()), t);
  }
}
