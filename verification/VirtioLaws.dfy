/** The virtio stages' scripts and promises in the numbers of the register layout
    (Virtio 1.1, section 4.1.4.3) and of the device status field (section 2.1). */
module VirtioLaws {
  import opened Bits
  import opened VirtioRange
  import opened VirtioPlatform
  import opened VirtioScript
  import opened VirtioStages
  import opened VirtioQueue

  // ---------------------------------------------------------------- scripts

  /** Status 0, ACKNOWLEDGE, DRIVER, FEATURES_OK, DRIVER_OK, each read back. */
  lemma ClimbNumbers()
    ensures Climb() ==
            [Block([Wrote(0x14, 0)], [0x14], Is(0)), Block([Wrote(0x14, 1)], [0x14], Is(1)),
             Block([Wrote(0x14, 3)], [0x14], Is(3)), Block([Wrote(0x14, 11)], [0x14], Is(11)),
             Block([Wrote(0x14, 15)], [0x14], Is(15))]
  {
  }

  lemma StageNumbers(notify: NotifyRange)
    ensures DriverReadyScript() == Climb() + [Block([Wrote(0x14, 0)], [0x14], Is(0))]
    ensures ZeroFeaturesScript() ==
            Climb()[..3] + [Block([Wrote(0x14, 11)], [0x14], HasBits(8)), Block([Wrote(0x14, 0)], [0x14], Is(0))]
    ensures QueueZeroScript() ==
            Climb() + [Block([Wrote(0x16, 0)], [0x16, 0x18], QueueThere), Block([Wrote(0x14, 0)], [0x14], Is(0))]
    ensures LocateScript(notify) ==
            Climb() + [Block([Wrote(0x16, 0)], [0x16, 0x18, 0x1e], QueueLocated(notify)),
                       Block([Wrote(0x14, 0)], [0x14], Is(0))]
  {
  }

  lemma QueueNumbers(frame: nat, target: nat)
    ensures |QueueScript(frame, target)| == 16 && QueueScript(frame, target)[..5] == Climb()
    ensures var s := QueueScript(frame, target);
            && s[5] == Block([Wrote(0x16, 0)], [0x16, 0x18, 0x1c, 0x1e], QueueDisabled)
            && s[6] == Block([Wrote(0x18, 1)], [0x18], Is(1)) && s[7].puts == AddressWrites(frame)
            && (forall i :: 7 <= i < 13 ==> s[i].regs == [0x20 + 4 * (i - 7)] && (i > 7 ==> s[i].puts == []))
            && s[13] == Block([Wrote(0x1c, 1)], [0x1c], Is(1))
            && s[14] == Block([Notified(target, 0)], [], AllZero)
            && s[15] == Block([Wrote(0x14, 0)], [0x14, 0x1c], AllZero)
  {
    assert QueueScript(frame, target)[..5] == Climb();
  }

  /** How many bytes of the registers a stage reaches, by the blocks it got through. */
  lemma ReachNumbers(answers: Answers)
    ensures Reach(answers, SIZE_REACH) == if |answers| <= 5 then 0x15 else 0x1a
    ensures Reach(answers, NOTIFY_OFF_REACH) == if |answers| <= 5 then 0x15 else 0x20
    ensures QueueReach(answers) == if |answers| <= 5 then 0x15 else if |answers| <= 7 then 0x20 else 0x38
  {
  }

  /** The tests of the device's answers. */
  lemma TestNumbers(a: nat, b: nat, c: nat, d: nat)
    ensures Passes(Is(a), [b]) <==> b == a
    ensures Passes(HasBits(8), [a]) <==> a / 8 % 2 == 1
    ensures Passes(QueueThere, [a, b]) <==> a == 0 && b != 0
    ensures Passes(QueueDisabled, [a, b, c, d]) <==> a == 0 && b != 0 && c == 0
    ensures Passes(AllZero, [a, b]) <==> a == 0 && b == 0
  {
    assert Pow2(3) == 8;
    hide And, Pow2;
    BitOf(a, 3);
    BothZero(a, b);
  }

  lemma LocatedNumbers(notify: NotifyRange, a: nat, b: nat, c: nat)
    ensures Passes(QueueLocated(notify), [a, b, c]) <==>
            && a == 0 && b != 0 && c < 0x1_0000
            && c * notify.capability.multiplier + 2 <= notify.capability.length
            && notify.capPaddr + c * notify.capability.multiplier < 0x1_0000_0000_0000_0000
  {
    if c < 0x1_0000 {
      NotificationAccepted(notify, c);
      OffsetProductSmall(c, notify.capability.multiplier);
    }
    hide NotificationAddress;
  }

  // ---------------------------------------------------------------- the status field

  /** A script that climbs first and afterwards only ever resets. */
  predicate ClimbsFirst(script: Script) {
    && Climb() <= script
    && forall i, e :: 5 <= i < |script| && e in script[i].puts && e.Wrote? && e.reg == 0x14 ==> e.value == 0
  }

  /** DRIVER_OK is bit 2 of the status, FEATURES_OK bit 3. */
  predicate SetsDriverOk(e: Event) {
    e.Wrote? && e.reg == 0x14 && e.value / 4 % 2 == 1
  }

  /** DRIVER_OK is written only right after the status, with FEATURES_OK in it, has been
      read back. */
  lemma DriverOkLast(log: seq<Event>, from: nat, script: Script, answers: Answers, ok: bool)
    requires ClimbsFirst(script) && Stands(log, from, script, answers, ok)
    ensures forall j :: from <= j < |log| && SetsDriverOk(log[j]) ==>
              j > from && log[j] == Wrote(0x14, 15) && log[j - 1] == Saw(0x14, 11)
  {
    DriverOkOrder(script, answers);
    var t := log[from..];
    assert t == Transcript(script, answers);
    hide Transcript, SetsDriverOk;
    forall j | from <= j < |log| && SetsDriverOk(log[j])
      ensures j > from && log[j] == Wrote(0x14, 15) && log[j - 1] == Saw(0x14, 11)
    {
      assert t[j - from] == log[j] && SetsDriverOk(t[j - from]);
      assert j > from ==> t[j - from - 1] == log[j - 1];
    }
  }

  lemma {:induction false} DriverOkOrder(script: Script, answers: Answers)
    requires ClimbsFirst(script) && Fits(script, answers)
    requires forall i :: 0 <= i < |answers| - 1 ==> Passes(script[i].test, answers[i])
    ensures var t := Transcript(script, answers);
            forall j :: 0 <= j < |t| && SetsDriverOk(t[j]) ==>
              j > 0 && t[j] == Wrote(0x14, 15) && t[j - 1] == Saw(0x14, 11)
    decreases |answers|
  {
    if answers != [] {
      var n := |answers| - 1;
      var before := answers[..n];
      DriverOkOrder(script, before);
      Unfold(script, answers);
      ClimbNumbers();
      BlockPuts(script, n);
      SeesNoWrite(script[n].regs, answers[n]);
      if n == 4 {
        EndsWith11(script, before);
      }
      hide Transcript, Sees, Climb;
      var head, puts, sees := Transcript(script, before), script[n].puts, Sees(script[n].regs, answers[n]);
      var t := head + (puts + sees);
      forall j | 0 <= j < |t| && SetsDriverOk(t[j])
        ensures j > 0 && t[j] == Wrote(0x14, 15) && t[j - 1] == Saw(0x14, 11)
      {
        if j >= |head| {
          assert t[j] == (puts + sees)[j - |head|];
          assert j - |head| < |puts|;
          assert t[j] in puts;
        } else {
          assert t[j] == head[j];
        }
      }
    }
  }

  /** Only the fifth block writes DRIVER_OK, and it writes nothing else. */
  lemma BlockPuts(script: Script, n: nat)
    requires ClimbsFirst(script) && n < |script|
    ensures n == 4 ==> script[n].puts == [Wrote(0x14, 15)]
    ensures n != 4 ==> forall e :: e in script[n].puts ==> !SetsDriverOk(e)
  {
    ClimbNumbers();
    if n < 5 {
      assert script[n] == Climb()[n];
    }
  }

  lemma {:induction false} SeesNoWrite(regs: seq<nat>, a: seq<nat>)
    requires |regs| == |a|
    ensures forall i :: 0 <= i < |Sees(regs, a)| ==> Sees(regs, a)[i].Saw?
  {
    if a != [] {
      SeesNoWrite(regs[..|a| - 1], a[..|a| - 1]);
    }
  }

  /** After four passed blocks the last access read 11. */
  lemma EndsWith11(script: Script, answers: Answers)
    requires ClimbsFirst(script) && Fits(script, answers) && |answers| == 4 && Passes(script[3].test, answers[3])
    ensures var t := Transcript(script, answers); t != [] && t[|t| - 1] == Saw(0x14, 11)
  {
    ClimbNumbers();
    assert script[3] == Climb()[3];
    Unfold(script, answers);
    SeesOne(0x14, 11);
  }

  /** This holds for every stage that writes DRIVER_OK. */
  lemma StagesClimbFirst(notify: NotifyRange, frame: nat, target: nat)
    ensures ClimbsFirst(DriverReadyScript()) && ClimbsFirst(QueueZeroScript()) && ClimbsFirst(LocateScript(notify))
    ensures ClimbsFirst(QueueScript(frame, target))
  {
    assert Climb() <= DriverReadyScript() && Climb() <= QueueZeroScript();
    assert Climb() <= LocateScript(notify) && Climb() <= QueueScript(frame, target);
  }

  /** And the zero-feature stage never writes it. */
  lemma NoDriverOk(log: seq<Event>, from: nat, answers: Answers, success: bool)
    requires from <= |log| && Played(log, from, ZeroFeaturesScript(), answers, success)
    ensures forall j :: from <= j < |log| ==> !SetsDriverOk(log[j])
  {
    NoneWrites(ZeroFeaturesScript(), answers);
    var t := Transcript(ZeroFeaturesScript(), answers);
    hide Transcript;
    var prefix := if success then log else log[..|log| - 1];
    forall j | from <= j < |log| ensures !SetsDriverOk(log[j]) {
      if j < |prefix| {
        assert prefix[from..][j - from] == log[j];
      }
    }
  }

  lemma {:induction false} NoneWrites(script: Script, answers: Answers)
    requires Fits(script, answers)
    requires forall i, e :: 0 <= i < |script| && e in script[i].puts ==> !SetsDriverOk(e)
    ensures forall j :: 0 <= j < |Transcript(script, answers)| ==> !SetsDriverOk(Transcript(script, answers)[j])
    decreases |answers|
  {
    if answers != [] {
      var n := |answers| - 1;
      NoneWrites(script, answers[..n]);
      Unfold(script, answers);
      SeesNoWrite(script[n].regs, answers[n]);
      hide Transcript, Sees;
      var head, puts, sees := Transcript(script, answers[..n]), script[n].puts, Sees(script[n].regs, answers[n]);
      var t := head + (puts + sees);
      forall j | 0 <= j < |t| ensures !SetsDriverOk(t[j]) {
        if j >= |head| {
          assert t[j] == (puts + sees)[j - |head|];
          assert j - |head| < |puts| ==> t[j] in puts;
        }
      }
    }
  }

  /** Status writes keep bits: a write that the discipline admits is a reset, or has every
      bit of the write before it. */
  lemma {:induction false} KeepsBits(a: nat, b: nat, k: nat)
    requires And(a, b) == a && a / Pow2(k) % 2 == 1
    ensures b / Pow2(k) % 2 == 1
    decreases k
  {
    hide And;
    AndUnfold(a, b);
    LowBit(a, b);
    if k > 0 {
      HalfOf(a, Pow2(k - 1));
      HalfOf(b, Pow2(k - 1));
      KeepsBits(a / 2, b / 2, k - 1);
    }
  }

  lemma AdvanceMeans(a: nat, b: nat, k: nat)
    requires Advances(Some(a), b) && b != 0 && a / Pow2(k) % 2 == 1
    ensures b / Pow2(k) % 2 == 1
  {
    hide And;
    KeepsBits(a, b, k);
  }

  // ---------------------------------------------------------------- addresses

  /** The low half is below 2^32, and both make up the address. */
  lemma HalvesMakeAddress(paddr: nat)
    ensures Low(paddr) < 0x1_0000_0000 && Low(paddr) + 0x1_0000_0000 * High(paddr) == paddr
  {
  }

  /** The last accesses to two registers read the halves of an address. */
  ghost predicate ReadsAddress(last: map<nat, Event>, reg: nat, paddr: nat) {
    && reg in last && last[reg].Saw? && last[reg].value < 0x1_0000_0000
    && reg + 4 in last && last[reg + 4].Saw?
    && last[reg].value + 0x1_0000_0000 * last[reg + 4].value == paddr
  }

  ghost predicate ReadsNumber(last: map<nat, Event>, reg: nat, value: nat) {
    reg in last && last[reg] == Saw(reg, value)
  }

  /** What has been read back when the queue is notified: size one, the frame's three
      addresses, and an enabled queue. */
  lemma NotifiedNumbers(log: seq<Event>, from: nat, frame: nat, target: nat, k: nat)
    requires NotifiedOnce(log, from, frame, target) && from <= k < |log| && log[k].Notified?
    ensures log[k] == Notified(target, 0)
    ensures forall j :: from <= j < |log| && log[j].Notified? ==> j == k
    ensures var last := LastOn(log[..k], from);
            && ReadsNumber(last, 0x18, 1) && ReadsNumber(last, 0x1c, 1)
            && ReadsAddress(last, 0x20, frame)
            && ReadsAddress(last, 0x28, frame + 16)
            && ReadsAddress(last, 0x30, frame + 24)
  {
    HalvesMakeAddress(frame);
    HalvesMakeAddress(frame + 16);
    HalvesMakeAddress(frame + 24);
    hide LastOn, Low, High;
    assert NotifiedAt(log, from, frame, target, k);
    assert forall j :: from <= j < k ==> log[..k][j] == log[j];
  }

  /** And what is written before: the same halves, in the order of the registers. */
  lemma AddressesWritten(frame: nat)
    ensures var w := AddressWrites(frame);
            && |w| == 6 && (forall i :: 0 <= i < 6 ==> w[i].Wrote? && w[i].reg == 0x20 + 4 * i)
            && w[0].value < 0x1_0000_0000 && w[0].value + 0x1_0000_0000 * w[1].value == frame
            && w[2].value < 0x1_0000_0000 && w[2].value + 0x1_0000_0000 * w[3].value == frame + 16
            && w[4].value < 0x1_0000_0000 && w[4].value + 0x1_0000_0000 * w[5].value == frame + 24
  {
    HalvesMakeAddress(frame);
    HalvesMakeAddress(frame + 16);
    HalvesMakeAddress(frame + 24);
  }

  /** A successful stage notifies, at capability base plus the offset the device gave
      times the multiplier. */
  lemma SuccessNotifies(log: seq<Event>, from: nat, frame: nat, notify: NotifyRange, answers: Answers,
                        grants: nat -> bool, n: nat)
    requires QueuePlayed(log, from, frame, notify, answers, grants, n, true)
    ensures |answers| == 16 && |answers[5]| == 4 && answers[5][0] == 0 && answers[5][1] != 0 && answers[5][2] == 0
    ensures answers[15] == [0, 0]
    ensures var target := notify.capPaddr + answers[5][3] * notify.capability.multiplier;
            exists k :: from <= k < |log| && log[k] == Notified(target, 0)
  {
    var target := TargetOf(notify, answers);
    var script := QueueScript(frame, target);
    QueueNumbers(frame, target);
    assert Passes(script[5].test, answers[5]) && Passes(script[15].test, answers[15]);
    hide Transcript, NotificationPlace, QueueScript;
    Performed(script, answers, 14, Notified(target, 0));
    var t := log[from..];
    var i :| 0 <= i < |t| && t[i] == Notified(target, 0);
    assert log[from + i] == t[i];
  }

  /** What an answered block writes is in the transcript. */
  lemma {:induction false} Performed(script: Script, answers: Answers, i: nat, e: Event)
    requires Fits(script, answers) && i < |answers| && e in script[i].puts
    ensures e in Transcript(script, answers)
    decreases |answers|
  {
    var n := |answers| - 1;
    Unfold(script, answers);
    if i < n {
      Performed(script, answers[..n], i, e);
    }
  }

  // ---------------------------------------------------------------- arguments

  /** Ranges that a stage accepts together are windows of one BAR of one function. */
  lemma AgreeMeans(common: CommonRange, notify: NotifyRange, length: nat)
    ensures RangesAgree(common, notify, length) <==>
            && CommonSane(common) && NotifySane(notify)
            && common.capability.identity.device == notify.capability.identity.device
            && common.capability.identity.function_ == notify.capability.identity.function_
            && common.capability.bar == notify.capability.bar && length <= common.capability.length
  {
    hide CommonSane, NotifySane;
  }

  /** The layout frame is only used when its page lies above zero and ends in the address
      space. */
  lemma FrameUsable(grants: nat -> bool, pages: nat -> U64, n: nat)
    requires CommonMapped(grants, pages, n)
    ensures 0 < pages(n + 1) && pages(n + 1) + 4096 <= 0x1_0000_0000_0000_0000
  {
  }
}
