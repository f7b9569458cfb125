/** The stages' protocols as scripts: blocks of register writes followed by reads
    with a test of what the device answered.  Replaying a script against the
    answers gives the log a stage has to leave, access by access. */
module VirtioScript {
  import opened Bits
  import opened VirtioRange
  import opened VirtioPlatform

  datatype Test =
    | Is(value: nat)
    | HasBits(bits: nat)
    | QueueThere                          // selector zero, size not zero
    | QueueLocated(notify: NotifyRange)   // and a valid notification address
    | QueueDisabled                       // and not enabled
    | AllZero

  datatype Block = Block(puts: seq<Event>, regs: seq<nat>, test: Test)

  type Script = seq<Block>
  type Answers = seq<seq<nat>>

  predicate Passes(test: Test, a: seq<nat>) {
    match test
    case Is(v) => a == [v]
    case HasBits(bits) => |a| == 1 && And(a[0], bits) != 0
    case QueueThere => |a| == 2 && a[0] == 0 && a[1] != 0
    case QueueLocated(notify) =>
      |a| == 3 && a[0] == 0 && a[1] != 0 && a[2] < 0x1_0000 && NotificationAddress(notify, a[2]).Some?
    case QueueDisabled => |a| == 4 && a[0] == 0 && a[1] != 0 && a[2] == 0
    case AllZero => forall i :: 0 <= i < |a| ==> a[i] == 0
  }

  function Sees(regs: seq<nat>, a: seq<nat>): seq<Event>
    requires |regs| == |a|
  {
    if a == [] then [] else Sees(regs[..|a| - 1], a[..|a| - 1]) + [Saw(regs[|a| - 1], a[|a| - 1])]
  }

  predicate Fits(script: Script, answers: Answers) {
    && |answers| <= |script|
    && forall i :: 0 <= i < |answers| ==> |answers[i]| == |script[i].regs|
  }

  /** The accesses that a script makes as far as it is answered. */
  function Transcript(script: Script, answers: Answers): seq<Event>
    requires Fits(script, answers)
  {
    if answers == [] then []
    else
      var n := |answers| - 1;
      Transcript(script, answers[..n]) + script[n].puts + Sees(script[n].regs, answers[n])
  }

  /** The log since `from` is the script as far as answered; every test passed, up
      to the last one, which passed if and only if `ok`. */
  ghost predicate Stands(log: seq<Event>, from: nat, script: Script, answers: Answers, ok: bool) {
    && from <= |log| && Fits(script, answers)
    && log[from..] == Transcript(script, answers)
    && (forall i :: 0 <= i < |answers| - 1 ==> Passes(script[i].test, answers[i]))
    && (answers == [] ==> ok)
    && (answers != [] ==> (ok <==> Passes(script[|answers| - 1].test, answers[|answers| - 1])))
  }

  lemma StandsAtStart(log: seq<Event>, script: Script)
    ensures Stands(log, |log|, script, [], true)
  {
  }

  predicate Speaks(script: Script) {
    forall i :: 0 <= i < |script| ==> |script[i].puts| + |script[i].regs| > 0
  }

  /** Scripts that differ in what they write only. */
  predicate Alike(script: Script, other: Script) {
    && |script| == |other|
    && forall i :: 0 <= i < |script| ==>
         |script[i].puts| == |other[i].puts| && script[i].regs == other[i].regs
  }

  /** A log tells the answers it was replayed against: no two answers give the same,
      not even to scripts that differ in what they write. */
  lemma AnswersDetermined(script: Script, other: Script, a: Answers, b: Answers)
    requires Speaks(script) && Alike(script, other) && Fits(script, a) && Fits(other, b)
    requires Transcript(script, a) == Transcript(other, b)
    ensures a == b
  {
    hide Transcript;
    if |a| < |b| {
      Longer(other, b, |a|);
      SameLength(script, other, a, b[..|a|]);
    } else if |b| < |a| {
      Longer(script, a, |b|);
      SameLength(script, other, a[..|b|], b);
    } else {
      SameBlocks(script, other, a, b);
    }
  }

  lemma {:induction false} SameLength(script: Script, other: Script, a: Answers, b: Answers)
    requires Alike(script, other) && Fits(script, a) && Fits(other, b) && |a| == |b|
    ensures |Transcript(script, a)| == |Transcript(other, b)|
    decreases |a|
  {
    if a != [] {
      var n := |a| - 1;
      SameLength(script, other, a[..n], b[..n]);
      SeesLength(script[n].regs, a[n]);
      SeesLength(script[n].regs, b[n]);
    }
  }

  lemma {:induction false} SeesLength(regs: seq<nat>, a: seq<nat>)
    requires |regs| == |a|
    ensures |Sees(regs, a)| == |a|
  {
    if a != [] {
      SeesLength(regs[..|a| - 1], a[..|a| - 1]);
    }
  }

  /** Further answers only make a transcript longer. */
  lemma {:induction false} Longer(script: Script, a: Answers, n: nat)
    requires Speaks(script) && Fits(script, a) && n < |a|
    ensures |Transcript(script, a)| > |Transcript(script, a[..n])|
  {
    var k := |a| - 1;
    SeesLength(script[k].regs, a[k]);
    if n < k {
      Longer(script, a[..k], n);
      assert a[..k][..n] == a[..n];
    }
  }

  lemma {:induction false} SameBlocks(script: Script, other: Script, a: Answers, b: Answers)
    requires Alike(script, other) && Fits(script, a) && Fits(other, b) && |a| == |b|
    requires Transcript(script, a) == Transcript(other, b)
    ensures a == b
    decreases |a|
  {
    hide Transcript, Sees;
    if a != [] {
      var n := |a| - 1;
      Unfold(script, a);
      Unfold(other, b);
      SameLength(script, other, a[..n], b[..n]);
      SplitAt(Transcript(script, a[..n]), Transcript(other, b[..n]), script[n].puts, other[n].puts,
              Sees(script[n].regs, a[n]), Sees(script[n].regs, b[n]));
      SameBlocks(script, other, a[..n], b[..n]);
      SameAnswers(script[n].regs, a[n], b[n]);
      assert a == a[..n] + [a[n]] && b == b[..n] + [b[n]];
    }
  }

  lemma Unfold(script: Script, a: Answers)
    requires Fits(script, a) && a != []
    ensures var n := |a| - 1;
            && Fits(script, a[..n])
            && Transcript(script, a) == Transcript(script, a[..n]) + (script[n].puts + Sees(script[n].regs, a[n]))
  {
    hide Sees;
  }

  lemma SplitAt(x: seq<Event>, y: seq<Event>, p: seq<Event>, q: seq<Event>, s: seq<Event>, t: seq<Event>)
    requires x + (p + s) == y + (q + t) && |x| == |y| && |p| == |q|
    ensures x == y && s == t
  {
    var u, v := x + (p + s), y + (q + t);
    assert x == u[..|x|] && y == v[..|x|];
    assert s == u[|x| + |p|..] && t == v[|x| + |p|..];
  }

  lemma {:induction false} SameAnswers(regs: seq<nat>, a: seq<nat>, b: seq<nat>)
    requires |regs| == |a| == |b| && Sees(regs, a) == Sees(regs, b)
    ensures a == b
  {
    if a != [] {
      var n := |a| - 1;
      SeesLength(regs[..n], a[..n]);
      SeesLength(regs[..n], b[..n]);
      var t := Sees(regs, a);
      assert t[..n] == Sees(regs[..n], a[..n]) == Sees(regs[..n], b[..n]);
      assert t[n] == Saw(regs[n], a[n]) == Saw(regs[n], b[n]);
      SameAnswers(regs[..n], a[..n], b[..n]);
      assert a == a[..n] + [a[n]] && b == b[..n] + [b[n]];
    }
  }

  /** Blocks that have not been answered yet do not matter. */
  lemma {:induction false} SameStart(script: Script, other: Script, answers: Answers)
    requires Fits(script, answers) && |answers| <= |other| && script[..|answers|] == other[..|answers|]
    ensures Fits(other, answers) && Transcript(script, answers) == Transcript(other, answers)
  {
    assert forall i :: 0 <= i < |answers| ==> script[i] == script[..|answers|][i] == other[i];
    if answers != [] {
      var n := |answers| - 1;
      assert script[..n] == script[..|answers|][..n] == other[..n];
      SameStart(script, other, answers[..n]);
    }
  }

  lemma StandsFor(log: seq<Event>, from: nat, script: Script, other: Script, answers: Answers, ok: bool)
    requires Stands(log, from, script, answers, ok)
    requires |answers| <= |other| && script[..|answers|] == other[..|answers|]
    ensures Stands(log, from, other, answers, ok)
  {
    hide Transcript, Passes;
    SameStart(script, other, answers);
    assert forall i :: 0 <= i < |answers| ==> script[i] == script[..|answers|][i] == other[i];
  }

  /** One more block of the script. */
  lemma Advance(log: seq<Event>, from: nat, script: Script, answers: Answers, later: seq<Event>, a: seq<nat>)
    requires Stands(log, from, script, answers, true) && |answers| < |script|
    requires |a| == |script[|answers|].regs|
    requires later == log + script[|answers|].puts + Sees(script[|answers|].regs, a)
    ensures Stands(later, from, script, answers + [a], Passes(script[|answers|].test, a))
  {
    TranscriptStep(script, answers, a);
    hide Passes, Sees, Transcript, Fits;
    var next := answers + [a];
    assert forall i :: 0 <= i < |answers| ==> next[i] == answers[i];
    assert next[|answers|] == a;
    var more := script[|answers|].puts + Sees(script[|answers|].regs, a);
    assert later == log + more;
    assert later[from..] == log[from..] + more;
  }

  lemma TranscriptStep(script: Script, answers: Answers, a: seq<nat>)
    requires Fits(script, answers) && |answers| < |script| && |a| == |script[|answers|].regs|
    ensures Fits(script, answers + [a])
    ensures Transcript(script, answers + [a]) ==
            Transcript(script, answers) + (script[|answers|].puts + Sees(script[|answers|].regs, a))
  {
    hide Sees;
    var next := answers + [a];
    assert next[..|answers|] == answers && next[|answers|] == a;
  }

  lemma SeesOne(r: nat, v: nat)
    ensures Sees([r], [v]) == [Saw(r, v)]
  {
  }

  lemma SeesTwo(r: nat, v: nat, s: nat, w: nat)
    ensures Sees([r, s], [v, w]) == [Saw(r, v), Saw(s, w)]
  {
    SeesOne(r, v);
    assert [r, s][..1] == [r] && [v, w][..1] == [v];
  }

  lemma SeesThree(r: nat, v: nat, s: nat, w: nat, t: nat, x: nat)
    ensures Sees([r, s, t], [v, w, x]) == [Saw(r, v), Saw(s, w), Saw(t, x)]
  {
    SeesTwo(r, v, s, w);
    assert [r, s, t][..2] == [r, s] && [v, w, x][..2] == [v, w];
  }

  lemma SeesFour(r: nat, v: nat, s: nat, w: nat, t: nat, x: nat, u: nat, y: nat)
    ensures Sees([r, s, t, u], [v, w, x, y]) == [Saw(r, v), Saw(s, w), Saw(t, x), Saw(u, y)]
  {
    SeesThree(r, v, s, w, t, x);
    assert [r, s, t, u][..3] == [r, s, t] && [v, w, x, y][..3] == [v, w, x];
  }

  // ---------------------------------------------------------------- the scripts

  /** A status is written and has to read back. */
  function StatusBlock(value: nat): Block {
    Block([Wrote(STATUS, value)], [STATUS], Is(value))
  }

  /** Reset, ACKNOWLEDGE, DRIVER, FEATURES_OK, DRIVER_OK. */
  function Climb(): Script {
    [StatusBlock(0), StatusBlock(1), StatusBlock(3), StatusBlock(11), StatusBlock(15)]
  }

  function ResetBlock(): Block {
    Block([Wrote(STATUS, 0)], [STATUS], Is(0))
  }

  function DriverReadyScript(): Script {
    Climb() + [ResetBlock()]
  }

  function ZeroFeaturesScript(): Script {
    [StatusBlock(0), StatusBlock(1), StatusBlock(3), Block([Wrote(STATUS, 11)], [STATUS], HasBits(8)), ResetBlock()]
  }

  function QueueZeroScript(): Script {
    Climb() + [Block([Wrote(QUEUE_SELECT, 0)], [QUEUE_SELECT, QUEUE_SIZE], QueueThere), ResetBlock()]
  }

  function LocateScript(notify: NotifyRange): Script {
    Climb()
    + [Block([Wrote(QUEUE_SELECT, 0)], [QUEUE_SELECT, QUEUE_SIZE, QUEUE_NOTIFY_OFF], QueueLocated(notify)),
      ResetBlock()]
  }

  lemma ScriptsSpeak(notify: NotifyRange)
    ensures Speaks(DriverReadyScript()) && Speaks(ZeroFeaturesScript())
    ensures Speaks(QueueZeroScript()) && Speaks(LocateScript(notify))
  {
  }

  /** A finished stage: the whole script with every test passed, or a part of it that
      ends with a refused test and is followed by one more reset. */
  ghost predicate Played(log: seq<Event>, from: nat, script: Script, answers: Answers, success: bool) {
    if success then |answers| == |script| && Stands(log, from, script, answers, true)
    else
      && |log| > 0 && log[|log| - 1] == Wrote(STATUS, 0)
      && Stands(log[..|log| - 1], from, script, answers, false)
  }

  /** A complete transcript ends with a read. */
  lemma EndsWithRead(script: Script, answers: Answers)
    requires Fits(script, answers) && answers != [] && script[|answers| - 1].regs != []
    ensures var t := Transcript(script, answers); t != [] && t[|t| - 1].Saw?
  {
    var n := |answers| - 1;
    SeesLength(script[n].regs, answers[n]);
  }

  /** The log of a finished stage decides whether it succeeded and what the device
      answered. */
  lemma LogDecides(log: seq<Event>, from: nat, script: Script, a: Answers, b: Answers, won: bool, wonToo: bool)
    requires Speaks(script) && script != [] && script[|script| - 1].regs != []
    requires Played(log, from, script, a, won) && Played(log, from, script, b, wonToo)
    ensures won == wonToo && a == b
  {
    hide Transcript, Passes;
    if won {
      Finished(log, from, script, a);
    }
    if wonToo {
      Finished(log, from, script, b);
    }
    AnswersDetermined(script, script, a, b);
  }

  lemma Finished(log: seq<Event>, from: nat, script: Script, a: Answers)
    requires script != [] && script[|script| - 1].regs != []
    requires |a| == |script| && Stands(log, from, script, a, true)
    ensures log != [] && log[|log| - 1].Saw?
  {
    EndsWithRead(script, a);
    hide Transcript, Passes;
    var t := log[from..];
    assert t[|t| - 1] == log[|log| - 1];
  }

  function StageScripts(notify: NotifyRange): seq<Script> {
    [DriverReadyScript(), ZeroFeaturesScript(), QueueZeroScript(), LocateScript(notify)]
  }

  /** In particular for the stages over one mapping. */
  lemma StageLogsDecide(log: seq<Event>, from: nat, notify: NotifyRange, a: Answers, b: Answers, won: bool,
                        wonToo: bool)
    ensures forall script :: script in StageScripts(notify) ==>
              (Played(log, from, script, a, won) && Played(log, from, script, b, wonToo) ==> won == wonToo && a == b)
  {
    ScriptsSpeak(notify);
    hide Played, Speaks;
    forall script | script in StageScripts(notify)
                    && Played(log, from, script, a, won) && Played(log, from, script, b, wonToo)
      ensures won == wonToo && a == b
    {
      LogDecides(log, from, script, a, b, won, wonToo);
    }
  }
}
