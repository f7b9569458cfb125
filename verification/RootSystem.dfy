/** Root, the construction client and the completion child running side by side
    (src/root_construct_m1.c, root_construct_m2.c, root_construct_m4.c,
    servers/taskd_root_construct_m4_client.c,
    drivers/root_construct_m4_completion_child.c).  They meet by rendezvous:
    a call or a send waits until its partner receives. */
module RootSystem {
  import opened Bits
  import opened RootConstruct

  const TCB_SLOT: nat := 10
  const CHILD_DONE: U64 := 0x52434d34444f4e45
  const CALLS: nat := 4

  datatype Cap = RequestEndpoint | CompletionEndpoint | Tcb(tcb: nat)

  /** Where the client stands: before or inside its k-th call, then resuming the
      child, announcing that, and waiting for the child's message. */
  datatype Client = Calling(k: nat) | Waiting(k: nat) | Resuming | Announcing | Receiving | Parked | Validated

  /** Root receives, serves one message, or has replied and is on its way back. */
  datatype Loop = Idle | Serving(message: Message) | Replied

  datatype Child = Absent | Child(tcb: nat, phase: Phase)
  datatype Phase = Suspended | Ready | Sending | Sent

  /** What an observer of the three sees. */
  datatype Event = Answered(reply: Reply) | Resumed(tcb: nat) | Refused | Ran(tcb: nat) | Completed(message: Message)

  datatype System =
    System(root: RootState, loop: Loop, client: Client, slots: map<nat, Cap>, child: Child, events: seq<Event>)

  datatype Action = Call | Serve(outcome: Outcome) | Return | Resume(accepted: bool) | Announce | Enter | Deliver

  // ---------------------------------------------------------------- the client and the child

  /** The client's four requests: construct twice, then ask for the lease twice. */
  function Request(k: nat): Message {
    Message(0, 0, WORDS, 0, if k < 2 then M1_REQUEST else M2_LEASE_TCB, SLOT, GENERATION)
  }

  /** The status and the number of capabilities the client wants from call k. */
  function Expected(k: nat): (U64, U64) {
    if k == 0 then (M1_CONSTRUCTED, 0)
    else if k == 1 then (M1_REJECTED, 0)
    else if k == 2 then (M2_GRANTED, 1)
    else (M2_REJECTED, 0)
  }

  predicate Expects(k: nat, answer: Message) {
    && answer.tag == 0 && answer.length == WORDS && answer.extraCaps == Expected(k).1
    && answer.mr0 == Expected(k).0 && answer.mr1 == SLOT && answer.mr2 == GENERATION
  }

  /** A reply as the caller receives it. */
  function Delivered(r: Reply): Message {
    Message(0, 0, WORDS, r.extraCaps, r.status, r.slot, r.generation)
  }

  function AfterAnswer(k: nat, answer: Message): Client {
    if !Expects(k, answer) then Parked else if k + 1 < CALLS then Calling(k + 1) else Resuming
  }

  function AfterCompletion(m: Message): Client {
    if Exact(m, CHILD_DONE) then Validated else Parked
  }

  function CompletionMessage(): Message {
    Message(0, 0, WORDS, 0, CHILD_DONE, SLOT, GENERATION)
  }

  // ---------------------------------------------------------------- steps

  function Init(): System {
    System(RootState(Free, CAP_NULL, false, true, true, false), Idle, Calling(0),
           map[TASKD_REQUEST_SLOT := RequestEndpoint, TASKD_COMPLETION_SLOT := CompletionEndpoint], Absent, [])
  }

  predicate Enabled(s: System, a: Action) {
    match a
    case Call => s.client.Calling? && s.loop.Idle? && Holds(s, TASKD_REQUEST_SLOT, RequestEndpoint)
    case Serve(_) => s.loop.Serving? && s.client.Waiting?
    case Return => s.loop.Replied?
    case Resume(_) => s.client.Resuming?
    case Announce => s.client.Announcing?
    case Enter => s.child.Child? && s.child.phase.Ready?
    case Deliver => s.client.Receiving? && Holds(s, TASKD_COMPLETION_SLOT, CompletionEndpoint)
                    && s.child.Child? && s.child.phase.Sending? && s.root.childPrepared
  }

  predicate Holds(s: System, slot: nat, cap: Cap) {
    slot in s.slots && s.slots[slot] == cap
  }

  function Next(s: System, a: Action): System
    requires Enabled(s, a)
  {
    match a
    case Call => s.(loop := Serving(Request(s.client.k)), client := Waiting(s.client.k))
    case Serve(o) => Served(s, o)
    case Return => s.(loop := Idle)
    case Resume(accepted) =>
      if accepted && TCB_SLOT in s.slots && s.slots[TCB_SLOT].Tcb? then
        Awoken(s, s.slots[TCB_SLOT].tcb)
      else s.(client := Parked, events := s.events + [Refused])
    case Announce => s.(client := Receiving)
    case Enter => s.(child := s.child.(phase := Sending), events := s.events + [Ran(s.child.tcb)])
    case Deliver =>
      var m := CompletionMessage();
      s.(child := s.child.(phase := Sent), events := s.events + [Completed(m)],
         client := AfterCompletion(m))
  }

  /** Root's turn: it may spawn the child, suspended, and it answers the client.  A
      capability lands in the client's slot when the call named a slot for it. */
  function Served(s: System, o: Outcome): System
    requires s.loop.Serving? && s.client.Waiting?
  {
    var m, k := s.loop.message, s.client.k;
    var r := Answer(s.root, m, o);
    s.(root := After(s.root, m, o), loop := Replied,
       child := if Attempts(s.root, m) && Spawns(o) then Child(o.tcb, Suspended) else s.child,
       slots := if k >= 2 && r.extraCaps == 1 && TCB_SLOT !in s.slots then s.slots[TCB_SLOT := Tcb(r.cap)] else s.slots,
       client := AfterAnswer(k, Delivered(r)),
       events := s.events + [Answered(r)])
  }

  function Awoken(s: System, tcb: nat): System {
    s.(client := Announcing, events := s.events + [Resumed(tcb)],
       child := if s.child.Child? && s.child.tcb == tcb && s.child.phase.Suspended?
                then s.child.(phase := Ready) else s.child)
  }

  /** A schedule that each state allows. */
  predicate Possible(s: System, schedule: seq<Action>)
    decreases |schedule|
  {
    schedule == [] || (Enabled(s, schedule[0]) && Possible(Next(s, schedule[0]), schedule[1..]))
  }

  function Run(s: System, schedule: seq<Action>): System
    requires Possible(s, schedule)
    decreases |schedule|
  {
    if schedule == [] then s else Run(Next(s, schedule[0]), schedule[1..])
  }

  /** Nothing is left but yielding. */
  ghost predicate Stuck(s: System) {
    forall a :: !Enabled(s, a)
  }

  // ---------------------------------------------------------------- the stories a run can tell

  function Lease(tcb: nat): Reply {
    Reply(M2_GRANTED, SLOT, GENERATION, 1, tcb)
  }

  /** One construction, one refusal, one grant, one refusal, one resume, one
      execution, one completion, all about the same child. */
  function Success(tcb: nat): seq<Event> {
    [Answered(Plain(M1_CONSTRUCTED)), Answered(Plain(M1_REJECTED)), Answered(Lease(tcb)), Answered(Plain(M2_REJECTED)),
     Resumed(tcb), Ran(tcb), Completed(CompletionMessage())]
  }

  function ConstructionFails(): seq<Event> {
    [Answered(Plain(M1_REJECTED))]
  }

  function ResumeFails(tcb: nat): seq<Event> {
    Success(tcb)[..4] + [Refused]
  }

  // ---------------------------------------------------------------- the invariant

  predicate CallsBegun(s: System, k: nat) {
    && k < CALLS
    && (k == 0 ==> s.root == Init().root && s.child.Absent? && s.events == [])
    && (k >= 1 ==> Built(s, Suspended) && s.root.leaseGranted == (k >= 3) && s.events == Success(s.root.childTcb)[..k])
    && (TCB_SLOT in s.slots <==> k >= 3)
    && (k >= 3 ==> Holds(s, TCB_SLOT, Tcb(s.root.childTcb)))
  }

  predicate Built(s: System, phase: Phase) {
    && s.root.state == Constructed && s.root.childTcb != CAP_NULL && s.root.childPrepared
    && s.child == Child(s.root.childTcb, phase)
  }

  predicate Leased(s: System, phase: Phase, told: nat) {
    && Built(s, phase) && s.root.leaseGranted && Holds(s, TCB_SLOT, Tcb(s.root.childTcb))
    && told <= 7 && s.events == Success(s.root.childTcb)[..told]
    && !s.loop.Serving?
  }

  /** The construction failed: no capability was delivered and the child, if there
      is one, has not run. */
  predicate Failed(s: System) {
    && s.root.state == Rejected && TCB_SLOT !in s.slots && s.events == ConstructionFails()
    && (s.child.Child? ==> s.child.phase.Suspended?) && !s.loop.Serving?
  }

  /** The kernel refused to resume the child, which never ran. */
  predicate NeverResumed(s: System) {
    && Built(s, Suspended) && Holds(s, TCB_SLOT, Tcb(s.root.childTcb))
    && !s.loop.Serving? && s.events == ResumeFails(s.root.childTcb)
  }

  /** How much of a story is told once the child has reached a phase. */
  function Told(phase: Phase): nat {
    match phase
    case Suspended => 4
    case Ready => 5
    case Sending => 6
    case Sent => 7
  }

  predicate Invariant(s: System) {
    && Settled(s.root)
    && Holds(s, TASKD_REQUEST_SLOT, RequestEndpoint) && Holds(s, TASKD_COMPLETION_SLOT, CompletionEndpoint)
    && match s.client
       case Calling(k) => CallsBegun(s, k) && !s.loop.Serving? && (k == 0 ==> s.loop.Idle?)
       case Waiting(k) => CallsBegun(s, k) && s.loop == Serving(Request(k))
       case Resuming => Leased(s, Suspended, 4)
       case Announcing => s.child.Child? && s.child.phase in {Ready, Sending}
         && Leased(s, s.child.phase, Told(s.child.phase))
       case Receiving => s.child.Child? && s.child.phase in {Ready, Sending}
         && Leased(s, s.child.phase, Told(s.child.phase))
       case Validated => Leased(s, Sent, 7)
       case Parked => Failed(s) || NeverResumed(s)
  }

  lemma ServeKeeps(s: System, o: Outcome)
    requires Invariant(s) && Enabled(s, Serve(o))
    ensures Invariant(Served(s, o))
    ensures s.client.k == 0 ==>
              if Succeeds(o) then Served(s, o).client == Calling(1) && Served(s, o).root.childTcb == o.tcb
                                else Failed(Served(s, o)) && Served(s, o).client == Parked
    ensures s.client.k > 0 ==> !Served(s, o).client.Parked? && Served(s, o).root.childTcb == s.root.childTcb
  {
    var k, t := s.client.k, Served(s, o);
    var story := Success(t.root.childTcb);
    if k > 0 {
      assert story[..k] + [story[k]] == story[..k + 1];
    }
  }

  /** Every step of any of the three keeps the invariant. */
  lemma StepKeeps(s: System, a: Action)
    requires Invariant(s) && Enabled(s, a)
    ensures Invariant(Next(s, a))
  {
    var story := Success(s.root.childTcb);
    match a
    case Serve(o) => ServeKeeps(s, o);
    case Resume(_) => assert story[..4] + [story[4]] == story[..5];
    case Enter => assert story[..5] + [story[5]] == story[..6];
    case Deliver => assert story[..6] + [story[6]] == story[..7];
    case _ =>
  }

  /** Only these states have nothing left to do: there is no deadlock on the way. */
  lemma StuckIffFinished(s: System)
    requires Invariant(s)
    ensures Stuck(s) <==> s.loop.Idle? && (s.client.Parked? || s.client.Validated?)
  {
    if !(s.loop.Idle? && (s.client.Parked? || s.client.Validated?)) {
      var a := match s.client
        case Calling(_) => if s.loop.Idle? then Call else Return
        case Waiting(_) => Serve(Outcome(true, 0, true, 1))
        case Resuming => Resume(true)
        case Announcing => Announce
        case Receiving => if s.child.phase.Ready? then Enter else Deliver
        case _ => Return;
      assert Enabled(s, a);
    }
  }

  // ---------------------------------------------------------------- termination

  function Remaining(s: System): nat {
    (match s.client
     case Calling(k) => if k < CALLS then 3 * (CALLS - k) + 4 else 0
     case Waiting(k) => if k < CALLS then 3 * (CALLS - k) + 3 else 0
     case Resuming => 4
     case Announcing => 1
     case _ => 0)
    + (if s.loop.Replied? then 1 else 0)
    + (if s.child.Child? && s.child.phase.Ready? then 2 else if s.child.Child? && s.child.phase.Sending? then 1 else 0)
  }

  /** Every step uses up some of what remains, and exactly one unit of it unless the
      client gives up. */
  lemma StepProgresses(s: System, a: Action)
    requires Invariant(s) && Enabled(s, a)
    ensures Remaining(Next(s, a)) < Remaining(s)
    ensures !Next(s, a).client.Parked? ==> Remaining(Next(s, a)) == Remaining(s) - 1
  {
    if a.Serve? {
      ServeKeeps(s, a.outcome);
    }
  }

  lemma {:induction false} RunProgresses(s: System, schedule: seq<Action>)
    requires Invariant(s) && Possible(s, schedule)
    ensures Invariant(Run(s, schedule))
    ensures |schedule| + Remaining(Run(s, schedule)) <= Remaining(s)
    ensures !Run(s, schedule).client.Parked? ==> |schedule| + Remaining(Run(s, schedule)) == Remaining(s)
    decreases |schedule|
  {
    if schedule != [] {
      var a := schedule[0];
      StepKeeps(s, a);
      StepProgresses(s, a);
      RunProgresses(Next(s, a), schedule[1..]);
      if Next(s, a).client.Parked? {
        StaysParked(Next(s, a), schedule[1..]);
      }
    }
  }

  lemma {:induction false} StaysParked(s: System, schedule: seq<Action>)
    requires Invariant(s) && Possible(s, schedule) && s.client.Parked?
    ensures Run(s, schedule).client.Parked?
    ensures Run(s, schedule).events == s.events
    decreases |schedule|
  {
    if schedule != [] {
      StepKeeps(s, schedule[0]);
      StaysParked(Next(s, schedule[0]), schedule[1..]);
    }
  }

  // ---------------------------------------------------------------- main results

  /** Every interleaving ends: it has at most sixteen steps, and a run that is not
      over can always go on. */
  lemma RunsEnd(schedule: seq<Action>)
    requires Possible(Init(), schedule)
    ensures |schedule| <= 16
    ensures !Stuck(Run(Init(), schedule)) ==> exists a :: Possible(Init(), schedule + [a])
    ensures Stuck(Run(Init(), schedule)) && Run(Init(), schedule).client.Validated? ==> |schedule| == 16
  {
    RunProgresses(Init(), schedule);
    var s := Run(Init(), schedule);
    StuckIffFinished(s);
    if !Stuck(s) {
      var a :| Enabled(s, a);
      PossibleAppend(Init(), schedule, a);
    }
  }

  lemma {:induction false} PossibleAppend(s: System, schedule: seq<Action>, a: Action)
    requires Possible(s, schedule) && Enabled(Run(s, schedule), a)
    ensures Possible(s, schedule + [a])
    decreases |schedule|
  {
    if schedule != [] {
      PossibleAppend(Next(s, schedule[0]), schedule[1..], a);
      assert (schedule + [a])[1..] == schedule[1..] + [a];
    }
  }

  /** In every interleaving a finished run tells one of three stories.  When every
      resume is accepted it is the success story exactly if the one construction
      succeeded, and then it is about the thread that construction named. */
  lemma EveryRun(schedule: seq<Action>)
    requires Possible(Init(), schedule) && Stuck(Run(Init(), schedule))
    ensures |schedule| >= 2 && schedule[0].Call? && schedule[1].Serve?
    ensures var s, o := Run(Init(), schedule), schedule[1].outcome;
            if !Succeeds(o) then
              s.client.Parked? && s.events == ConstructionFails() && TCB_SLOT !in s.slots
              && (s.child.Child? ==> s.child.phase.Suspended?)
            else if Resume(false) in schedule then
              s.client.Parked? && s.events == ResumeFails(o.tcb) && s.child == Child(o.tcb, Suspended)
            else
              s.client.Validated? && s.events == Success(o.tcb) && s.child == Child(o.tcb, Sent)
              && Holds(s, TCB_SLOT, Tcb(o.tcb))
  {
    RunProgresses(Init(), schedule);
    StuckIffFinished(Run(Init(), schedule));
    FirstTwo(schedule);
    var one := Next(Init(), Call);
    var two := Next(one, schedule[1]);
    StepKeeps(Init(), Call);
    ServeKeeps(one, schedule[1].outcome);
    assert schedule[1..][1..] == schedule[2..];
    if Succeeds(schedule[1].outcome) {
      Afterwards(two, schedule[2..]);
      assert Resume(false) in schedule <==> Resume(false) in schedule[2..] by {
        assert schedule == [schedule[0], schedule[1]] + schedule[2..];
      }
    } else {
      FailureStays(two, schedule[2..]);
    }
  }

  lemma FirstTwo(schedule: seq<Action>)
    requires Possible(Init(), schedule) && Run(Init(), schedule).client in {Parked, Validated}
    ensures |schedule| >= 2 && schedule[0].Call? && schedule[1].Serve?
    ensures Possible(Next(Next(Init(), Call), schedule[1]), schedule[2..])
    ensures Run(Init(), schedule) == Run(Next(Next(Init(), Call), schedule[1]), schedule[2..])
  {
    assert schedule != [];
    assert schedule[0].Call?;
    var one := Next(Init(), Call);
    var rest := schedule[1..];
    assert Possible(one, rest) && rest != [];
    assert rest[0].Serve?;
    assert rest[1..] == schedule[2..];
  }

  lemma {:induction false} FailureStays(s: System, schedule: seq<Action>)
    requires Invariant(s) && Possible(s, schedule) && s.client.Parked? && Failed(s)
    ensures Failed(Run(s, schedule)) && Run(s, schedule).client.Parked?
    decreases |schedule|
  {
    if schedule != [] {
      StepKeeps(s, schedule[0]);
      FailureStays(Next(s, schedule[0]), schedule[1..]);
    }
  }

  /** After a successful construction the child's thread stays the same, and the
      client gives up exactly when a resume is refused. */
  lemma {:induction false} Afterwards(s: System, schedule: seq<Action>)
    requires Invariant(s) && Possible(s, schedule)
    requires Past(s)
    ensures var t := Run(s, schedule);
            && Past(t) && t.root.childTcb == s.root.childTcb
            && (t.client.Parked? <==> s.client.Parked? || Resume(false) in schedule)
    decreases |schedule|
  {
    if schedule != [] {
      var a := schedule[0];
      StepKeeps(s, a);
      if a.Serve? {
        ServeKeeps(s, a.outcome);
      }
      Afterwards(Next(s, a), schedule[1..]);
      assert Resume(false) in schedule <==> a == Resume(false) || Resume(false) in schedule[1..] by {
        assert schedule == [a] + schedule[1..];
      }
    }
  }

  /** The construction has succeeded. */
  predicate Past(s: System) {
    && s.root.state == Constructed
    && (s.client.Calling? || s.client.Waiting? ==> s.client.k > 0)
    && (s.client.Parked? ==> NeverResumed(s))
  }

  /** Safety at every moment of every run: no event happens twice; the only reply
      with a capability is the third and names the constructed thread; the client
      holds that capability only afterwards; and a thread runs or completes only
      after that capability resumed it. */
  lemma AlwaysSafe(schedule: seq<Action>)
    requires Possible(Init(), schedule)
    ensures var s := Run(Init(), schedule);
            && Safe(s.events, s.root.childTcb)
            && (TCB_SLOT in s.slots ==> s.root.state == Constructed && |s.events| >= 3
                                        && s.events[2] == Answered(Lease(s.root.childTcb))
                                        && s.slots[TCB_SLOT] == Tcb(s.root.childTcb))
            && (s.child.Child? && !s.child.phase.Suspended? ==> |s.events| >= 5 && s.events[4] == Resumed(s.child.tcb))
  {
    hide Possible, Run, Safe;
    RunProgresses(Init(), schedule);
    var s := Run(Init(), schedule);
    var t := s.root.childTcb;
    if s.client.Parked? {
      StoryIsSafe(t, 4);
      RefusalIsSafe(t);
    } else {
      StoryIsSafe(t, if s.client.Calling? || s.client.Waiting? then s.client.k else Told(s.child.phase));
    }
  }

  lemma StoryIsSafe(t: nat, n: nat)
    requires n <= 7
    ensures Safe(Success(t)[..n], t)
  {
  }

  lemma RefusalIsSafe(t: nat)
    ensures Safe(ResumeFails(t), t) && Safe(ConstructionFails(), t)
  {
    StoryIsSafe(t, 4);
  }

  predicate Safe(events: seq<Event>, tcb: nat) {
    && (forall i, j :: 0 <= i < j < |events| ==> events[i] != events[j])
    && (forall i :: 0 <= i < |events| && events[i].Answered? && events[i].reply.extraCaps != 0 ==>
          i == 2 && events[i] == Answered(Lease(tcb)))
    && (forall i :: 0 <= i < |events| && events[i].Resumed? ==> i == 4 && events[i].tcb == tcb)
    && (forall i :: 0 <= i < |events| && events[i].Ran? ==> i == 5 && events[i].tcb == tcb && events[4] == Resumed(tcb))
    && (forall i :: 0 <= i < |events| && events[i].Completed? ==> i == 6 && events[5] == Ran(tcb))
  }

  // ---------------------------------------------------------------- the client's own code

  /** One kernel operation of the client and what came back. */
  datatype Deed = Called(request: Message, capSlot: Option<nat>, answer: Message) | Tried(slot: nat, accepted: bool)
    | Took(message: Message)

  /** Where these operations lead the client of the step system; None if it would
      not have performed them. */
  function Position(deeds: seq<Deed>): Option<Client> {
    if deeds == [] then Some(Calling(0))
    else
      match (Position(deeds[..|deeds| - 1]), deeds[|deeds| - 1])
      case (Some(Calling(k)), Called(request, capSlot, answer)) =>
        if request == Request(k) && capSlot == ReceiveSlot(k) then Some(AfterAnswer(k, answer)) else None
      case (Some(Resuming), Tried(slot, accepted)) =>
        if slot == TCB_SLOT then Some(if accepted then Receiving else Parked) else None
      case (Some(Receiving), Took(m)) => Some(AfterCompletion(m))
      case _ => None
  }

  /** Only the lease calls name a slot for a capability. */
  function ReceiveSlot(k: nat): Option<nat> {
    if k < 2 then None else Some(TCB_SLOT)
  }

  /** The client validates exactly after four answers as expected, one accepted
      resume and one exact completion, in this order. */
  lemma ValidatedExactly(deeds: seq<Deed>)
    ensures Position(deeds) == Some(Validated) <==>
            && |deeds| == 6 && deeds[4] == Tried(TCB_SLOT, true)
            && (forall k :: 0 <= k < CALLS ==>
                  deeds[k].Called? && deeds[k].request == Request(k) && deeds[k].capSlot == ReceiveSlot(k)
                  && Expects(k, deeds[k].answer))
            && deeds[5].Took? && Exact(deeds[5].message, CHILD_DONE)
  {
    PositionAt(deeds);
  }

  /** Each position is reached in one way. */
  lemma {:induction false} PositionAt(deeds: seq<Deed>)
    ensures forall k: nat :: Position(deeds) == Some(Calling(k)) ==> k < CALLS && k == |deeds|
    ensures Position(deeds) == Some(Resuming) <==> |deeds| == CALLS && Answered4(deeds)
    ensures |deeds| < CALLS ==> (Position(deeds) == Some(Calling(|deeds|)) <==> Answered4(deeds))
    ensures Position(deeds) == Some(Receiving) <==>
              |deeds| == 5 && Answered4(deeds) && deeds[4] == Tried(TCB_SLOT, true)
    ensures Position(deeds) == Some(Validated) <==>
            |deeds| == 6 && Answered4(deeds) && deeds[4] == Tried(TCB_SLOT, true) && deeds[5].Took?
            && Exact(deeds[5].message, CHILD_DONE)
  {
    if deeds != [] {
      PositionAt(deeds[..|deeds| - 1]);
    }
  }

  predicate Answered4(deeds: seq<Deed>) {
    forall k :: 0 <= k < CALLS && k < |deeds| ==>
      deeds[k].Called? && deeds[k].request == Request(k) && deeds[k].capSlot == ReceiveSlot(k)
      && Expects(k, deeds[k].answer)
  }

  /** The client process, against a kernel that answers anything. */
  class ClientProcess {
    var deeds: seq<Deed>

    constructor ()
      ensures deeds == []
    {
      deeds := [];
    }

    method CallRoot(k: nat) returns (ok: bool)
      requires Position(deeds) == Some(Calling(k)) && k < CALLS
      modifies this
      ensures |deeds| == |old(deeds)| + 1 && deeds[..|old(deeds)|] == old(deeds)
      ensures Position(deeds) == Some(if !ok then Parked else if k + 1 < CALLS then Calling(k + 1) else Resuming)
    {
      var answer: Message := *;
      deeds := deeds + [Called(Request(k), ReceiveSlot(k), answer)];
      ok := answer.tag == 0 && answer.length == WORDS && answer.extraCaps == Expected(k).1
            && answer.mr0 == Expected(k).0 && answer.mr1 == SLOT && answer.mr2 == GENERATION;
    }

    method ResumeChild() returns (ok: bool)
      requires Position(deeds) == Some(Resuming)
      modifies this
      ensures |deeds| == |old(deeds)| + 1 && deeds[..|old(deeds)|] == old(deeds)
      ensures Position(deeds) == Some(if ok then Receiving else Parked)
    {
      ok := *;
      deeds := deeds + [Tried(TCB_SLOT, ok)];
    }

    method ReceiveCompletion() returns (ok: bool)
      requires Position(deeds) == Some(Receiving)
      modifies this
      ensures |deeds| == |old(deeds)| + 1 && deeds[..|old(deeds)|] == old(deeds)
      ensures Position(deeds) == Some(if ok then Validated else Parked)
    {
      var m: Message := *;
      deeds := deeds + [Took(m)];
      ok := Exact(m, CHILD_DONE);
    }

    /** `main`, up to its yielding loops: whatever is answered, the process follows
        the client of the step system to one of its two ends. */
    method Run() returns (validated: bool)
      requires deeds == []
      modifies this
      ensures Position(deeds) == Some(if validated then Validated else Parked)
    {
      var ok := CallRoot(0);
      if ok {
        ok := CallRoot(1);
      }
      if ok {
        ok := CallRoot(2);
      }
      if ok {
        ok := CallRoot(3);
      }
      if !ok {
        return false;
      }
      var resumed := ResumeChild();
      if !resumed {
        return false;
      }
      validated := ReceiveCompletion();
    }
  }

  // ---------------------------------------------------------------- root's own code in the system

  /** Root's dispatch loop, as written, takes exactly root's part in a schedule. */
  method Execute(root: Root, schedule: seq<Action>) returns (s: System)
    requires root.Valid() && root.View() == Init().root && Possible(Init(), schedule)
    modifies root
    ensures root.Valid() && s == Run(Init(), schedule) && root.View() == s.root
  {
    s := Init();
    var i := 0;
    while i < |schedule|
      invariant 0 <= i <= |schedule|
      invariant Possible(s, schedule[i..]) && Run(Init(), schedule) == Run(s, schedule[i..])
      invariant root.Valid() && root.View() == s.root
    {
      var a := schedule[i];
      assert schedule[i..][1..] == schedule[i + 1..];
      if a.Serve? {
        var reply := root.Dispatch(s.loop.message, a.outcome);
      }
      s := Next(s, a);
      i := i + 1;
    }
    assert schedule[i..] == [];
  }
}
