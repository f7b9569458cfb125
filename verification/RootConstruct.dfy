/** Root's construction state machine and one-shot lease
    (src/root_construct_m1.c, root_construct_m2.c, root_construct_m4.c), in the
    configuration where all three are built in. */
module RootConstruct {
  import opened Bits

  const M1_REQUEST: U64 := 0x52434d3152455154
  const M1_CONSTRUCTED: U64 := 0x52434d31434e5354
  const M1_REJECTED: U64 := 0x52434d3152454a43
  const M2_LEASE_TCB: U64 := 0x52434d324c454153
  const M2_GRANTED: U64 := 0x52434d324752414e
  const M2_REJECTED: U64 := 0x52434d3252454a43
  const SLOT: U64 := 1
  const GENERATION: U64 := 1
  const WORDS: U64 := 3
  const TASKD_REQUEST_SLOT: nat := 8
  const TASKD_COMPLETION_SLOT: nat := 9
  const CHILD_COMPLETION_SLOT: nat := 8
  const CAP_NULL: nat := 0

  datatype Message = Message(badge: U64, tag: U64, length: U64, extraCaps: U64, mr0: U64, mr1: U64, mr2: U64)

  /** A reply: three words, and a capability when one is sent along. */
  datatype Reply = Reply(status: U64, slot: U64, generation: U64, extraCaps: U64, cap: nat)

  datatype Construction = Free | Constructing | Constructed | Rejected

  /** What the process library answers during one construction. */
  datatype Outcome = Outcome(configured: bool, completionSlot: nat, spawned: bool, tcb: nat)

  /** Root's static variables. */
  datatype RootState =
    RootState(state: Construction, childTcb: nat, leaseGranted: bool,
         endpointAllocated: bool, taskdPrepared: bool, childPrepared: bool)

  predicate Exact(m: Message, word: U64) {
    && m.badge == 0 && m.tag == 0 && m.length == WORDS && m.extraCaps == 0
    && m.mr0 == word && m.mr1 == SLOT && m.mr2 == GENERATION
  }

  /** The lease dispatcher takes every message whose first word is its own. */
  predicate IsLease(m: Message) {
    m.length != 0 && m.mr0 == M2_LEASE_TCB
  }

  /** A construction succeeds when every step of it does. */
  predicate Succeeds(o: Outcome) {
    o.configured && o.completionSlot == CHILD_COMPLETION_SLOT && o.spawned && o.tcb != CAP_NULL
  }

  /** The child exists, suspended, once it has been spawned. */
  predicate Spawns(o: Outcome) {
    o.configured && o.completionSlot == CHILD_COMPLETION_SLOT && o.spawned
  }

  function Plain(status: U64): Reply {
    Reply(status, SLOT, GENERATION, 0, CAP_NULL)
  }

  /** One turn of the dispatch loop, as its meaning: who answers, what, and what
      becomes of the construction and the lease. */
  function After(v: RootState, m: Message, o: Outcome): RootState {
    if IsLease(m) then
      if Exact(m, M2_LEASE_TCB) && v.childTcb != CAP_NULL && !v.leaseGranted then v.(leaseGranted := true) else v
    else if Attempts(v, m) then
      v.(state := if Succeeds(o) then Constructed else Rejected,
         childTcb := if Succeeds(o) then o.tcb else CAP_NULL,
         childPrepared := o.configured && o.completionSlot == CHILD_COMPLETION_SLOT)
    else v.(state := if v.state == Constructed then Constructed else Rejected)
  }

  predicate Attempts(v: RootState, m: Message) {
    !IsLease(m) && Exact(m, M1_REQUEST) && v.state == Free
  }

  function Answer(v: RootState, m: Message, o: Outcome): Reply {
    if IsLease(m) then
      if Exact(m, M2_LEASE_TCB) && v.childTcb != CAP_NULL && !v.leaseGranted then
        Reply(M2_GRANTED, SLOT, GENERATION, 1, v.childTcb)
      else Plain(M2_REJECTED)
    else if Attempts(v, m) && Succeeds(o) then Plain(M1_CONSTRUCTED)
    else Plain(M1_REJECTED)
  }

  /** What holds whenever root waits for a message. */
  predicate Settled(v: RootState) {
    && v.state != Constructing
    && (v.childTcb != CAP_NULL <==> v.state == Constructed)
    && (v.leaseGranted ==> v.state == Constructed)
    && (v.state == Free ==> v.endpointAllocated && v.taskdPrepared && !v.childPrepared)
  }

  class Root {
    var state: Construction
    var childTcb: nat
    var leaseGranted: bool
    var endpointAllocated: bool
    var taskdPrepared: bool
    var childPrepared: bool
    var requestEndpoint: nat

    function View(): RootState
      reads this
    {
      RootState(state, childTcb, leaseGranted, endpointAllocated, taskdPrepared, childPrepared)
    }

    /** Before the bundle starts there is no child and no request is served. */
    predicate Valid()
      reads this
    {
      && Settled(View())
      && (requestEndpoint == CAP_NULL ==> state == Rejected && childTcb == CAP_NULL && !childPrepared)
    }

    constructor ()
      ensures Valid()
      ensures View() == RootState(Rejected, CAP_NULL, false, false, false, false)
      ensures requestEndpoint == CAP_NULL
    {
      state, childTcb, leaseGranted := Rejected, CAP_NULL, false;
      endpointAllocated, taskdPrepared, childPrepared := false, false, false;
      requestEndpoint := CAP_NULL;
    }

    /** `selinos_root_construct_m4_prepare_taskd`. */
    method PrepareTaskd(obtained: bool, slot: nat) returns (ok: bool)
      modifies `endpointAllocated, `taskdPrepared
      ensures ok <==> !old(taskdPrepared) && obtained && slot == TASKD_COMPLETION_SLOT
      ensures taskdPrepared == (old(taskdPrepared) || ok)
      ensures endpointAllocated == (old(endpointAllocated) || (!old(taskdPrepared) && obtained))
    {
      if taskdPrepared || !obtained {
        return false;
      }
      endpointAllocated := true;
      if slot != TASKD_COMPLETION_SLOT {
        return false;
      }
      taskdPrepared := true;
      return true;
    }

    /** `selinos_root_construct_m4_prepare_child`. */
    method PrepareChild(slot: nat) returns (ok: bool)
      modifies `childPrepared
      ensures ok <==> endpointAllocated && taskdPrepared && !old(childPrepared) && slot == CHILD_COMPLETION_SLOT
      ensures childPrepared == (old(childPrepared) || ok)
    {
      if !endpointAllocated || !taskdPrepared || childPrepared {
        return false;
      }
      if slot != CHILD_COMPLETION_SLOT {
        return false;
      }
      childPrepared := true;
      return true;
    }

    /** `selinos_root_construct_m2_record_child_tcb`. */
    method RecordChildTcb(tcb: nat) returns (ok: bool)
      modifies `childTcb
      ensures ok <==> tcb != CAP_NULL && old(childTcb) == CAP_NULL && !leaseGranted
      ensures childTcb == if ok then tcb else old(childTcb)
    {
      if tcb == CAP_NULL || childTcb != CAP_NULL || leaseGranted {
        return false;
      }
      childTcb := tcb;
      return true;
    }

    /** `construct_root_fixed_child_m1`; it stops at the first step that fails. */
    method ConstructChild(o: Outcome) returns (ok: bool)
      modifies `childPrepared, `childTcb
      ensures var prepared := o.configured && endpointAllocated && taskdPrepared && !old(childPrepared)
                              && o.completionSlot == CHILD_COMPLETION_SLOT;
              && (ok <==> prepared && o.spawned && o.tcb != CAP_NULL && old(childTcb) == CAP_NULL && !leaseGranted)
              && childPrepared == (old(childPrepared) || prepared)
      ensures childTcb == if ok then o.tcb else old(childTcb)
    {
      if !o.configured {
        return false;
      }
      var prepared := PrepareChild(o.completionSlot);
      if !prepared {
        return false;
      }
      if !o.spawned {
        return false;
      }
      ok := RecordChildTcb(o.tcb);
    }

    /** `selinos_root_construct_m2_try_dispatch`; no reply means it is not for it. */
    method TryDispatchLease(m: Message) returns (reply: Option<Reply>)
      modifies `leaseGranted
      ensures reply.Some? <==> IsLease(m)
      ensures reply.Some? ==> reply.value == (if Exact(m, M2_LEASE_TCB) && childTcb != CAP_NULL && !old(leaseGranted)
                                              then Reply(M2_GRANTED, SLOT, GENERATION, 1, childTcb)
                                              else Plain(M2_REJECTED))
      ensures leaseGranted == (old(leaseGranted) || (IsLease(m) && Exact(m, M2_LEASE_TCB) && childTcb != CAP_NULL))
    {
      if m.length == 0 || m.mr0 != M2_LEASE_TCB {
        return None;
      }
      var exact := m.badge == 0 && m.tag == 0 && m.length == WORDS && m.extraCaps == 0
                   && m.mr1 == SLOT && m.mr2 == GENERATION;
      if !exact || childTcb == CAP_NULL || leaseGranted {
        return Some(Plain(M2_REJECTED));
      }
      leaseGranted := true;
      return Some(Reply(M2_GRANTED, SLOT, GENERATION, 1, childTcb));
    }

    /** One turn of the dispatch loop. */
    method Dispatch(m: Message, o: Outcome) returns (reply: Reply)
      requires Valid()
      modifies this
      ensures Valid()
      ensures View() == After(old(View()), m, o)
      ensures reply == Answer(old(View()), m, o)
      ensures requestEndpoint == old(requestEndpoint)
    {
      var lease := TryDispatchLease(m);
      if lease.Some? {
        return lease.value;
      }
      if !Exact(m, M1_REQUEST) || state != Free {
        state := if state == Constructed then Constructed else Rejected;
        return Plain(M1_REJECTED);
      }
      state := Constructing;
      var built := ConstructChild(o);
      if !built {
        state := Rejected;
        return Plain(M1_REJECTED);
      }
      state := Constructed;
      return Plain(M1_CONSTRUCTED);
    }

    /** `selinos_root_construct_m1_start_bundle`; `configured` says that the
        process and the request endpoint were both obtained. It succeeds at most
        once, and once the completion endpoint is prepared no later call can. */
    method StartBundle(configured: bool, endpoint: nat, requestSlot: nat, completionObtained: bool, completionSlot: nat,
                       spawned: bool)
      returns (ok: bool)
      requires Valid() && endpoint != CAP_NULL
      modifies this
      ensures Valid()
      ensures ok <==> old(requestEndpoint) == CAP_NULL && !old(taskdPrepared) && configured
                      && requestSlot == TASKD_REQUEST_SLOT && completionObtained
                      && completionSlot == TASKD_COMPLETION_SLOT && spawned
      ensures ok ==> state == Free && requestEndpoint == endpoint && taskdPrepared && childTcb == CAP_NULL
      ensures !ok ==> state == old(state) && requestEndpoint == old(requestEndpoint)
      ensures old(taskdPrepared) ==> taskdPrepared
      ensures childTcb == old(childTcb) && leaseGranted == old(leaseGranted) && childPrepared == old(childPrepared)
    {
      if requestEndpoint != CAP_NULL || state != Rejected || !configured {
        return false;
      }
      if requestSlot != TASKD_REQUEST_SLOT {
        return false;
      }
      var prepared := PrepareTaskd(completionObtained, completionSlot);
      if !prepared {
        return false;
      }
      requestEndpoint := endpoint;
      state := Free;
      if !spawned {
        state := Rejected;
        requestEndpoint := CAP_NULL;
        return false;
      }
      return true;
    }
  }

  // ---------------------------------------------------------------- runs of the root endpoint

  datatype Turn = Turn(message: Message, outcome: Outcome)

  /** Root's variables after a run of messages, each with its library outcomes. */
  function AfterAll(v: RootState, ts: seq<Turn>): RootState {
    if ts == [] then v
    else After(AfterAll(v, ts[..|ts| - 1]), ts[|ts| - 1].message, ts[|ts| - 1].outcome)
  }

  /** The reply to turn i of a run. */
  function ReplyAt(v: RootState, ts: seq<Turn>, i: nat): Reply
    requires i < |ts|
  {
    Answer(AfterAll(v, ts[..i]), ts[i].message, ts[i].outcome)
  }

  /** Turn i of a run starts a construction. */
  predicate AttemptAt(v: RootState, ts: seq<Turn>, i: nat)
    requires i < |ts|
  {
    Attempts(AfterAll(v, ts[..i]), ts[i].message)
  }

  /** Once constructed or rejected, always so; and a granted lease stays granted. */
  lemma {:induction false} Absorbing(v: RootState, ts: seq<Turn>, i: nat, j: nat)
    requires Settled(v) && i <= j <= |ts|
    ensures var a, b := AfterAll(v, ts[..i]), AfterAll(v, ts[..j]);
            && Settled(a) && Settled(b)
            && (a.state == Constructed ==> b.state == Constructed && b.childTcb == a.childTcb)
            && (a.state == Rejected ==> b.state == Rejected)
            && (a.leaseGranted ==> b.leaseGranted)
    decreases j
  {
    if i < j {
      Absorbing(v, ts, i, j - 1);
      assert ts[..j][..j - 1] == ts[..j - 1];
    } else if j > 0 {
      Absorbing(v, ts, j - 1, j - 1);
      assert ts[..j][..j - 1] == ts[..j - 1];
    }
  }

  lemma TurnStep(v: RootState, ts: seq<Turn>, i: nat)
    requires i < |ts|
    ensures AfterAll(v, ts[..i + 1]) == After(AfterAll(v, ts[..i]), ts[i].message, ts[i].outcome)
  {
    assert ts[..i + 1][..i] == ts[..i];
  }

  /** For every run of messages there is at most one construction attempt. */
  lemma OneAttempt(v: RootState, ts: seq<Turn>, i: nat, j: nat)
    requires Settled(v) && i < j < |ts| && AttemptAt(v, ts, i)
    ensures !AttemptAt(v, ts, j)
  {
    TurnStep(v, ts, i);
    Absorbing(v, ts, i + 1, j);
  }

  /** At most one reply carries a capability, it is the child's TCB, and it comes
      after a successful construction. */
  lemma OneGrant(v: RootState, ts: seq<Turn>, i: nat)
    requires Settled(v) && v.state == Free && i < |ts| && ReplyAt(v, ts, i).extraCaps != 0
    ensures forall j :: 0 <= j < |ts| && j != i ==> ReplyAt(v, ts, j).extraCaps == 0
    ensures exists k :: 0 <= k < i && ReplyAt(v, ts, k) == Plain(M1_CONSTRUCTED)
              && ts[k].outcome.tcb == ReplyAt(v, ts, i).cap
    ensures ReplyAt(v, ts, i).cap != CAP_NULL
  {
    TurnStep(v, ts, i);
    Absorbing(v, ts, 0, i);
    forall j | 0 <= j < |ts| && j != i ensures ReplyAt(v, ts, j).extraCaps == 0 {
      TurnStep(v, ts, j);
      if j > i {
        Absorbing(v, ts, i + 1, j);
      } else {
        Absorbing(v, ts, j + 1, i);
      }
    }
    var k := ConstructedWhen(v, ts, i);
  }

  /** A constructed child was constructed at some turn, whose outcome named its TCB. */
  lemma {:induction false} ConstructedWhen(v: RootState, ts: seq<Turn>, i: nat) returns (k: nat)
    requires Settled(v) && v.state == Free && i <= |ts| && AfterAll(v, ts[..i]).state == Constructed
    ensures k < i && ReplyAt(v, ts, k) == Plain(M1_CONSTRUCTED)
    ensures ts[k].outcome.tcb == AfterAll(v, ts[..i]).childTcb
  {
    TurnStep(v, ts, i - 1);
    Absorbing(v, ts, 0, i - 1);
    if AfterAll(v, ts[..i - 1]).state == Constructed {
      k := ConstructedWhen(v, ts, i - 1);
    } else {
      k := i - 1;
    }
  }
}
