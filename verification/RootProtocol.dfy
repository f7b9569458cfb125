/** Root's construction and lease protocol in its numbers
    (include/selinos_root_construct_m1_protocol.h, _m2_protocol.h, _m4_protocol.h): what
    each message does to root, and what a whole run of messages decides, stated over
    message words. */
module RootProtocol {
  import opened Bits
  import opened RootConstruct
  import opened RootSystem

  /** The one request that is accepted: "RCM1REQT", slot 1, generation 1. */
  predicate ExactRequest(m: Message) {
    m == Message(0, 0, 3, 0, 0x52434d3152455154, 1, 1)
  }

  /** The one lease that is granted: "RCM2LEAS", slot 1, generation 1. */
  predicate ExactLease(m: Message) {
    m == Message(0, 0, 3, 0, 0x52434d324c454153, 1, 1)
  }

  /** A message the lease dispatcher takes, whatever its other words. */
  predicate ForLease(m: Message) {
    m.length != 0 && m.mr0 == 0x52434d324c454153
  }

  predicate Builds(o: Outcome) {
    o.configured && o.completionSlot == 8 && o.spawned && o.tcb != 0
  }

  const CONSTRUCTED_REPLY := Reply(0x52434d31434e5354, 1, 1, 0, 0)
  const REJECTED_REPLY := Reply(0x52434d3152454a43, 1, 1, 0, 0)
  const LEASE_REJECTED_REPLY := Reply(0x52434d3252454a43, 1, 1, 0, 0)

  // ---------------------------------------------------------------- one message

  /** A message that is not for the lease dispatcher and not the exact request is refused
      and, unless the child has been constructed, closes construction for good. */
  lemma FailsClosed(v: RootState, m: Message, o: Outcome)
    requires Settled(v) && !ForLease(m) && !ExactRequest(m)
    ensures Answer(v, m, o) == REJECTED_REPLY
    ensures After(v, m, o) == v.(state := if v.state == Constructed then Constructed else Rejected)
  {
  }

  /** The exact request builds in the free state, and fails closed like any other later. */
  lemma RequestDecides(v: RootState, m: Message, o: Outcome)
    requires Settled(v) && ExactRequest(m)
    ensures v.state == Free && Builds(o) ==>
              && Answer(v, m, o) == CONSTRUCTED_REPLY
              && After(v, m, o).state == Constructed && After(v, m, o).childTcb == o.tcb
    ensures v.state == Free && !Builds(o) ==>
              && Answer(v, m, o) == REJECTED_REPLY
              && After(v, m, o).state == Rejected && After(v, m, o).childTcb == 0
    ensures v.state == Free ==> After(v, m, o).leaseGranted == v.leaseGranted
    ensures v.state != Free ==> Answer(v, m, o) == REJECTED_REPLY && After(v, m, o) == v
  {
  }

  /** A message for the lease dispatcher never touches the construction; the exact one is
      granted once, after a construction, with the child's capability. */
  lemma LeaseDecides(v: RootState, m: Message, o: Outcome)
    requires Settled(v) && ForLease(m)
    ensures Answer(v, m, o) ==
            if ExactLease(m) && v.state == Constructed && !v.leaseGranted then
              Reply(0x52434d324752414e, 1, 1, 1, v.childTcb)
            else LEASE_REJECTED_REPLY
    ensures After(v, m, o) == v.(leaseGranted := v.leaseGranted || (ExactLease(m) && v.state == Constructed))
  {
  }

  // ---------------------------------------------------------------- runs of messages

  /** Turn k is the construction of a run: every message before it was for the lease
      dispatcher, and it is the exact request. */
  ghost predicate TriesAt(ts: seq<Turn>, k: nat) {
    k < |ts| && ExactRequest(ts[k].message) && forall j :: 0 <= j < k ==> ForLease(ts[j].message)
  }

  ghost predicate BuildsAt(ts: seq<Turn>, k: nat) {
    TriesAt(ts, k) && Builds(ts[k].outcome)
  }

  /** The lease is granted at turn i: the first exact lease after the construction. */
  ghost predicate GrantsAt(ts: seq<Turn>, k: nat, i: nat) {
    && BuildsAt(ts, k) && k < i < |ts| && ExactLease(ts[i].message)
    && forall j :: k < j < i ==> !ExactLease(ts[j].message)
  }

  /** Where the first i messages have brought a root that started free. */
  lemma {:induction false} StateAfter(v: RootState, ts: seq<Turn>, i: nat)
    requires Settled(v) && v.state == Free && i <= |ts|
    ensures var w := AfterAll(v, ts[..i]);
            && Settled(w)
            && (w.state == Free <==> forall j :: 0 <= j < i ==> ForLease(ts[j].message))
            && (w.state == Constructed <==> exists k: nat :: k < i && BuildsAt(ts, k))
            && (forall k: nat :: k < i && BuildsAt(ts, k) ==> w.childTcb == ts[k].outcome.tcb)
            && (w.leaseGranted <==> exists k: nat, j: nat :: k < j < i && BuildsAt(ts, k) && ExactLease(ts[j].message))
    decreases i
  {
    if i == 0 {
      assert ts[..0] == [];
    } else {
      StateAfter(v, ts, i - 1);
      var w, m, o := AfterAll(v, ts[..i - 1]), ts[i - 1].message, ts[i - 1].outcome;
      TurnStep(v, ts, i - 1);
      OneBuild(ts);
      hide After, AfterAll, Settled, ForLease, ExactRequest, ExactLease, Builds;
      WordsApart(m);
      StillSettled(w, m, o);
      SettledFacts(w);
      if ForLease(m) {
        LeaseDecides(w, m, o);
      } else if ExactRequest(m) {
        RequestDecides(w, m, o);
        assert w.state == Free <==> TriesAt(ts, i - 1);
        assert w.state == Free && Builds(o) <==> BuildsAt(ts, i - 1);
      } else {
        FailsClosed(w, m, o);
      }
      assert forall k: nat :: k < i && BuildsAt(ts, k) ==> k < i - 1 || k == i - 1;
    }
  }

  lemma WordsApart(m: Message)
    ensures !(ForLease(m) && ExactRequest(m)) && (ExactLease(m) ==> ForLease(m))
  {
  }

  lemma StillSettled(v: RootState, m: Message, o: Outcome)
    requires Settled(v)
    ensures Settled(After(v, m, o))
  {
  }

  lemma SettledFacts(v: RootState)
    requires Settled(v)
    ensures v.state != Constructing && (v.leaseGranted ==> v.state == Constructed)
  {
  }

  lemma OneBuild(ts: seq<Turn>)
    ensures forall k: nat, j: nat :: TriesAt(ts, k) && TriesAt(ts, j) ==> k == j
  {
    forall k: nat, j: nat | TriesAt(ts, k) && TriesAt(ts, j) ensures k == j {
      WordsApart(ts[k].message);
      WordsApart(ts[j].message);
    }
  }

  /** The first message that is not for the lease dispatcher decides: a construction is
      tried at a turn exactly if that is the exact request and all before it were for the
      lease dispatcher; and it is answered as constructed exactly if it also succeeds. */
  lemma FirstMessageDecides(v: RootState, ts: seq<Turn>, i: nat)
    requires Settled(v) && v.state == Free && i < |ts|
    ensures AttemptAt(v, ts, i) <==> TriesAt(ts, i)
    ensures ReplyAt(v, ts, i) == CONSTRUCTED_REPLY <==> BuildsAt(ts, i)
  {
    StateAfter(v, ts, i);
  }

  /** And a capability is sent at a turn exactly if that is the first exact lease after
      the construction; it is the one the construction yielded. */
  lemma FirstLeaseDecides(v: RootState, ts: seq<Turn>, i: nat)
    requires Settled(v) && v.state == Free && i < |ts|
    ensures ReplyAt(v, ts, i).extraCaps != 0 <==> exists k: nat :: GrantsAt(ts, k, i)
    ensures forall k: nat :: GrantsAt(ts, k, i) ==>
              ReplyAt(v, ts, i) == Reply(0x52434d324752414e, 1, 1, 1, ts[k].outcome.tcb)
  {
    StateAfter(v, ts, i);
    OneBuild(ts);
    var w, m, o := AfterAll(v, ts[..i]), ts[i].message, ts[i].outcome;
    hide AfterAll, Settled, After, ForLease, ExactRequest, ExactLease, Builds, TriesAt, Answer;
    WordsApart(m);
    if ForLease(m) {
      LeaseDecides(w, m, o);
    } else if ExactRequest(m) {
      RequestDecides(w, m, o);
    } else {
      FailsClosed(w, m, o);
    }
    if ReplyAt(v, ts, i).extraCaps != 0 {
      var k: nat :| k < i && BuildsAt(ts, k);
      assert GrantsAt(ts, k, i);
    }
  }

  // ---------------------------------------------------------------- the client and the child

  /** The client's four messages, the answers it wants, and the child's one message. */
  lemma ClientWords(k: nat, answer: Message)
    ensures Request(0) == Request(1) == Message(0, 0, 3, 0, 0x52434d3152455154, 1, 1)
    ensures Request(2) == Request(3) == Message(0, 0, 3, 0, 0x52434d324c454153, 1, 1)
    ensures k < 4 ==>
              (Expects(k, answer) <==>
                && answer.tag == 0 && answer.length == 3 && answer.mr1 == 1 && answer.mr2 == 1
                && answer.extraCaps == (if k == 2 then 1 else 0)
                && answer.mr0 == [0x52434d31434e5354, 0x52434d3152454a43, 0x52434d324752414e, 0x52434d3252454a43][k])
    ensures CompletionMessage() == Message(0, 0, 3, 0, 0x52434d34444f4e45, 1, 1)
    ensures AfterCompletion(answer) == if answer == CompletionMessage() then Validated else Parked
    ensures TASKD_REQUEST_SLOT == CHILD_COMPLETION_SLOT == 8 && TASKD_COMPLETION_SLOT == 9 && TCB_SLOT == 10
  {
  }

  /** The success story, word by word. */
  lemma SuccessWords(tcb: nat)
    ensures Success(tcb) ==
            [Answered(CONSTRUCTED_REPLY), Answered(REJECTED_REPLY), Answered(Reply(0x52434d324752414e, 1, 1, 1, tcb)),
             Answered(LEASE_REJECTED_REPLY), Resumed(tcb), Ran(tcb),
             Completed(Message(0, 0, 3, 0, 0x52434d34444f4e45, 1, 1))]
    ensures ConstructionFails() == [Answered(REJECTED_REPLY)]
    ensures ResumeFails(tcb) == Success(tcb)[..4] + [Refused]
  {
  }
}
