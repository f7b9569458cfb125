/** The file server's protocol in its numbers (include/selinos_romfs_protocol.h): which
    message words mean what, and what is answered, stated without the operations the
    server's model distinguishes. */
module RomProtocol {
  import opened Bits
  import opened RomServer

  // ---------------------------------------------------------------- the volatile word

  /** Open by number, or by the packed path "/selinos-state". */
  predicate OpensWord(m: Message) {
    && m.tag == 0
    && (|| (m.length == 2 && m.mr0 == 1 && m.mr1 == 3)
        || (m.length == 4 && m.mr0 == 4 && m.mr1 == 14 && m.mr2 == 0x2f73656c696e6f73 && m.mr3 == 0x2d73746174650000))
  }

  predicate ReadsWord(m: Message) {
    m.tag == 0 && m.length == 3 && m.mr0 == 2 && m.mr1 == 5 && m.mr2 == 0
  }

  predicate WritesWord(m: Message) {
    m.tag == 0 && m.length == 3 && m.mr0 == 5 && m.mr1 == 5
  }

  predicate ClosesWord(m: Message) {
    m.tag == 0 && m.length == 2 && m.mr0 == 3 && m.mr1 == 5
  }

  /** What each of them is to the server's model. */
  lemma WordOperations(archive: seq<U8>, m: Message)
    ensures OpensWord(m) <==> Classify(archive, m) == OpenVolatile
    ensures ReadsWord(m) <==> Classify(archive, m) == ReadVolatile
    ensures WritesWord(m) <==> Classify(archive, m).WriteVolatile?
    ensures WritesWord(m) ==> Classify(archive, m) == WriteVolatile(m.mr2)
    ensures ClosesWord(m) <==> Classify(archive, m) == CloseVolatile
  {
    hide OpenReply, ReadReply, FileById, FileByFd, FileByPath, Unpack;
  }

  /** Message j opened the word, and nothing since has opened or closed it. */
  ghost predicate OpenedAt(ms: seq<Message>, j: nat) {
    j < |ms| && OpensWord(ms[j]) && forall k :: j < k < |ms| ==> !OpensWord(ms[k]) && !ClosesWord(ms[k])
  }

  ghost predicate Outstanding(ms: seq<Message>) {
    exists j :: OpenedAt(ms, j)
  }

  /** `v` is the second argument of the last write since that open, or the boot word
      when there was none. */
  ghost predicate LastWord(ms: seq<Message>, v: U64) {
    exists j :: OpenedAt(ms, j) && WordSince(ms, j, v)
  }

  ghost predicate WordSince(ms: seq<Message>, j: nat, v: U64) {
    || (v == 0x424f4f544d302121 && forall k :: j < k < |ms| ==> !WritesWord(ms[k]))
    || exists w :: j < w && WrittenLast(ms, w, v)
  }

  ghost predicate WrittenLast(ms: seq<Message>, w: nat, v: U64) {
    w < |ms| && WritesWord(ms[w]) && ms[w].mr2 == v && forall k :: w < k < |ms| ==> !WritesWord(ms[k])
  }

  lemma SameHistory(archive: seq<U8>, ms: seq<Message>)
    ensures forall j: nat :: OpenedAt(ms, j) <==> OpenSince(archive, ms, j)
    ensures forall j: nat, v: U64 :: OpenedAt(ms, j) && WordSince(ms, j, v) <==> HoldsFrom(archive, ms, v, j)
  {
    hide Classify, OpensWord, WritesWord, ClosesWord, ReadsWord;
    forall m: Message
      ensures OpensWord(m) <==> Classify(archive, m) == OpenVolatile
      ensures WritesWord(m) <==> Classify(archive, m).WriteVolatile?
      ensures WritesWord(m) ==> Classify(archive, m) == WriteVolatile(m.mr2)
      ensures ClosesWord(m) <==> Classify(archive, m) == CloseVolatile
    {
      WordOperations(archive, m);
    }
    forall w: nat, v: U64 ensures WrittenLast(ms, w, v) <==> LastWrite(archive, ms, w, v) {
    }
  }

  /** The reply to a message after any run. */
  ghost function ReplyAfter(archive: seq<U8>, ms: seq<Message>, m: Message): Reply {
    Answer(AfterAll(archive, ms), Classify(archive, m))
  }

  /** Read after write: after any run a read of the word is answered with the last word
      written since the outstanding open, and refused when there is none. */
  lemma WordRead(archive: seq<U8>, ms: seq<Message>, m: Message)
    requires ReadsWord(m)
    ensures forall v: U64 :: ReplyAfter(archive, ms, m) == [0, 8, v] <==> LastWord(ms, v)
    ensures ReplyAfter(archive, ms, m) == [9, 0] <==> !Outstanding(ms)
  {
    WordOperations(archive, m);
    VolatileHistory(archive, ms);
    SameHistory(archive, ms);
    hide Classify, OpenedAt, WordSince, OpenSince, HoldsFrom, AfterAll;
    assert forall v: U64 :: LastWord(ms, v) <==> Holds(archive, ms, v);
    forall v: U64 ensures ReplyAfter(archive, ms, m) == [0, 8, v] <==> AfterAll(archive, ms) == Some(v) {
      if AfterAll(archive, ms).Some? {
        assert [0, 8, AfterAll(archive, ms).value][2] == AfterAll(archive, ms).value;
        assert [0, 8, v][2] == v;
      } else {
        assert |[9, 0]| == 2;
      }
    }
    if AfterAll(archive, ms).Some? {
      assert |[0, 8, AfterAll(archive, ms).value]| == 3;
    }
  }

  /** Opening always succeeds and starts over; writing and closing succeed exactly while
      an open is outstanding. */
  lemma WordChanged(archive: seq<U8>, ms: seq<Message>, m: Message)
    ensures OpensWord(m) ==> ReplyAfter(archive, ms, m) == [0, 5] && LastWord(ms + [m], 0x424f4f544d302121)
    ensures WritesWord(m) ==> ReplyAfter(archive, ms, m) == if Outstanding(ms) then [0, 8] else [9, 0]
    ensures WritesWord(m) && Outstanding(ms) ==> LastWord(ms + [m], m.mr2)
    ensures ClosesWord(m) ==> ReplyAfter(archive, ms, m) == if Outstanding(ms) then [0, 0] else [9, 0]
    ensures ClosesWord(m) ==> !Outstanding(ms + [m])
  {
    WordOperations(archive, m);
    VolatileHistory(archive, ms);
    VolatileHistory(archive, ms + [m]);
    SameHistory(archive, ms);
    SameHistory(archive, ms + [m]);
    assert (ms + [m])[..|ms|] == ms;
    hide Classify, OpenedAt, WordSince, OpenSince, HoldsFrom, OpensWord, WritesWord, ClosesWord;
    assert forall v: U64 :: LastWord(ms + [m], v) <==> Holds(archive, ms + [m], v);
  }

  // ---------------------------------------------------------------- everything else

  /** The answer to any message that is not about the word, once the archive has passed
      the start-up check. */
  function Table(m: Message): Reply {
    if m.tag != 0 || m.length == 0 then [22, 0]
    else if m.mr0 == 1 then
      if m.length != 2 then [2, 0]
      else if m.mr1 == 1 then [0, 3] else if m.mr1 == 2 then [0, 4] else if m.mr1 == 4 then [0, 6] else [2, 0]
    else if m.mr0 == 4 then
      if m.length != 4 || m.mr1 < 1 || m.mr1 > 16 then [2, 0]
      else
        var path := Unpack(m.mr1, m.mr2, m.mr3);
        if path == RELEASE_PATH then [0, 3] else if path == BANNER_PATH then [0, 4]
        else if path == VERSION_PATH then [0, 6] else [2, 0]
    else if m.mr0 == 2 then
      if m.length != 3 || m.mr2 != 0 then [9, 0]
      else if m.mr1 == 3 then [0, 18, 0x53454c494e4f5321]
      else if m.mr1 == 4 then [0, 8, 0x4350494f2d4f4b21]
      else if m.mr1 == 6 then [0, 8, 0x53454c494e4f5339]
      else [9, 0]
    else if m.mr0 == 5 then [9, 0]
    else if m.mr0 == 3 then
      if m.length == 2 && (m.mr1 == 3 || m.mr1 == 4 || m.mr1 == 6) then [0, 0] else [9, 0]
    else [22, 0]
  }

  lemma EverythingElse(archive: seq<U8>, ms: seq<Message>, m: Message)
    requires SelfChecked(archive)
    requires !OpensWord(m) && !ReadsWord(m) && !WritesWord(m) && !ClosesWord(m)
    ensures ReplyAfter(archive, ms, m) == Table(m)
    ensures AfterAll(archive, ms + [m]) == AfterAll(archive, ms)
  {
    hide Classify, Table, SelfChecked, OpensWord, ReadsWord, WritesWord, ClosesWord;
    AnsweredByTable(archive, m);
    AfterOne(archive, ms, m);
  }

  lemma AnsweredByTable(archive: seq<U8>, m: Message)
    requires SelfChecked(archive)
    requires !OpensWord(m) && !ReadsWord(m) && !WritesWord(m) && !ClosesWord(m)
    ensures Classify(archive, m) == Rom(Table(m))
  {
    hide SelfChecked, ReadReply, OpenReply, Unpack, FileByPath, Classify, Table;
    if m.tag != 0 || m.length == 0 || m.mr0 !in {1, 2, 3, 4} {
      OtherAnswer(archive, m);
    } else if m.mr0 == 1 {
      OpenAnswer(archive, m);
    } else if m.mr0 == 2 {
      ReadAnswer(archive, m);
    } else if m.mr0 == 3 {
      CloseAnswer(archive, m);
    } else {
      OpenPathAnswer(archive, m);
    }
  }

  lemma OtherAnswer(archive: seq<U8>, m: Message)
    requires m.tag != 0 || m.length == 0 || m.mr0 !in {1, 2, 3, 4}
    requires !WritesWord(m)
    ensures Classify(archive, m) == Rom(Table(m))
  {
    hide ReadReply, OpenReply, Unpack, FileByPath, FileById, FileByFd;
  }

  lemma OpenAnswer(archive: seq<U8>, m: Message)
    requires SelfChecked(archive) && m.tag == 0 && m.length >= 1 && m.mr0 == 1 && !OpensWord(m)
    ensures Classify(archive, m) == Rom(Table(m))
  {
    IdAnswer(archive, m.mr1);
    hide SelfChecked, ReadReply, OpenReply, Unpack, FileByPath, FileById, FileByFd;
  }

  lemma IdAnswer(archive: seq<U8>, id: U64)
    requires SelfChecked(archive)
    ensures OpenReply(archive, FileById(id)) ==
            if id == 1 then [0, 3] else if id == 2 then [0, 4] else if id == 4 then [0, 6] else [2, 0]
  {
    TableFilesAnswer(archive);
    hide SelfChecked, OpenReply;
  }

  lemma ReadAnswer(archive: seq<U8>, m: Message)
    requires SelfChecked(archive) && m.tag == 0 && m.length >= 1 && m.mr0 == 2 && !ReadsWord(m)
    ensures Classify(archive, m) == Rom(Table(m))
  {
    FdAnswer(archive, m.mr1);
    hide SelfChecked, ReadReply, OpenReply, Unpack, FileByPath, FileById, FileByFd;
  }

  lemma FdAnswer(archive: seq<U8>, fd: U64)
    requires SelfChecked(archive)
    ensures ReadReply(archive, FileByFd(fd)) ==
            if fd == 3 then [0, 18, 0x53454c494e4f5321] else if fd == 4 then [0, 8, 0x4350494f2d4f4b21]
            else if fd == 6 then [0, 8, 0x53454c494e4f5339] else [9, 0]
  {
    TableFilesAnswer(archive);
    hide SelfChecked, ReadReply;
  }

  lemma CloseAnswer(archive: seq<U8>, m: Message)
    requires m.tag == 0 && m.length >= 1 && m.mr0 == 3 && !ClosesWord(m)
    ensures Classify(archive, m) == Rom(Table(m))
  {
    hide ReadReply, OpenReply, Unpack, FileByPath, FileById;
  }

  lemma OpenPathAnswer(archive: seq<U8>, m: Message)
    requires SelfChecked(archive) && m.tag == 0 && m.length >= 1 && m.mr0 == 4 && !OpensWord(m)
    ensures Classify(archive, m) == Rom(Table(m))
  {
    if m.length == 4 && 1 <= m.mr1 <= 16 {
      PathAnswer(archive, Unpack(m.mr1, m.mr2, m.mr3));
    }
    hide SelfChecked, ReadReply, OpenReply, Unpack, FileByPath, FileById, FileByFd;
  }

  lemma PathAnswer(archive: seq<U8>, path: seq<U8>)
    requires SelfChecked(archive)
    ensures OpenReply(archive, FileByPath(path)) ==
            if path == RELEASE_PATH then [0, 3] else if path == BANNER_PATH then [0, 4]
            else if path == VERSION_PATH then [0, 6] else [2, 0]
  {
    TableFilesAnswer(archive);
    hide SelfChecked, OpenReply;
  }

  lemma AfterOne(archive: seq<U8>, ms: seq<Message>, m: Message)
    ensures AfterAll(archive, ms + [m]) == After(AfterAll(archive, ms), Classify(archive, m))
  {
    hide Classify;
    assert (ms + [m])[..|ms|] == ms;
  }

  lemma TableFilesAnswer(archive: seq<U8>)
    requires SelfChecked(archive)
    ensures OpenReply(archive, Some(RELEASE)) == [0, 3] && OpenReply(archive, Some(BANNER)) == [0, 4]
    ensures OpenReply(archive, Some(VERSION)) == [0, 6]
    ensures ReadReply(archive, Some(RELEASE)) == [0, 18, 0x53454c494e4f5321]
    ensures ReadReply(archive, Some(BANNER)) == [0, 8, 0x4350494f2d4f4b21]
    ensures ReadReply(archive, Some(VERSION)) == [0, 8, 0x53454c494e4f5339]
    ensures OpenReply(archive, None) == [2, 0] && ReadReply(archive, None) == [9, 0]
  {
    hide EntryOf, Payload;
    assert RELEASE in FILES && BANNER in FILES && VERSION in FILES;
    assert RELEASE != BANNER && RELEASE != VERSION && BANNER != VERSION;
    assert forall f :: f in FILES ==> |ReadReply(archive, Some(f))| == 3;
  }
}
