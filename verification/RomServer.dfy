/** The file server of servers/romfsd.c: the packed pathname decoder, the payload
    encoder, the start-up self check and the request loop. */
module RomServer {
  import opened Bits
  import opened Newc
  import NewcParser

  const PATH_MAX_BYTES: nat := 16
  const VOLATILE_INITIAL: U64 := 0x424f4f544d302121  // "BOOTM0!!"
  const VOLATILE_LENGTH: U64 := 8
  const FILE_VOLATILE: U64 := 3
  const FD_VOLATILE: U64 := 5

  const OP_OPEN: U64 := 1
  const OP_READ: U64 := 2
  const OP_CLOSE: U64 := 3
  const OP_OPEN_PATH: U64 := 4
  const OP_WRITE: U64 := 5

  const OK: U64 := 0
  const ENOENT: U64 := 2
  const EBADF: U64 := 9
  const EINVAL: U64 := 22

  datatype RomFile = RomFile(fileId: U64, fd: U64, pathname: seq<U8>, expected: U64, reported: U64)

  const RELEASE_PATH: seq<U8> :=
    [0x2f, 0x73, 0x65, 0x6c, 0x69, 0x6e, 0x6f, 0x73, 0x2d, 0x72, 0x65, 0x6c, 0x65, 0x61, 0x73, 0x65]
  const BANNER_PATH: seq<U8> :=
    [0x2f, 0x73, 0x65, 0x6c, 0x69, 0x6e, 0x6f, 0x73, 0x2d, 0x62, 0x61, 0x6e, 0x6e, 0x65, 0x72]
  const VERSION_PATH: seq<U8> :=
    [0x2f, 0x73, 0x65, 0x6c, 0x69, 0x6e, 0x6f, 0x73, 0x2d, 0x76, 0x65, 0x72, 0x73, 0x69, 0x6f, 0x6e]

  const RELEASE := RomFile(1, 3, RELEASE_PATH, 8, 18)
  const BANNER := RomFile(2, 4, BANNER_PATH, 8, 8)
  const VERSION := RomFile(4, 6, VERSION_PATH, 8, 8)
  const FILES: seq<RomFile> := [RELEASE, BANNER, VERSION]

  const RELEASE_MAGIC: U64 := 0x53454c494e4f5321  // "SELINOS!"
  const BANNER_MAGIC: U64 := 0x4350494f2d4f4b21   // "CPIO-OK!"
  const VERSION_MAGIC: U64 := 0x53454c494e4f5339  // "SELINOS9"

  // ---------------------------------------------------------------- words

  /** The number whose base-256 digits are `s`, most significant first. */
  function BigEndian(s: seq<U8>): nat {
    if s == [] then 0 else BigEndian(s[..|s| - 1]) * 256 + s[|s| - 1]
  }

  lemma {:induction false} BigEndianBound(s: seq<U8>)
    ensures BigEndian(s) < Pow2(8 * |s|)
  {
    if s != [] {
      BigEndianBound(s[..|s| - 1]);
      Pow2Values();
      Pow2Add(8, 8 * (|s| - 1));
    }
  }

  /** Byte i of the word packed from `s`, taken with a shift. */
  lemma {:induction false} BigEndianByte(s: seq<U8>, i: nat)
    requires i < |s|
    ensures BigEndian(s) / Pow2(8 * (|s| - 1 - i)) % 256 == s[i]
    decreases |s|
  {
    var init, last := s[..|s| - 1], s[|s| - 1];
    var high := BigEndian(init);
    if i < |init| {
      BigEndianByte(init, i);
      var p := Pow2(8 * (|init| - 1 - i));
      Pow2Values();
      Pow2Add(8, 8 * (|init| - 1 - i));
      ShiftOutByte(high, last, p);
    }
  }

  lemma ShiftOutByte(high: nat, last: U8, p: nat)
    requires p > 0
    ensures (high * 256 + last) / (256 * p) == high / p
  {
    var q, r := high / p, high % p;
    assert high * 256 + last == q * (256 * p) + (r * 256 + last) by {
      assert high == p * q + r;
      assert q * (256 * p) == 256 * (p * q);
    }
    DivModUnique(high * 256 + last, 256 * p, q, r * 256 + last);
  }

  /** For data of one length the payload word determines the data. */
  lemma {:induction false} BigEndianInjective(s: seq<U8>, t: seq<U8>)
    requires |s| == |t| && BigEndian(s) == BigEndian(t)
    ensures s == t
  {
    forall i | 0 <= i < |s| ensures s[i] == t[i] {
      BigEndianByte(s, i);
      BigEndianByte(t, i);
    }
  }

  /** One to eight bytes have a payload word. */
  function Payload(data: seq<U8>): (r: Option<U64>)
    ensures r.Some? <==> 1 <= |data| <= 8
    ensures r.Some? ==> r.value == BigEndian(data)
  {
    if 1 <= |data| <= 8 then
      BigEndianBound(data);
      Pow2Values();
      Pow2Monotone(8 * |data|, 64);
      Some(BigEndian(data))
    else
      None
  }

  method EntryPayloadWord(data: seq<U8>) returns (r: Option<U64>)
    ensures r == Payload(data)
  {
    if |data| == 0 || |data| > 8 {
      return None;
    }
    var value: U64 := 0;
    for index := 0 to |data|
      invariant value == BigEndian(data[..index])
    {
      assert data[..index + 1][..index] == data[..index];
      ShiftInByte(data[..index], data[index]);
      value := Or(value * 256 % WRAP64, data[index]);
    }
    assert data[..|data|] == data;
    return Some(value);
  }

  lemma ShiftInByte(s: seq<U8>, b: U8)
    requires |s| < 8
    ensures BigEndian(s) * 256 < WRAP64
    ensures Or(BigEndian(s) * 256 % WRAP64, b) == BigEndian(s) * 256 + b < WRAP64
  {
    hide Or, BigEndian, Pow2;
    BigEndianBound(s);
    Pow2Values();
    Pow2Monotone(8 * |s|, 56);
    Pow2Add(8, 56);
    OrShifted(BigEndian(s), 8, b);
  }

  // ---------------------------------------------------------------- packed paths

  /** `(unsigned char)(word >> shift)`, as the decoder picks byte `index`. */
  function UnpackByte(first: U64, second: U64, index: nat): U8
    requires index < PATH_MAX_BYTES
  {
    (if index < 8 then first else second) / Pow2((7 - index % 8) * 8) % 256
  }

  function Unpack(length: nat, first: U64, second: U64): (s: seq<U8>)
    requires length <= PATH_MAX_BYTES
    ensures |s| == length
  {
    seq(length, i requires 0 <= i < length => UnpackByte(first, second, i))
  }

  predicate Printable(s: seq<U8>) {
    forall i :: 0 <= i < |s| ==> 0x20 < s[i] <= 0x7e
  }

  /** A character of a table pathname, its terminator included. */
  function CharAt(s: seq<U8>, i: nat): U8
    requires i <= |s|
  {
    if i < |s| then s[i] else NUL
  }

  /** The character loop of the table search; it never reads past the
      terminator of the table's pathname. */
  method SamePath(name: seq<U8>, pathname: array<U8>, length: nat) returns (same: bool)
    requires length < pathname.Length && NulFree(name) && NulFree(pathname[..length])
    ensures same <==> name == pathname[..length]
  {
    var path := pathname[..length];
    var character := 0;
    while character < length && CharAt(name, character) == pathname[character]
      invariant 0 <= character <= length && character <= |name|
      invariant name[..character] == path[..character]
    {
      assert pathname[character] == path[character];
      character := character + 1;
    }
    assert character < length ==> pathname[character] == path[character];
    same := character == length && CharAt(name, character) == NUL;
    assert character == |name| ==> name == name[..character];
    assert character == length ==> path == path[..character];
  }

  method FileByPackedPath(length: U64, first: U64, second: U64) returns (r: Option<RomFile>)
    ensures r == Decoded(length, first, second)
  {
    FilesPrintable();
    hide Pow2, FileByPath;
    OneEntry(Unpack(if length <= PATH_MAX_BYTES then length else 0, first, second));
    if length == 0 || length > PATH_MAX_BYTES {
      return None;
    }
    var pathname := new U8[PATH_MAX_BYTES + 1];
    ghost var path := Unpack(length, first, second);
    for index := 0 to length
      invariant pathname[..index] == path[..index]
      invariant Printable(path[..index])
    {
      var word := if index < 8 then first else second;
      var shift := (8 - 1 - index % 8) * 8;
      var character: U8 := word / Pow2(shift) % 256;
      assert character == path[index];
      if character <= 0x20 || character > 0x7e {
        assert !Printable(path);
        return None;
      }
      pathname[index] := character;
    }
    assert pathname[..length] == path;
    pathname[length] := NUL;
    assert pathname[..length] == path;
    for index := 0 to |FILES|
      invariant forall k :: 0 <= k < index ==> FILES[k].pathname != path
      invariant pathname[..length] == path
    {
      assert NulFree(path);
      var same := SamePath(FILES[index].pathname, pathname, length);
      if same {
        return Some(FILES[index]);
      }
    }
    return None;
  }

  lemma FilesPrintable()
    ensures forall f :: f in FILES ==> Printable(f.pathname) && NulFree(f.pathname)
  {
  }

  /** Packing then unpacking: the sixteen bytes of the two words, most significant
      first, come back; the bytes after the path do not matter. */
  lemma UnpackPacked(buffer: seq<U8>, length: nat)
    requires |buffer| == PATH_MAX_BYTES && length <= PATH_MAX_BYTES
    ensures BigEndian(buffer[..8]) < WRAP64 && BigEndian(buffer[8..]) < WRAP64
    ensures Unpack(length, BigEndian(buffer[..8]), BigEndian(buffer[8..])) == buffer[..length]
  {
    hide BigEndian, Pow2, UnpackByte;
    Pow2Values();
    BigEndianBound(buffer[..8]);
    BigEndianBound(buffer[8..]);
    forall i | 0 <= i < length
      ensures UnpackByte(BigEndian(buffer[..8]), BigEndian(buffer[8..]), i) == buffer[i]
    {
      UnpackOne(buffer[..8], buffer[8..], i);
    }
  }

  lemma UnpackOne(first: seq<U8>, second: seq<U8>, i: nat)
    requires |first| == |second| == 8 && i < PATH_MAX_BYTES
    requires BigEndian(first) < WRAP64 && BigEndian(second) < WRAP64
    ensures UnpackByte(BigEndian(first), BigEndian(second), i) == if i < 8 then first[i] else second[i - 8]
  {
    hide BigEndian, Pow2;
    if i < 8 {
      BigEndianByte(first, i);
    } else {
      BigEndianByte(second, i - 8);
    }
  }

  /** The decoder's answer for a request's three words. */
  function Decoded(length: U64, first: U64, second: U64): Option<RomFile> {
    if 1 <= length <= PATH_MAX_BYTES then FileByPath(Unpack(length, first, second)) else None
  }

  /** For the packed words of any sixteen-byte buffer the decoder's answer is the search
      over the path itself: a table entry exactly when its pathname is what the buffer
      starts with, whatever the buffer's other bytes are. */
  lemma PackedPathDecoded(buffer: seq<U8>, length: nat)
    requires |buffer| == PATH_MAX_BYTES && length <= PATH_MAX_BYTES
    ensures BigEndian(buffer[..8]) < WRAP64 && BigEndian(buffer[8..]) < WRAP64
    ensures Decoded(length, BigEndian(buffer[..8]), BigEndian(buffer[8..])) == FileByPath(buffer[..length])
    ensures forall f: RomFile :: FileByPath(buffer[..length]) == Some(f) <==> Named(buffer[..length], f)
  {
    UnpackPacked(buffer, length);
    hide BigEndian, Unpack;
    OneEntry(buffer[..length]);
    if length == 0 {
      assert buffer[..0] == [];
    }
  }

  lemma OneEntry(path: seq<U8>)
    ensures forall f: RomFile :: FileByPath(path) == Some(f) <==> Named(path, f)
  {
  }

  predicate Named(path: seq<U8>, f: RomFile) {
    f in FILES && f.pathname == path
  }

  // ---------------------------------------------------------------- requests

  /** A request: message label (`tag`), length in words, and the first four words. */
  datatype Message = Message(tag: U64, length: U64, mr0: U64, mr1: U64, mr2: U64, mr3: U64)

  type Reply = seq<U64>

  /** What a request means: an operation on the one volatile word, or a question
      about the immutable archive with its answer. */
  datatype Call =
    | OpenVolatile
    | ReadVolatile
    | WriteVolatile(value: U64)
    | CloseVolatile
    | Rom(reply: Reply)

  /** The packed form of "/selinos-state", zero filled. */
  const STATE_FIRST: U64 := 0x2f73656c696e6f73
  const STATE_SECOND: U64 := 0x2d73746174650000

  ghost function EntryOf(archive: seq<U8>, f: RomFile): Option<Entry> {
    var e := Lookup(archive, f.pathname);
    if e.Some? && e.value.size == f.expected then e else None
  }

  ghost function OpenReply(archive: seq<U8>, f: Option<RomFile>): Reply {
    if f.Some? && EntryOf(archive, f.value).Some? then [OK, f.value.fd] else [ENOENT, 0]
  }

  ghost function ReadReply(archive: seq<U8>, f: Option<RomFile>): Reply {
    if f.None? || EntryOf(archive, f.value).None? then [EBADF, 0]
    else
      var e := EntryOf(archive, f.value).value;
      var payload := Payload(archive[e.start..e.start + e.size]);
      if payload.None? then [EBADF, 0] else [OK, f.value.reported, payload.value]
  }

  function FileById(id: U64): (r: Option<RomFile>)
    ensures r.Some? ==> r.value in FILES && r.value.fileId == id
    ensures r.None? ==> forall f :: f in FILES ==> f.fileId != id
  {
    if id == 1 then Some(RELEASE) else if id == 2 then Some(BANNER)
    else if id == 4 then Some(VERSION) else None
  }

  function FileByFd(fd: U64): (r: Option<RomFile>)
    ensures r.Some? ==> r.value in FILES && r.value.fd == fd
    ensures r.None? ==> forall f :: f in FILES ==> f.fd != fd
  {
    if fd == 3 then Some(RELEASE) else if fd == 4 then Some(BANNER)
    else if fd == 6 then Some(VERSION) else None
  }

  function FileByPath(path: seq<U8>): (r: Option<RomFile>)
    ensures r.Some? <==> exists f :: Named(path, f)
    ensures r.Some? ==> Named(path, r.value)
  {
    if path == RELEASE_PATH then assert Named(path, RELEASE); Some(RELEASE)
    else if path == BANNER_PATH then assert Named(path, BANNER); Some(BANNER)
    else if path == VERSION_PATH then assert Named(path, VERSION); Some(VERSION)
    else None
  }

  ghost function Classify(archive: seq<U8>, m: Message): Call {
    if m.tag != 0 || m.length < 1 then Rom([EINVAL, 0])
    else if m.mr0 == OP_OPEN then
      if m.length != 2 then Rom([ENOENT, 0])
      else if m.mr1 == FILE_VOLATILE then OpenVolatile
      else Rom(OpenReply(archive, FileById(m.mr1)))
    else if m.mr0 == OP_OPEN_PATH then
      if m.length == 4 && m.mr1 == 14 && m.mr2 == STATE_FIRST && m.mr3 == STATE_SECOND then OpenVolatile
      else if m.length == 4 && 1 <= m.mr1 <= PATH_MAX_BYTES then
        Rom(OpenReply(archive, FileByPath(Unpack(m.mr1, m.mr2, m.mr3))))
      else Rom([ENOENT, 0])
    else if m.mr0 == OP_READ then
      if m.length == 3 && m.mr2 == 0 then
        if m.mr1 == FD_VOLATILE then ReadVolatile else Rom(ReadReply(archive, FileByFd(m.mr1)))
      else Rom([EBADF, 0])
    else if m.mr0 == OP_WRITE then
      if m.length == 3 && m.mr1 == FD_VOLATILE then WriteVolatile(m.mr2) else Rom([EBADF, 0])
    else if m.mr0 == OP_CLOSE then
      if m.length != 2 then Rom([EBADF, 0])
      else if m.mr1 == FD_VOLATILE then CloseVolatile
      else Rom(if FileByFd(m.mr1).Some? then [OK, 0] else [EBADF, 0])
    else Rom([EINVAL, 0])
  }

  /** The whole volatile state of the service: nothing, or the word held open. */
  type Volatile = Option<U64>

  function After(v: Volatile, c: Call): Volatile {
    match c
    case OpenVolatile => Some(VOLATILE_INITIAL)
    case WriteVolatile(w) => if v.Some? then Some(w) else None
    case CloseVolatile => None
    case _ => v
  }

  function Answer(v: Volatile, c: Call): Reply {
    match c
    case OpenVolatile => [OK, FD_VOLATILE]
    case ReadVolatile => if v.Some? then [OK, VOLATILE_LENGTH, v.value] else [EBADF, 0]
    case WriteVolatile(_) => if v.Some? then [OK, VOLATILE_LENGTH] else [EBADF, 0]
    case CloseVolatile => if v.Some? then [OK, 0] else [EBADF, 0]
    case Rom(reply) => reply
  }

  /** The volatile state a server is in after a whole run of requests. */
  ghost function AfterAll(archive: seq<U8>, ms: seq<Message>): Volatile {
    if ms == [] then None
    else After(AfterAll(archive, ms[..|ms| - 1]), Classify(archive, ms[|ms| - 1]))
  }

  ghost predicate SelfChecked(archive: seq<U8>) {
    forall f :: f in FILES ==> ReadReply(archive, Some(f)) == [OK, f.reported, MagicOf(f)]
  }

  function MagicOf(f: RomFile): U64 {
    if f == RELEASE then RELEASE_MAGIC else if f == BANNER then BANNER_MAGIC else VERSION_MAGIC
  }

  class Server {
    const archive: seq<U8>
    var volatileState: U64
    var volatileOpen: bool

    /** The abstract state the two static variables stand for. */
    function View(): Volatile
      reads this
    {
      if volatileOpen then Some(volatileState) else None
    }

    constructor (archive: seq<U8>)
      ensures this.archive == archive && View() == None
    {
      this.archive := archive;
      volatileState := VOLATILE_INITIAL;
      volatileOpen := false;
    }

    /** Opens a table file: a lookup and a size test. */
    method OpenFile(f: Option<RomFile>) returns (entry: Option<Entry>)
      requires |archive| <= MAX64 && (f.Some? ==> f.value in FILES)
      ensures entry == if f.Some? then EntryOf(archive, f.value) else None
    {
      FilesPrintable();
      if f.None? {
        return None;
      }
      entry := NewcParser.CpioLookupRegular(archive, f.value.pathname);
      if entry.Some? && entry.value.size != f.value.expected {
        entry := None;
      }
    }

    method ReadFile(f: Option<RomFile>) returns (reply: Reply)
      requires |archive| <= MAX64 && (f.Some? ==> f.value in FILES)
      ensures reply == ReadReply(archive, f)
    {
      var entry := OpenFile(f);
      if entry.None? {
        return [EBADF, 0];
      }
      var e := entry.value;
      var payload := EntryPayloadWord(archive[e.start..e.start + e.size]);
      if payload.None? {
        return [EBADF, 0];
      }
      return [OK, f.value.reported, payload.value];
    }

    method CheckFile(f: RomFile, magic: U64) returns (ok: bool)
      requires |archive| <= MAX64 && f in FILES
      ensures ok <==> ReadReply(archive, Some(f)) == [OK, f.reported, magic]
    {
      var reply := ReadFile(Some(f));
      ok := |reply| == 3 && reply[2] == magic;
    }

    method ArchiveSelfCheck() returns (ok: bool)
      requires |archive| <= MAX64
      ensures ok <==> SelfChecked(archive)
    {
      hide ReadReply;
      ok := CheckFile(RELEASE, RELEASE_MAGIC);
      if ok {
        ok := CheckFile(BANNER, BANNER_MAGIC);
      }
      if ok {
        ok := CheckFile(VERSION, VERSION_MAGIC);
      }
    }

    /** One turn of the request loop. */
    method Handle(m: Message) returns (reply: Reply)
      requires |archive| <= MAX64
      modifies this
      ensures View() == After(old(View()), Classify(archive, m))
      ensures reply == Answer(old(View()), Classify(archive, m))
    {
      hide Lookup, BigEndian;
      if m.tag != 0 || m.length < 1 {
        return [EINVAL, 0];
      }
      if m.mr0 == OP_OPEN {
        if m.length != 2 {
          return [ENOENT, 0];
        }
        if m.mr1 == FILE_VOLATILE {
          volatileState := VOLATILE_INITIAL;
          volatileOpen := true;
          return [OK, FD_VOLATILE];
        }
        var file := FileById(m.mr1);
        var entry := OpenFile(file);
        return if entry.Some? then [OK, file.value.fd] else [ENOENT, 0];
      }
      if m.mr0 == OP_OPEN_PATH {
        if m.length == 4 && m.mr1 == 14 && m.mr2 == STATE_FIRST && m.mr3 == STATE_SECOND {
          volatileState := VOLATILE_INITIAL;
          volatileOpen := true;
          return [OK, FD_VOLATILE];
        }
        if m.length != 4 {
          return [ENOENT, 0];
        }
        var file := FileByPackedPath(m.mr1, m.mr2, m.mr3);
        var entry := OpenFile(file);
        return if entry.Some? then [OK, file.value.fd] else [ENOENT, 0];
      }
      if m.mr0 == OP_READ {
        if m.length == 3 && m.mr1 == FD_VOLATILE && m.mr2 == 0 && volatileOpen {
          return [OK, VOLATILE_LENGTH, volatileState];
        }
        if m.length != 3 || m.mr2 != 0 {
          return [EBADF, 0];
        }
        reply := ReadFile(FileByFd(m.mr1));
        return;
      }
      if m.mr0 == OP_WRITE {
        if m.length != 3 || m.mr1 != FD_VOLATILE || !volatileOpen {
          return [EBADF, 0];
        }
        volatileState := m.mr2;
        return [OK, VOLATILE_LENGTH];
      }
      if m.mr0 == OP_CLOSE {
        if m.length != 2 {
          return [EBADF, 0];
        }
        if m.mr1 == FD_VOLATILE {
          if !volatileOpen {
            return [EBADF, 0];
          }
          volatileOpen := false;
          return [OK, 0];
        }
        return if FileByFd(m.mr1).None? then [EBADF, 0] else [OK, 0];
      }
      return [EINVAL, 0];
    }

    /** The request loop over any finite run of requests. */
    method Serve(ms: seq<Message>) returns (replies: seq<Reply>)
      requires |archive| <= MAX64 && View() == None
      modifies this
      ensures View() == AfterAll(archive, ms)
      ensures |replies| == |ms|
      ensures forall i :: 0 <= i < |ms| ==>
                replies[i] == Answer(AfterAll(archive, ms[..i]), Classify(archive, ms[i]))
    {
      hide Classify;
      replies := [];
      for index := 0 to |ms|
        invariant |replies| == index
        invariant View() == AfterAll(archive, ms[..index])
        invariant forall i :: 0 <= i < index ==>
                    replies[i] == Answer(AfterAll(archive, ms[..i]), Classify(archive, ms[i]))
      {
        var reply := Handle(ms[index]);
        replies := replies + [reply];
        assert ms[..index + 1][..index] == ms[..index];
      }
      assert ms[..|ms|] == ms;
    }
  }

  // ---------------------------------------------------------------- whole runs

  /** The open that the state after `ms` goes back to: request j opened the word
      and nothing since has opened or closed it. */
  ghost predicate OpenSince(archive: seq<U8>, ms: seq<Message>, j: nat) {
    && j < |ms| && Classify(archive, ms[j]) == OpenVolatile
    && forall k :: j < k < |ms| ==> !Classify(archive, ms[k]).OpenVolatile? && !Classify(archive, ms[k]).CloseVolatile?
  }

  ghost predicate NoWriteAfter(archive: seq<U8>, ms: seq<Message>, j: nat) {
    forall k :: j < k < |ms| ==> !Classify(archive, ms[k]).WriteVolatile?
  }

  /** Request w wrote `v`, and nothing later wrote. */
  ghost predicate LastWrite(archive: seq<U8>, ms: seq<Message>, w: nat, v: U64) {
    w < |ms| && Classify(archive, ms[w]) == WriteVolatile(v) && NoWriteAfter(archive, ms, w)
  }

  /** The word holds `v`: the last value written since the latest open, or else
      the initial word. */
  ghost predicate Holds(archive: seq<U8>, ms: seq<Message>, v: U64) {
    exists j :: HoldsFrom(archive, ms, v, j)
  }

  ghost predicate HoldsFrom(archive: seq<U8>, ms: seq<Message>, v: U64, j: nat) {
    && OpenSince(archive, ms, j)
    && ((v == VOLATILE_INITIAL && NoWriteAfter(archive, ms, j)) ||
        exists w :: j < w && LastWrite(archive, ms, w, v))
  }

  /** After any run of requests the word is readable exactly when some open has
      not been closed, and then it is the last value written since. */
  lemma {:induction false} VolatileHistory(archive: seq<U8>, ms: seq<Message>)
    ensures AfterAll(archive, ms).Some? <==> exists j :: OpenSince(archive, ms, j)
    ensures forall v: U64 :: AfterAll(archive, ms) == Some(v) <==> Holds(archive, ms, v)
    decreases |ms|
  {
    hide Classify;
    if ms != [] {
      var init, last := ms[..|ms| - 1], ms[|ms| - 1];
      assert ms == init + [last];
      VolatileHistory(archive, init);
      assert AfterAll(archive, ms) == After(AfterAll(archive, init), Classify(archive, last));
      OpenStep(archive, init, last);
      forall v: U64 ensures AfterAll(archive, ms) == Some(v) <==> Holds(archive, ms, v) {
        HoldsStep(archive, init, last, v);
      }
    }
  }

  lemma OpenSinceStep(archive: seq<U8>, init: seq<Message>, m: Message, j: nat)
    ensures OpenSince(archive, init + [m], j) <==>
            var c := Classify(archive, m);
            if j == |init| then c.OpenVolatile?
            else OpenSince(archive, init, j) && !c.OpenVolatile? && !c.CloseVolatile?
  {
    hide Classify;
    var ms := init + [m];
    assert forall k :: 0 <= k < |init| ==> ms[k] == init[k];
    assert ms[|init|] == m;
  }

  lemma WriteStep(archive: seq<U8>, init: seq<Message>, m: Message, w: nat, v: U64)
    ensures w < |init| ==>
              (NoWriteAfter(archive, init + [m], w) <==>
               NoWriteAfter(archive, init, w) && !Classify(archive, m).WriteVolatile?)
    ensures LastWrite(archive, init + [m], w, v) <==>
            if w == |init| then Classify(archive, m) == WriteVolatile(v)
            else LastWrite(archive, init, w, v) && !Classify(archive, m).WriteVolatile?
  {
    hide Classify;
    var ms := init + [m];
    assert forall k :: 0 <= k < |init| ==> ms[k] == init[k];
    assert ms[|init|] == m;
  }

  lemma OpenStep(archive: seq<U8>, init: seq<Message>, m: Message)
    ensures var c := Classify(archive, m);
            (exists j :: OpenSince(archive, init + [m], j)) <==>
            c.OpenVolatile? || (!c.CloseVolatile? && exists j :: OpenSince(archive, init, j))
  {
    hide Classify, OpenSince;
    HistoryBounds(archive, init);
    OpenSinceStep(archive, init, m, |init|);
    forall j: nat
      ensures OpenSince(archive, init + [m], j) <==>
              if j == |init| then Classify(archive, m).OpenVolatile?
              else
                && OpenSince(archive, init, j)
                && !Classify(archive, m).OpenVolatile? && !Classify(archive, m).CloseVolatile?
    {
      OpenSinceStep(archive, init, m, j);
    }
  }

  lemma HistoryBounds(archive: seq<U8>, ms: seq<Message>)
    ensures forall j: nat :: OpenSince(archive, ms, j) ==> j < |ms|
    ensures forall w: nat, v: U64 :: LastWrite(archive, ms, w, v) ==> w < |ms|
    ensures forall j: nat :: j >= |ms| - 1 ==> NoWriteAfter(archive, ms, j)
  {
  }

  lemma HoldsStep(archive: seq<U8>, init: seq<Message>, m: Message, v: U64)
    ensures var c := Classify(archive, m);
            Holds(archive, init + [m], v) <==>
            match c
            case OpenVolatile => v == VOLATILE_INITIAL
            case WriteVolatile(w) => v == w && exists j :: OpenSince(archive, init, j)
            case CloseVolatile => false
            case _ => Holds(archive, init, v)
  {
    hide Classify, OpenSince, NoWriteAfter, LastWrite;
    var ms, n, c := init + [m], |init|, Classify(archive, m);
    forall j: nat
      ensures OpenSince(archive, ms, j) <==>
              if j == n then c.OpenVolatile?
              else OpenSince(archive, init, j) && !c.OpenVolatile? && !c.CloseVolatile?
    {
      OpenSinceStep(archive, init, m, j);
    }
    forall w: nat
      ensures w < n ==> (NoWriteAfter(archive, ms, w) <==> NoWriteAfter(archive, init, w) && !c.WriteVolatile?)
      ensures LastWrite(archive, ms, w, v) <==>
              if w == n then c == WriteVolatile(v) else LastWrite(archive, init, w, v) && !c.WriteVolatile?
    {
      WriteStep(archive, init, m, w, v);
    }
    HistoryBounds(archive, ms);
    HistoryBounds(archive, init);
    if c.OpenVolatile? {
      assert OpenSince(archive, ms, n) && NoWriteAfter(archive, ms, n);
      assert v == VOLATILE_INITIAL ==> HoldsFrom(archive, ms, v, n);
    } else if c.WriteVolatile? {
      assert v == c.value ==> LastWrite(archive, ms, n, v);
      if j: nat :| OpenSince(archive, init, j) {
        assert OpenSince(archive, ms, j) && j < n;
        assert v == c.value ==> HoldsFrom(archive, ms, v, j);
      }
    } else if !c.CloseVolatile? {
      if Holds(archive, init, v) {
        var j: nat :| HoldsFrom(archive, init, v, j);
        assert HoldsFrom(archive, ms, v, j);
      }
      if Holds(archive, ms, v) {
        var j: nat :| HoldsFrom(archive, ms, v, j);
        assert HoldsFrom(archive, init, v, j);
      }
    }
  }

  // ---------------------------------------------------------------- ROM files

  /** A well-formed open or read of a ROM file. */
  ghost predicate RomRequest(m: Message, f: RomFile) {
    && f in FILES && m.tag == 0
    && (|| (m.mr0 == OP_OPEN && m.length == 2 && m.mr1 == f.fileId)
        || (m.mr0 == OP_OPEN_PATH && m.length == 4 && 1 <= m.mr1 <= PATH_MAX_BYTES
            && Unpack(m.mr1, m.mr2, m.mr3) == f.pathname)
        || (m.mr0 == OP_READ && m.length == 3 && m.mr1 == f.fd && m.mr2 == 0))
  }

  /** Once the start-up check has passed, a ROM request made at any point of any
      run succeeds, and a read always carries the file's magic word. */
  lemma RomRequestsSucceed(archive: seq<U8>, ms: seq<Message>, m: Message, f: RomFile)
    requires SelfChecked(archive) && RomRequest(m, f)
    ensures Answer(AfterAll(archive, ms), Classify(archive, m)) ==
            if m.mr0 == OP_READ then [OK, f.reported, MagicOf(f)] else [OK, f.fd]
    ensures After(AfterAll(archive, ms), Classify(archive, m)) == AfterAll(archive, ms)
  {
    hide RomRequest, SelfChecked, Classify, ReadReply, OpenReply, MagicOf, AfterAll;
    RomClassified(archive, m, f);
    OpenAfterCheck(archive, m, f);
  }

  lemma OpenAfterCheck(archive: seq<U8>, m: Message, f: RomFile)
    requires SelfChecked(archive) && RomRequest(m, f)
    ensures ReadReply(archive, Some(f)) == [OK, f.reported, MagicOf(f)]
    ensures OpenReply(archive, Some(f)) == [OK, f.fd]
  {
    hide EntryOf, MagicOf, Payload;
  }

  lemma RomClassified(archive: seq<U8>, m: Message, f: RomFile)
    requires RomRequest(m, f)
    ensures Classify(archive, m) ==
            Rom(if m.mr0 == OP_READ then ReadReply(archive, Some(f)) else OpenReply(archive, Some(f)))
  {
    hide ReadReply, OpenReply, Unpack;
    StatePathDiffers(m.mr1, m.mr2, m.mr3);
    TableKeys(f);
  }

  lemma TableKeys(f: RomFile)
    requires f in FILES
    ensures FileById(f.fileId) == FileByFd(f.fd) == FileByPath(f.pathname) == Some(f)
    ensures f.fileId != FILE_VOLATILE && f.fd != FD_VOLATILE
  {
  }

  const STATE_PATH: seq<U8> :=
    [0x2f, 0x73, 0x65, 0x6c, 0x69, 0x6e, 0x6f, 0x73, 0x2d, 0x73, 0x74, 0x61, 0x74, 0x65]

  lemma StatePathDiffers(length: U64, first: U64, second: U64)
    ensures length == 14 ==> forall f :: f in FILES ==> f.pathname != Unpack(length, first, second)
  {
    assert forall f :: f in FILES ==> |f.pathname| != 14;
  }

  /** The volatile path is recognised by its packed words, not by its bytes: of
      all buffers that spell "/selinos-state", only the zero-filled one opens it,
      and any other filler is answered with ENOENT. */
  lemma StatePathNeedsZeroFill(archive: seq<U8>, buffer: seq<U8>)
    requires |buffer| == PATH_MAX_BYTES && STATE_PATH <= buffer
    ensures BigEndian(buffer[..8]) < WRAP64 && BigEndian(buffer[8..]) < WRAP64
    ensures var m := Message(0, 4, OP_OPEN_PATH, 14, BigEndian(buffer[..8]), BigEndian(buffer[8..]));
            Classify(archive, m) ==
            if buffer[14] == 0 && buffer[15] == 0 then OpenVolatile else Rom([ENOENT, 0])
  {
    var zeroed := STATE_PATH + [0, 0];
    var first, second := BigEndian(buffer[..8]), BigEndian(buffer[8..]);
    UnpackPacked(buffer, 14);
    StateWords();
    assert buffer[..8] == zeroed[..8];
    if second == STATE_SECOND {
      BigEndianInjective(buffer[8..], zeroed[8..]);
    }
    var rest := buffer[8..];
    assert rest[6] == buffer[14] && rest[7] == buffer[15];
    assert buffer[14] == 0 && buffer[15] == 0 <==> rest == zeroed[8..];
    hide BigEndian;
    StatePathDiffers(14, first, second);
  }

  lemma StateWords()
    ensures BigEndian((STATE_PATH + [0, 0])[..8]) == STATE_FIRST
    ensures BigEndian((STATE_PATH + [0, 0])[8..]) == STATE_SECOND
  {
    var a: seq<U8> := [0x2f, 0x73, 0x65, 0x6c, 0x69, 0x6e, 0x6f, 0x73];
    var b: seq<U8> := [0x2d, 0x73, 0x74, 0x61, 0x74, 0x65, 0, 0];
    assert (STATE_PATH + [0, 0])[..8] == a && (STATE_PATH + [0, 0])[8..] == b;
    BigEndianEight(a);
    BigEndianEight(b);
  }

  lemma BigEndianEight(s: seq<U8>)
    requires |s| == 8
    ensures BigEndian(s)
              == BigEndianPairs(s[0], s[1], s[2], s[3]) * 0x1_0000_0000 + BigEndianPairs(s[4], s[5], s[6], s[7])
  {
    BigEndianAppend(s[..7], s[7]);
    BigEndianAppend(s[..6], s[6]);
    BigEndianAppend(s[..5], s[5]);
    BigEndianAppend(s[..4], s[4]);
    BigEndianAppend(s[..3], s[3]);
    BigEndianAppend(s[..2], s[2]);
    BigEndianAppend(s[..1], s[1]);
    BigEndianAppend(s[..0], s[0]);
    assert BigEndian(s[..0]) == 0;
    hide BigEndian;
    assert s[..7] + [s[7]] == s && s[..6] + [s[6]] == s[..7] && s[..5] + [s[5]] == s[..6];
    assert s[..4] + [s[4]] == s[..5] && s[..3] + [s[3]] == s[..4] && s[..2] + [s[2]] == s[..3];
    assert s[..1] + [s[1]] == s[..2] && s[..0] + [s[0]] == s[..1];
  }

  function BigEndianPairs(a: nat, b: nat, c: nat, d: nat): nat {
    a * 0x100_0000 + b * 0x1_0000 + c * 0x100 + d
  }

  lemma BigEndianAppend(s: seq<U8>, b: U8)
    ensures BigEndian(s + [b]) == BigEndian(s) * 256 + b
  {
    assert (s + [b])[..|s|] == s;
  }
}
