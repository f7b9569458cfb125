/** What the virtio stages run against: an allocator, an address space and a
    device that may each answer in any way.  The platform keeps the books: what
    is live, what was written and read, and which accesses missed the page. */
module VirtioPlatform {
  import opened Bits
  import opened VirtioRange

  const STATUS: nat := 0x14
  const QUEUE_SELECT: nat := 0x16
  const QUEUE_SIZE: nat := 0x18
  const QUEUE_ENABLE: nat := 0x1c
  const QUEUE_NOTIFY_OFF: nat := 0x1e
  const DESC_LO: nat := 0x20
  const DESC_HI: nat := 0x24
  const DRIVER_LO: nat := 0x28
  const DRIVER_HI: nat := 0x2c
  const DEVICE_LO: nat := 0x30
  const DEVICE_HI: nat := 0x34

  /** One access to the device: to a register, or to the notification word at a
      physical address. */
  datatype Event = Wrote(reg: nat, value: nat) | Saw(reg: nat, value: nat) | Notified(paddr: nat, value: nat)

  /** The last access to each register in the part of the log from `from` on. */
  ghost function LastOn(log: seq<Event>, from: nat): map<nat, Event> {
    if |log| <= from then map[]
    else
      var last := LastOn(log[..|log| - 1], from);
      if log[|log| - 1].Notified? then last else last[log[|log| - 1].reg := log[|log| - 1]]
  }

  predicate StatusWrite(e: Event) {
    e.Wrote? && e.reg == STATUS
  }

  /** The last status written since `from`. */
  ghost function LastStatus(log: seq<Event>, from: nat): Option<nat> {
    if |log| <= from then None
    else if StatusWrite(log[|log| - 1]) then Some(log[|log| - 1].value)
    else LastStatus(log[..|log| - 1], from)
  }

  /** A status write that keeps the bits of the one before, or resets. */
  predicate Advances(previous: Option<nat>, value: nat) {
    value == 0 || (previous.Some? && And(previous.value, value) == previous.value)
  }

  /** No status write takes back a bit of the one before, except by writing zero;
      the first one writes zero. */
  ghost predicate Disciplined(log: seq<Event>, from: nat) {
    |log| <= from ||
    (var init, e := log[..|log| - 1], log[|log| - 1];
     Disciplined(init, from) && (StatusWrite(e) ==> Advances(LastStatus(init, from), e.value)))
  }

  ghost predicate Silent(log: seq<Event>, from: nat) {
    forall k :: from <= k < |log| ==> !log[k].Notified?
  }

  lemma LogStep(log: seq<Event>, from: nat, e: Event)
    requires from <= |log|
    ensures LastOn(log + [e], from) == if e.Notified? then LastOn(log, from) else LastOn(log, from)[e.reg := e]
    ensures LastStatus(log + [e], from) == if StatusWrite(e) then Some(e.value) else LastStatus(log, from)
    ensures Disciplined(log + [e], from) <==>
            Disciplined(log, from) && (StatusWrite(e) ==> Advances(LastStatus(log, from), e.value))
    ensures Silent(log + [e], from) <==> Silent(log, from) && !e.Notified?
  {
    hide Advances;
    var s := log + [e];
    assert s[..|s| - 1] == log && s[|log|] == e;
    assert forall k :: 0 <= k < |log| ==> s[k] == log[k];
  }

  /** A frame and the physical address of its page. */
  datatype Frame = Frame(id: nat, page: nat)

  /** A frame, its reservation and its mapping, as far as they were obtained. */
  datatype Triple = Triple(frame: Option<Frame>, reservation: Option<nat>, mapping: nat, mapped: bool)

  const NOTHING := Triple(None, None, 0, false)

  /** Where register accesses go: a mapping of a page and the registers' offset in it. */
  datatype Window = Window(mapping: nat, pageOffset: nat, page: nat)

  predicate Opens(w: Window, mappings: map<nat, Triple>) {
    w.mapping in mappings && mappings[w.mapping].frame.Some? && mappings[w.mapping].frame.value.page == w.page
  }

  type Books = (set<Frame>, set<nat>, map<nat, Triple>)

  function FrameSet(t: Triple): set<Frame> {
    if t.frame.Some? then {t.frame.value} else {}
  }

  function ReservationSet(t: Triple): set<nat> {
    if t.reservation.Some? then {t.reservation.value} else {}
  }

  function MappingMap(t: Triple): map<nat, Triple> {
    if t.mapped then map[t.mapping := t] else map[]
  }

  /** Every mapping rests on a live frame and a live reservation. */
  ghost predicate BooksValid(b: Books) {
    forall m :: m in b.2 ==>
      && b.2[m].frame.Some? && b.2[m].frame.value in b.0
      && b.2[m].reservation.Some? && b.2[m].reservation.value in b.1
  }

  /** `t` is live and nothing else shares its frame or reservation. */
  ghost predicate Owned(b: Books, t: Triple) {
    && (t.mapped ==> t.frame.Some? && t.reservation.Some? && t.mapping in b.2 && b.2[t.mapping] == t)
    && (t.frame.Some? ==>
          t.frame.value in b.0 &&
          forall m :: m in b.2 && !(t.mapped && m == t.mapping) ==> b.2[m].frame != t.frame)
    && (t.reservation.Some? ==>
          t.reservation.value in b.1 &&
          forall m :: m in b.2 && !(t.mapped && m == t.mapping) ==> b.2[m].reservation != t.reservation)
  }

  /** `t` shares nothing with the books. */
  predicate Fresh(t: Triple, b: Books) {
    FrameSet(t) !! b.0 && ReservationSet(t) !! b.1 && MappingMap(t).Keys !! b.2.Keys
  }

  predicate Apart(a: Triple, b: Triple) {
    && FrameSet(a) !! FrameSet(b)
    && ReservationSet(a) !! ReservationSet(b)
    && MappingMap(a).Keys !! MappingMap(b).Keys
  }

  function Plus(b: Books, t: Triple): Books {
    (b.0 + FrameSet(t), b.1 + ReservationSet(t), b.2 + MappingMap(t))
  }

  function Minus(b: Books, t: Triple): Books {
    (b.0 - FrameSet(t), b.1 - ReservationSet(t), b.2 - MappingMap(t).Keys)
  }

  /** Adding a fresh triple to the books and taking it out again. */
  lemma PlusMinus(b: Books, t: Triple)
    requires Fresh(t, b)
    ensures Minus(Plus(b, t), t) == b
  {
    assert b.0 + FrameSet(t) - FrameSet(t) == b.0;
    assert b.1 + ReservationSet(t) - ReservationSet(t) == b.1;
    assert b.2 + MappingMap(t) - MappingMap(t).Keys == b.2;
  }

  /** Adding a fresh triple disturbs no owner. */
  lemma StillOwned(b: Books, u: Triple, t: Triple)
    requires BooksValid(b) && Owned(b, u) && Fresh(t, b)
    requires t.mapped ==> t.frame.Some? && t.reservation.Some?
    ensures Owned(Plus(b, t), u)
  {
    var c := Plus(b, t);
    forall m | m in c.2 && !(u.mapped && m == u.mapping)
      ensures u.frame.Some? ==> c.2[m].frame != u.frame
      ensures u.reservation.Some? ==> c.2[m].reservation != u.reservation
    {
      if m in MappingMap(t) {
        assert c.2[m] == t;
      } else {
        assert m in b.2 && c.2[m] == b.2[m];
      }
    }
  }

  /** Nor does mapping a page for someone else. */
  lemma OwnedKept(b: Books, after: Books, u: Triple, t: Triple)
    requires Owned(b, u) && b.0 <= after.0 && b.1 <= after.1
    requires after.2 == b.2 + MappingMap(t) && MappingMap(t).Keys !! b.2.Keys
    requires t.mapped ==>
               (u.frame.Some? ==> t.frame != u.frame) && (u.reservation.Some? ==> t.reservation != u.reservation)
    ensures Owned(after, u)
  {
    forall m | m in after.2 && !(u.mapped && m == u.mapping)
      ensures u.frame.Some? ==> after.2[m].frame != u.frame
      ensures u.reservation.Some? ==> after.2[m].reservation != u.reservation
    {
      if m in MappingMap(t) {
        assert after.2[m] == t;
      } else {
        assert m in b.2 && after.2[m] == b.2[m];
      }
    }
  }

  /** Nor does removing one that stands apart. */
  lemma OwnedAfter(b: Books, u: Triple, t: Triple)
    requires Owned(b, u) && Apart(u, t)
    ensures Owned(Minus(b, t), u)
  {
  }

  /** A page is granted: a frame, an address range and the mapping, asked for in this
      order from the n-th request on. */
  predicate Maps(grants: nat -> bool, n: nat) {
    grants(n) && grants(n + 1) && grants(n + 2)
  }

  lemma {:induction false} Bound(s: set<nat>) returns (b: nat)
    ensures forall x :: x in s ==> x < b
  {
    if s == {} {
      b := 0;
    } else {
      var x :| x in s;
      var c := Bound(s - {x});
      b := if c > x then c else x + 1;
      assert forall y :: y in s ==> y == x || y in s - {x};
    }
  }

  /** `grants` decides, request by request, what the allocator and the address space
      provide and whether the layout page reads as zero; `pages` where the frames lie
      that are asked for without an address. */
  class Platform {
    const grants: nat -> bool
    const pages: nat -> U64
    var asked: nat
    var nextId: nat
    var mappings: map<nat, Triple>
    ghost var frames: set<Frame>
    ghost var reservations: set<nat>
    ghost var log: seq<Event>
    ghost var escapes: nat
    ghost var nullWrites: nat
    ghost var touched: set<nat>  // physical pages accessed

    /** What is live. */
    ghost function Live(): Books
      reads `frames, `reservations, `mappings
    {
      (frames, reservations, mappings)
    }

    /** Identifiers are never reused, and the books are in order. */
    ghost predicate Valid()
      reads `nextId, `frames, `reservations, `mappings
    {
      && (forall f :: f in frames ==> f.id < nextId)
      && (forall r :: r in reservations ==> r < nextId)
      && BooksValid(Live())
    }

    constructor (grants: nat -> bool, pages: nat -> U64)
      ensures Valid() && this.grants == grants && this.pages == pages && asked == 0
      ensures log == [] && escapes == nullWrites == 0 && touched == {}
    {
      this.grants, this.pages, asked := grants, pages, 0;
      nextId, frames, reservations, mappings := 0, {}, {}, map[];
      log, escapes, nullWrites, touched := [], 0, 0, {};
    }

    /** `vka_alloc_frame_at`, and `vka_alloc_frame` with the page it then yields. */
    method AllocFrame(page: nat) returns (frame: Option<Frame>)
      requires Valid()
      modifies `nextId, `frames, `asked
      ensures Valid() && nextId >= old(nextId) && asked == old(asked) + 1
      ensures frame.Some? <==> grants(old(asked))
      ensures frame.None? ==> frames == old(frames)
      ensures frame.Some? ==>
                && frames == old(frames) + {frame.value} && frame.value.page == page
                && old(nextId) <= frame.value.id < nextId
    {
      asked := asked + 1;
      if !grants(asked - 1) {
        return None;
      }
      frame := Some(Frame(nextId, page));
      frames := frames + {frame.value};
      nextId := nextId + 1;
    }

    /** `vspace_reserve_range_aligned`: an address where nothing is mapped; when it
        fails the reservation, the address or both are missing. */
    method Reserve() returns (reservation: Option<nat>, mapping: Option<nat>)
      requires Valid()
      modifies `nextId, `reservations, `asked
      ensures Valid() && nextId >= old(nextId) && asked == old(asked) + 1
      ensures reservation.Some? && mapping.Some? <==> grants(old(asked))
      ensures grants(old(asked)) ==> mapping.value !in mappings
      ensures reservation.None? ==> reservations == old(reservations)
      ensures reservation.Some? ==>
                reservations == old(reservations) + {reservation.value} && old(nextId) <= reservation.value < nextId
    {
      asked := asked + 1;
      if grants(asked - 1) {
        ghost var bound := Bound(mappings.Keys);
        assert bound !in mappings;
        var address: nat :| address !in mappings;
        mapping := Some(address);
      } else {
        mapping := *;
        var reserved := *;
        if mapping.Some? || !reserved {
          return None, mapping;
        }
      }
      reservation := Some(nextId);
      reservations := reservations + {nextId};
      nextId := nextId + 1;
    }

    /** `vspace_map_pages_at_vaddr`. */
    method Map(t: Triple) returns (ok: bool)
      requires Valid() && t.frame.Some? && t.frame.value in frames
      requires t.reservation.Some? && t.reservation.value in reservations && t.mapping !in mappings
      modifies `mappings, `asked
      ensures Valid() && asked == old(asked) + 1
      ensures ok == grants(old(asked))
      ensures mappings == if ok then old(mappings)[t.mapping := t] else old(mappings)
    {
      asked := asked + 1;
      ok := grants(asked - 1);
      if ok {
        mappings := mappings[t.mapping := t];
      }
    }

    /** Whether the flags and indices of the layout page read as zero. */
    method LayoutIsZero() returns (ok: bool)
      modifies `asked
      ensures asked == old(asked) + 1 && ok == grants(old(asked))
    {
      asked := asked + 1;
      ok := grants(asked - 1);
    }

    /** `vspace_unmap_pages`. */
    method Unmap(mapping: nat)
      requires Valid() && mapping in mappings
      modifies `mappings
      ensures Valid() && mappings == old(mappings) - {mapping}
    {
      mappings := mappings - {mapping};
    }

    /** `vspace_free_reservation`: only a live one, and only once nothing is mapped
        through it. */
    method FreeReservation(reservation: nat)
      requires Valid() && reservation in reservations
      requires forall m :: m in mappings ==> mappings[m].reservation != Some(reservation)
      modifies `reservations
      ensures Valid() && reservations == old(reservations) - {reservation}
    {
      reservations := reservations - {reservation};
    }

    /** `vka_free_object`: only a live frame, and only once it is unmapped. */
    method FreeFrame(frame: Frame)
      requires Valid() && frame in frames
      requires forall m :: m in mappings ==> mappings[m].frame != Some(frame)
      modifies `frames
      ensures Valid() && frames == old(frames) - {frame}
    {
      frames := frames - {frame};
    }

    /** A register write.  Through a window that was never set it hits address zero
        instead; past the end of the page it hits whatever lies there. */
    method Write(w: Option<Window>, reg: nat, width: nat, value: nat)
      requires w.Some? ==> Opens(w.value, mappings)
      modifies `log, `escapes, `nullWrites, `touched
      ensures w.None? ==>
                && nullWrites == old(nullWrites) + 1
                && log == old(log) && escapes == old(escapes) && touched == old(touched)
      ensures w.Some? ==>
                && nullWrites == old(nullWrites) && touched == old(touched) + {w.value.page}
                && log == old(log) + [Wrote(reg, value)]
                && escapes == old(escapes) + (if w.value.pageOffset + reg + width > PAGE then 1 else 0)
    {
      if w.None? {
        nullWrites := nullWrites + 1;
      } else {
        log := log + [Wrote(reg, value)];
        touched := touched + {w.value.page};
        if w.value.pageOffset + reg + width > PAGE {
          escapes := escapes + 1;
        }
      }
    }

    /** A register read: the device answers what it likes. */
    method Read(w: Window, reg: nat, width: nat) returns (value: nat)
      requires Opens(w, mappings) && width in {1, 2, 4}
      modifies `log, `escapes, `touched
      ensures touched == old(touched) + {w.page}
      ensures value < Pow2(8 * width) && log == old(log) + [Saw(reg, value)]
      ensures escapes == old(escapes) + (if w.pageOffset + reg + width > PAGE then 1 else 0)
    {
      value :| 0 <= value < Pow2(8 * width);
      log := log + [Saw(reg, value)];
      touched := touched + {w.page};
      if w.pageOffset + reg + width > PAGE {
        escapes := escapes + 1;
      }
    }

    /** The queue notification, on the page mapped for it. */
    method Notify(w: Window, value: nat)
      requires Opens(w, mappings) && w.pageOffset + 2 <= PAGE
      modifies `log, `touched
      ensures log == old(log) + [Notified(w.page + w.pageOffset, value)] && touched == old(touched) + {w.page}
    {
      log := log + [Notified(w.page + w.pageOffset, value)];
      touched := touched + {w.page};
    }

    // ---------------------------------------------------------------- triples

    /** Reserves and maps a page for a frame; each step may fail. */
    method MapFrame(frame: Frame) returns (t: Triple)
      requires Valid() && frame in frames
      requires forall m :: m in mappings ==> mappings[m].frame != Some(frame)
      modifies `nextId, `reservations, `mappings, `asked
      ensures Valid() && Owned(Live(), t) && t.frame == Some(frame)
      ensures t.mapped <==> grants(old(asked)) && grants(old(asked) + 1)
      ensures asked == old(asked) + if grants(old(asked)) then 2 else 1
      ensures reservations == old(reservations) + ReservationSet(t)
      ensures mappings == old(mappings) + MappingMap(t)
      ensures ReservationSet(t) !! old(reservations) && MappingMap(t).Keys !! old(mappings).Keys
    {
      var reservation, mapping := Reserve();
      t := Triple(Some(frame), reservation, if mapping.Some? then mapping.value else 0, false);
      if reservation.Some? && mapping.Some? {
        var ok := Map(t.(mapped := true));
        t := t.(mapped := ok);
      }
    }

    /** Takes a triple down again: mapping, reservation, frame. */
    method ReleaseTriple(t: Triple)
      requires Valid() && Owned(Live(), t)
      modifies `frames, `reservations, `mappings
      ensures Valid() && Live() == Minus(old(Live()), t)
    {
      if t.mapped {
        Unmap(t.mapping);
      }
      if t.reservation.Some? {
        FreeReservation(t.reservation.value);
      }
      if t.frame.Some? {
        FreeFrame(t.frame.value);
      }
      assert frames == old(frames) - FrameSet(t);
      assert reservations == old(reservations) - ReservationSet(t);
      assert mappings == old(mappings) - MappingMap(t).Keys;
    }
  }
}
