/**
  What the in-memory store promises, stated on the set of stored events and the
  tombstones alone: no index, no plan, no loop. `MemoryStore` refines this.
*/
module MemorySpec {
  import opened Wrappers
  import opened Order
  import opened Events
  import opened Filters
  import opened MemoryQuery

  datatype Reason =
    | Ephemeral | Duplicate | Deleted | Vanished | Expired | Replaced | InvalidDelete | Other

  datatype Status = Success | Rejected(reason: Reason)

  /** Which requests the store honours, for which relay, and how many events it may hold. */
  datatype Config = Config(nip09: bool, nip62: bool, relay: Option<string>, capacity: Option<nat>) {
    predicate Valid() { capacity.Some? ==> capacity.value > 0 }
  }

  datatype State = State(
    events: set<Event>,
    deletedIds: set<EventId>,
    deletedAt: map<Coordinate, Timestamp>,
    vanished: set<PublicKey>)

  const EMPTY_STATE := State({}, {}, map[], {})

  predicate IsDeletion(cfg: Config, e: Event) { cfg.nip09 && e.kind == EVENT_DELETION }

  predicate IsVanish(cfg: Config, e: Event) {
    cfg.nip62 && e.kind == REQUEST_TO_VANISH && IsVanishRequestFor(e.tags, cfg.relay)
  }

  predicate CoordinateDeleted(deletedAt: map<Coordinate, int>, e: Event) {
    CoordinateOf(e).Some? && CoordinateOf(e).value in deletedAt && e.createdAt <= deletedAt[CoordinateOf(e).value]
  }

  /** Why an event is turned away before anything changes, if it is. */
  ghost function Refusal(st: State, e: Event, now: Timestamp): Option<Reason> {
    if IsEphemeral(e.kind) then Some(Ephemeral)
    else if exists f :: f in st.events && f.id == e.id then Some(Duplicate)
    else if e.id in st.deletedIds then Some(Deleted)
    else if e.author in st.vanished then Some(Vanished)
    else if CoordinateDeleted(st.deletedAt, e) then Some(Deleted)
    else if IsExpiredAt(e, now) then Some(Expired)
    else None
  }

  /** Two replaceable events of one author and kind, or two addressable ones that share the identifier too. */
  predicate SameAddress(a: Event, b: Event) {
    && a.author == b.author
    && a.kind == b.kind
    && (IsReplaceable(a.kind) || (IsAddressable(a.kind) && Identifier(a).Some? && Identifier(a) == Identifier(b)))
  }

  ghost function Rivals(events: set<Event>, e: Event): set<Event> {
    set f | f in events && SameAddress(f, e)
  }

  // ---- deletion requests (NIP-09) ----

  ghost predicate ForeignId(events: set<Event>, author: PublicKey, id: EventId) {
    exists f :: f in events && f.id == id && f.author != author
  }

  /** The ids up to the first one that names a stored event of somebody else. */
  ghost function OwnIds(events: set<Event>, author: PublicKey, ids: seq<EventId>): seq<EventId> {
    if ids == [] || ForeignId(events, author, ids[0]) then []
    else [ids[0]] + OwnIds(events, author, ids[1..])
  }

  /** The coordinates up to the first one of somebody else. */
  function OwnCoordinates(author: PublicKey, cs: seq<Coordinate>): seq<Coordinate> {
    if cs == [] || cs[0].author != author then []
    else [cs[0]] + OwnCoordinates(author, cs[1..])
  }

  /** The stored events a coordinate reaches: one address, or with no identifier every event of the kind. */
  predicate Targets(c: Coordinate, e: Event) {
    if c.identifier != "" then HasAddress(e, c) else e.kind == c.kind && e.author == c.author
  }

  ghost predicate CoversById(events: set<Event>, d: Event, e: Event) {
    e.id in OwnIds(events, d.author, EventIds(d.tags)) && e.createdAt <= d.createdAt
  }

  ghost predicate CoversByCoordinate(d: Event, e: Event) {
    e.createdAt <= d.createdAt &&
    exists c :: c in OwnCoordinates(d.author, Coordinates(d.tags)) && Targets(c, e)
  }

  ghost predicate Covers(events: set<Event>, d: Event, e: Event) {
    CoversById(events, d, e) || CoversByCoordinate(d, e)
  }

  /** The request names something that is not its author's. */
  ghost predicate Overreaches(events: set<Event>, d: Event) {
    || OwnIds(events, d.author, EventIds(d.tags)) != EventIds(d.tags)
    || OwnCoordinates(d.author, Coordinates(d.tags)) != Coordinates(d.tags)
  }

  ghost function CoveredIds(events: set<Event>, d: Event): set<EventId> {
    set f | f in events && CoversById(events, d, f) :: f.id
  }

  function Later(m: map<Coordinate, Timestamp>, c: Coordinate, t: Timestamp): Timestamp {
    if c in m && m[c] >= t then m[c] else t
  }

  function Raise(m: map<Coordinate, Timestamp>, cs: seq<Coordinate>, t: Timestamp): map<Coordinate, Timestamp> {
    map c | c in m.Keys + (set c | c in cs) :: if c in cs then Later(m, c, t) else m[c]
  }

  ghost function AfterDeletion(st: State, d: Event): State {
    State((set f | f in st.events && !Covers(st.events, d, f)),
          st.deletedIds + CoveredIds(st.events, d),
          Raise(st.deletedAt, OwnCoordinates(d.author, Coordinates(d.tags)), d.createdAt),
          st.vanished)
  }

  // ---- requests to vanish (NIP-62) ----

  predicate WrappedFor(e: Event, author: PublicKey) { e.kind == GIFT_WRAP && HasTag(e, 'p', author) }

  ghost function AfterVanish(st: State, author: PublicKey): State {
    st.(events := (set f | f in st.events && f.author != author && !WrappedFor(f, author)),
        vanished := st.vanished + {author})
  }

  // ---- one delivery ----

  ghost function Keep(capacity: Option<nat>, s: set<Event>): set<Event> { Take(s, capacity) }

  ghost function Admit(cfg: Config, st: State, e: Event): State {
    st.(events := Keep(cfg.capacity, st.events + {e}))
  }

  /** The store just before the event goes in: the removals its arrival causes are done. */
  ghost function Cleared(cfg: Config, st: State, e: Event): State {
    if IsReplaceable(e.kind) || IsAddressable(e.kind) then st.(events := st.events - Rivals(st.events, e))
    else if IsDeletion(cfg, e) then AfterDeletion(st, e)
    else if IsVanish(cfg, e) then AfterVanish(st, e.author)
    else st
  }

  ghost function Step(cfg: Config, st: State, e: Event, now: Timestamp): (State, Status) {
    if Refusal(st, e, now).Some? then (st, Rejected(Refusal(st, e, now).value))
    else if IsAddressable(e.kind) && Identifier(e).None? then (st, Rejected(Other))
    else if exists f :: f in Rivals(st.events, e) && !Before(e, f) then (st, Rejected(Replaced))
    else if IsDeletion(cfg, e) && Overreaches(st.events, e) then (Cleared(cfg, st, e), Rejected(InvalidDelete))
    else (Admit(cfg, Cleared(cfg, st, e), e), Success)
  }

  ghost function Delete(st: State, f: Filter): State {
    if f == EMPTY_FILTER then EMPTY_STATE else st.(events := st.events - Query(f, st.events))
  }

  /** What the stored events and tombstones satisfy at all times. */
  ghost predicate Coherent(cfg: Config, st: State) {
    && UniqueIds(st.events)
    && (forall e :: e in st.events ==> e.id !in st.deletedIds)
    && (forall e, f :: e in st.events && f in st.events && SameAddress(e, f) ==> e == f)
    && (forall e :: e in st.events && IsAddressable(e.kind) ==> Identifier(e).Some?)
    && (cfg.capacity.Some? ==> |st.events| <= cfg.capacity.value)
  }

  // ---- facts about the pieces ----

  lemma {:induction false} OwnIdsPrefix(events: set<Event>, author: PublicKey, ids: seq<EventId>)
    ensures |OwnIds(events, author, ids)| <= |ids|
    ensures OwnIds(events, author, ids) == ids[..|OwnIds(events, author, ids)|]
    ensures forall id :: id in OwnIds(events, author, ids) ==> !ForeignId(events, author, id)
    ensures OwnIds(events, author, ids) != ids
            ==> ForeignId(events, author, ids[|OwnIds(events, author, ids)|])
  {
    if ids != [] && !ForeignId(events, author, ids[0]) {
      OwnIdsPrefix(events, author, ids[1..]);
      assert ids == [ids[0]] + ids[1..];
    }
  }

  lemma {:induction false} OwnCoordinatesPrefix(author: PublicKey, cs: seq<Coordinate>)
    ensures |OwnCoordinates(author, cs)| <= |cs|
    ensures OwnCoordinates(author, cs) == cs[..|OwnCoordinates(author, cs)|]
    ensures forall c :: c in OwnCoordinates(author, cs) ==> c.author == author
    ensures OwnCoordinates(author, cs) != cs
            ==> cs[|OwnCoordinates(author, cs)|].author != author
  {
    if cs != [] && cs[0].author == author {
      OwnCoordinatesPrefix(author, cs[1..]);
      assert cs == [cs[0]] + cs[1..];
    }
  }

  lemma KeepFacts(capacity: Option<nat>, s: set<Event>)
    requires UniqueIds(s)
    ensures Keep(capacity, s) <= s
    ensures capacity.Some? ==> |Keep(capacity, s)| == Min(capacity.value, |s|)
    ensures DownClosed(Before, s, Keep(capacity, s))
    ensures capacity.None? || |s| <= capacity.value ==> Keep(capacity, s) == s
  {
    EventsOrdered(s);
    if capacity.Some? {
      FirstNSize(Before, s, capacity.value);
      FirstNDownClosed(Before, s, capacity.value);
      if |s| <= capacity.value { FirstNAll(Before, s, capacity.value); }
    }
  }

  /** A deletion request reaches only its own author's events. */
  lemma CoversOnlyOwn(events: set<Event>, d: Event, e: Event)
    requires e in events && Covers(events, d, e)
    ensures e.author == d.author && e.createdAt <= d.createdAt
  {
    OwnIdsPrefix(events, d.author, EventIds(d.tags));
    OwnCoordinatesPrefix(d.author, Coordinates(d.tags));
  }

  /** Dropping events, and forbidding only ids that are gone, keeps the store coherent. */
  lemma ShrinkCoherent(cfg: Config, st: State, st': State)
    requires Coherent(cfg, st) && st'.events <= st.events
    requires forall e :: e in st'.events ==> e.id !in st'.deletedIds
    ensures Coherent(cfg, st')
  {
    SubsetCard(st'.events, st.events);
  }

  /** Nothing stored competes with, forbids or is named like the event. */
  ghost predicate Fits(st: State, e: Event) {
    && (forall f :: f in st.events ==> f.id != e.id && !SameAddress(f, e))
    && e.id !in st.deletedIds
    && (IsAddressable(e.kind) ==> Identifier(e).Some?)
  }

  lemma AdmitCoherent(cfg: Config, st: State, e: Event)
    requires Coherent(cfg, st) && Fits(st, e)
    ensures Coherent(cfg, Admit(cfg, st, e))
  {
    assert UniqueIds(st.events + {e});
    KeepFacts(cfg.capacity, st.events + {e});
    forall a, b | a in st.events + {e} && b in st.events + {e} && SameAddress(a, b)
      ensures a == b
    {
      assert SameAddress(b, a);
    }
  }

  lemma ClearedFits(cfg: Config, st: State, e: Event, now: Timestamp)
    requires Coherent(cfg, st) && Refusal(st, e, now).None?
    requires IsAddressable(e.kind) ==> Identifier(e).Some?
    ensures Coherent(cfg, Cleared(cfg, st, e)) && Fits(Cleared(cfg, st, e), e)
  {
    KindsDisjoint(e.kind);
    var st' := Cleared(cfg, st, e);
    if IsDeletion(cfg, e) && !IsReplaceable(e.kind) && !IsAddressable(e.kind) {
      forall f | f in st'.events
        ensures f.id !in st'.deletedIds
      {
      }
    }
    ShrinkCoherent(cfg, st, st');
  }

  /** Every delivery keeps the store coherent. */
  lemma StepCoherent(cfg: Config, st: State, e: Event, now: Timestamp)
    requires Coherent(cfg, st)
    ensures Coherent(cfg, Step(cfg, st, e, now).0)
  {
    hide Refusal, Coherent, Fits, Cleared, Admit, Rivals, Overreaches, IsDeletion, Identifier, IsAddressable;
    if Refusal(st, e, now).None? && (IsAddressable(e.kind) ==> Identifier(e).Some?) {
      ClearedFits(cfg, st, e, now);
      AdmitCoherent(cfg, Cleared(cfg, st, e), e);
    }
  }

  lemma DeleteCoherent(cfg: Config, st: State, f: Filter)
    requires Coherent(cfg, st)
    ensures Coherent(cfg, Delete(st, f))
  {
    if f != EMPTY_FILTER {
      ShrinkCoherent(cfg, st, Delete(st, f));
    }
  }
}
