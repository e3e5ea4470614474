/**
  The in-memory store and the SQLite store against each other: fed the same events and
  filters they answer alike and hold the same, up to the first step at which one of the
  conditions found here fails.
*/
module StoresAgree {
  import opened Wrappers
  import opened Events
  import opened Order
  import opened Filters
  import opened MemoryQuery
  import Spec = MemorySpec
  import Sql = SqlStore
  import SqlFilter
  import opened SqlLimit
  import Runs = MemoryRuns
  import Convergence = MemoryConvergence

  /** Both hold the same events and the same tombstones. */
  ghost predicate SameContents(st: Spec.State, t: Sql.Tables) {
    && st.events == t.events && st.deletedIds == t.deletedIds && st.vanished == t.vanished
    && st.deletedAt.Keys == t.deletedAt.Keys
    && forall c :: c in st.deletedAt ==> st.deletedAt[c] == t.deletedAt[c]
  }

  ghost predicate InStep(cfg: Spec.Config, st: Spec.State, t: Sql.Tables) {
    SameContents(st, t) && Spec.Coherent(cfg, st) && Sql.WellFormed(t) && Sql.OnePerAddress(t)
  }

  // ---- deletion requests ----

  /** No coordinate the request names has an earlier deletion on record. */
  predicate NoEarlierDeletion(t: Sql.Tables, d: Event) {
    forall c | c in Coordinates(d.tags) && c in t.deletedAt :: d.createdAt <= t.deletedAt[c]
  }

  /** The coordinate of an event's kind that has no identifier. */
  function Bare(e: Event): Coordinate { Coordinate(e.kind, e.author, "") }

  /**
    The stores read these coordinates differently: SQLite takes a replaceable one with an
    identifier for the event, and the in-memory store one without an identifier for every
    event of the kind.
  */
  predicate ReadDifferently(cs: seq<Coordinate>, e: Event) {
    if IsReplaceable(e.kind) then
      Bare(e) !in cs && exists c | c in cs :: c.kind == e.kind && c.author == e.author
    else
      Bare(e) in cs && (IsAddressable(e.kind) ==> CoordinateOf(e).value !in cs)
  }

  /** SQLite does not look at the time of a request that names an id. */
  predicate ReachAlike(d: Event, e: Event) {
    if e.id in EventIds(d.tags) then e.createdAt <= d.createdAt
    else e.createdAt <= d.createdAt ==> !ReadDifferently(Coordinates(d.tags), e)
  }

  predicate AllReachedAlike(t: Sql.Tables, d: Event) { forall e | e in t.events :: ReachAlike(d, e) }

  /** Both stores find the same fault with a request. */
  lemma SameOverreach(st: Spec.State, t: Sql.Tables, d: Event)
    requires st.events == t.events
    ensures Spec.Overreaches(st.events, d) <==> Sql.Overreaches(t, d)
  {
    var ids, cs := EventIds(d.tags), Coordinates(d.tags);
    Spec.OwnIdsPrefix(st.events, d.author, ids);
    Spec.OwnCoordinatesPrefix(d.author, cs);
    if forall id :: id in ids ==> !Spec.ForeignId(st.events, d.author, id) {
      Convergence.AllOwnIds(st.events, d.author, ids);
    }
    if forall c :: c in cs ==> c.author == d.author {
      Convergence.AllOwn(d.author, cs);
    }
    assert forall id :: Spec.ForeignId(st.events, d.author, id) <==> Sql.Foreign(t, d.author, id);
  }

  /** The identifier in the tag table is the one the event is indexed by. */
  lemma SameIdentifier(t: Sql.Tables, e: Event, identifier: string)
    requires Sql.WellFormed(t) && Sql.OnePerAddress(t) && e in t.events && IsAddressable(e.kind)
    ensures Sql.HasIdentifierRow(t.tags, e, identifier) <==> Identifier(e) == Some(identifier)
  {
    assert ['d'] == "d";
    Sql.IdentifierIsTag(e);
    Sql.RowIffTag(t.events, t.tags, e, 'd', identifier);
  }

  ghost predicate NamedInMemory(cs: seq<Coordinate>, e: Event) { exists c :: c in cs && Spec.Targets(c, e) }

  ghost predicate NamedInTables(t: Sql.Tables, cs: seq<Coordinate>, until: int, e: Event) {
    exists c :: c in cs && Sql.Targets(t, c, until, e)
  }

  lemma NamedInMemoryIff(cs: seq<Coordinate>, e: Event)
    requires IsAddressable(e.kind) ==> Identifier(e).Some?
    ensures NamedInMemory(cs, e) <==> Bare(e) in cs || (IsAddressable(e.kind) && CoordinateOf(e).value in cs)
  {
    forall c | Spec.Targets(c, e)
      ensures c == Bare(e) || (IsAddressable(e.kind) && c == CoordinateOf(e).value)
    {
    }
    assert Spec.Targets(Bare(e), e);
    if IsAddressable(e.kind) {
      assert Spec.Targets(CoordinateOf(e).value, e);
    }
  }

  lemma NamedInTablesIff(t: Sql.Tables, cs: seq<Coordinate>, until: int, e: Event)
    requires Sql.WellFormed(t) && Sql.OnePerAddress(t) && e in t.events
    ensures NamedInTables(t, cs, until, e) <==>
            e.createdAt <= until &&
            if IsReplaceable(e.kind) then exists c :: c in cs && c.kind == e.kind && c.author == e.author
            else IsAddressable(e.kind) && CoordinateOf(e).value in cs
  {
    KindsDisjoint(e.kind);
    if IsAddressable(e.kind) {
      forall identifier
        ensures Sql.HasIdentifierRow(t.tags, e, identifier) <==> Identifier(e) == Some(identifier)
      {
        SameIdentifier(t, e, identifier);
      }
      hide Sql.HasIdentifierRow, Identifier, Sql.WellFormed, Sql.OnePerAddress;
      forall c: Coordinate
        ensures Sql.Targets(t, c, until, e) <==> e.createdAt <= until && c == CoordinateOf(e).value
      {
      }
    }
  }

  lemma NamedAlikeIff(t: Sql.Tables, cs: seq<Coordinate>, until: int, e: Event)
    requires Sql.WellFormed(t) && Sql.OnePerAddress(t) && e in t.events && e.createdAt <= until
    ensures (NamedInMemory(cs, e) <==> NamedInTables(t, cs, until, e)) <==> !ReadDifferently(cs, e)
  {
    KindsDisjoint(e.kind);
    NamedInMemoryIff(cs, e);
    NamedInTablesIff(t, cs, until, e);
    hide NamedInMemory, NamedInTables, Sql.WellFormed;
  }

  /** What the two stores remove for a request they both honour. */
  lemma RemovedAlikeIff(cfg: Spec.Config, st: Spec.State, t: Sql.Tables, d: Event, e: Event)
    requires InStep(cfg, st, t) && SqlFilter.Recordable(d) && !Spec.Overreaches(st.events, d) && e in t.events
    ensures e in Sql.Deleted(t, d) <==>
            e.id in EventIds(d.tags) || NamedInTables(t, Coordinates(d.tags), d.createdAt, e)
    ensures Spec.Covers(st.events, d, e) <==>
            e.createdAt <= d.createdAt && (e.id in EventIds(d.tags) || NamedInMemory(Coordinates(d.tags), e))
    ensures (Spec.Covers(st.events, d, e) <==> e in Sql.Deleted(t, d)) <==> ReachAlike(d, e)
  {
    var cs := Coordinates(d.tags);
    hide Spec.Targets, Sql.Targets, Sql.HasIdentifierRow, Spec.OwnIds, Spec.OwnCoordinates, ReadDifferently;
    hide Coordinates, EventIds;
    if e.createdAt <= d.createdAt {
      NamedAlikeIff(t, cs, d.createdAt, e);
    } else {
      NotNamedLate(t, cs, d.createdAt, e);
    }
  }

  lemma NotNamedLate(t: Sql.Tables, cs: seq<Coordinate>, until: int, e: Event)
    requires SqlFilter.Recordable(e) && until < e.createdAt
    ensures !NamedInTables(t, cs, until, e)
  {
  }

  /** A request both honour leaves the same events if and only if it reaches every one alike. */
  lemma SameEventsIff(cfg: Spec.Config, st: Spec.State, t: Sql.Tables, d: Event)
    requires InStep(cfg, st, t) && SqlFilter.Recordable(d) && !Spec.Overreaches(st.events, d)
    ensures Spec.AfterDeletion(st, d).events == Sql.AfterDeletion(t, d).events <==> AllReachedAlike(t, d)
    ensures AllReachedAlike(t, d) ==> Spec.AfterDeletion(st, d).deletedIds == Sql.AfterDeletion(t, d).deletedIds
  {
    forall e | e in t.events
      ensures (Spec.Covers(st.events, d, e) <==> e in Sql.Deleted(t, d)) <==> ReachAlike(d, e)
      ensures Spec.CoversById(st.events, d, e) <==> e.createdAt <= d.createdAt && e.id in EventIds(d.tags)
    {
      RemovedAlikeIff(cfg, st, t, d, e);
    }
    var a, b := Spec.AfterDeletion(st, d), Sql.AfterDeletion(t, d);
    hide Spec.Covers, Spec.CoversById, Sql.Deleted, ReachAlike, EventIds, Coordinates, Spec.Overreaches;
    hide Spec.Raise, Sql.Mark, Spec.Coherent, Sql.WellFormed, Sql.OnePerAddress;
    assert forall e :: e in b.events <==> e in t.events && e !in Sql.Deleted(t, d);
    assert forall e :: e in a.events <==> e in t.events && !Spec.Covers(st.events, d, e);
  }

  /**
    A request both honour leaves the same events if and only if it reaches every stored one
    alike, and the same tombstones too if and only if no coordinate has an earlier deletion.
  */
  lemma DeletionAgreesIff(cfg: Spec.Config, st: Spec.State, t: Sql.Tables, d: Event)
    requires InStep(cfg, st, t) && SqlFilter.Recordable(d) && !Sql.Overreaches(t, d)
    ensures Spec.AfterDeletion(st, d).events == Sql.AfterDeletion(t, d).events <==> AllReachedAlike(t, d)
    ensures SameContents(Spec.AfterDeletion(st, d), Sql.AfterDeletion(t, d))
            <==> AllReachedAlike(t, d) && NoEarlierDeletion(t, d)
  {
    SameOverreach(st, t, d);
    SameEventsIff(cfg, st, t, d);
    SameTimesIff(st, t, d);
    hide AllReachedAlike, Spec.Covers, Sql.Deleted, NoEarlierDeletion, Coordinates, EventIds;
    hide Spec.Raise, Sql.Mark, Spec.CoveredIds, Spec.Coherent, Sql.WellFormed, Sql.OnePerAddress;
    hide Spec.OwnIds, Sql.Foreign;
  }

  /** With canonical coordinates, only a named id newer than the request tells the stores apart. */
  lemma CanonicalDeletionAgreesIff(cfg: Spec.Config, st: Spec.State, t: Sql.Tables, d: Event)
    requires InStep(cfg, st, t) && SqlFilter.Recordable(d) && !Sql.Overreaches(t, d)
    requires forall c :: c in Coordinates(d.tags) ==> Convergence.Canonical(c)
    ensures Spec.AfterDeletion(st, d).events == Sql.AfterDeletion(t, d).events
            <==> forall e :: e in t.events && e.id in EventIds(d.tags) ==> e.createdAt <= d.createdAt
  {
    DeletionAgreesIff(cfg, st, t, d);
    forall e
      ensures !ReadDifferently(Coordinates(d.tags), e)
    {
      KindsDisjoint(e.kind);
    }
    hide ReadDifferently, Spec.AfterDeletion, Sql.AfterDeletion;
  }

  /** An own event newer than the request that names its id: kept in memory and gone from the tables. */
  lemma NewerThanItsRequest()
    ensures exists cfg: Spec.Config, st: Spec.State, t: Sql.Tables, d: Event, e: Event ::
              && InStep(cfg, st, t) && SqlFilter.Recordable(d) && !Sql.Overreaches(t, d)
              && e in Spec.AfterDeletion(st, d).events && e !in Sql.AfterDeletion(t, d).events
  {
    var cfg := Spec.Config(true, true, None, None);
    var e := Event(1, "a", 2, 1, [], "");
    var d := Event(2, "a", 1, EVENT_DELETION, [Tag("e", Some("1"), EventRef(1))], "");
    Convergence.OneId(d, 1);
    var st := Spec.State({e}, {}, map[], {});
    var t := Sql.Tables({e}, {}, {}, map[], {});
    assert InStep(cfg, st, t) by { OneEventInStep(cfg, e); }
    hide InStep, EventIds, Coordinates, Spec.OwnIds, Spec.OwnCoordinates, Sql.Targets, Spec.Targets;
    hide Spec.Raise, Sql.Mark;
    assert e in t.events && e.id in EventIds(d.tags);
    assert e in Spec.AfterDeletion(st, d).events && e in Sql.Deleted(t, d);
    assert !Sql.Overreaches(t, d);
  }

  lemma OneEventInStep(cfg: Spec.Config, e: Event)
    requires cfg.capacity.None? && SqlFilter.Recordable(e) && e.tags == [] && !IsAddressable(e.kind)
    ensures InStep(cfg, Spec.State({e}, {}, map[], {}), Sql.Tables({e}, {}, {}, map[], {}))
  {
  }

  lemma SameTimesIff(st: Spec.State, t: Sql.Tables, d: Event)
    requires SameContents(st, t) && SqlFilter.Recordable(d)
    ensures var raised, marked := Spec.Raise(st.deletedAt, Coordinates(d.tags), d.createdAt),
                                  Sql.Mark(t.deletedAt, Coordinates(d.tags), Sql.StoredTime(d.createdAt));
            && raised.Keys == marked.Keys
            && ((forall c :: c in raised ==> raised[c] == marked[c]) <==> NoEarlierDeletion(t, d))
  {
    var raised, marked := Spec.Raise(st.deletedAt, Coordinates(d.tags), d.createdAt),
                          Sql.Mark(t.deletedAt, Coordinates(d.tags), Sql.StoredTime(d.createdAt));
    forall c | c in Coordinates(d.tags) && c in t.deletedAt
      ensures raised[c] == marked[c] <==> d.createdAt <= t.deletedAt[c]
    {
    }
  }

  lemma SameVanish(cfg: Spec.Config, st: Spec.State, t: Sql.Tables, author: PublicKey)
    requires InStep(cfg, st, t)
    ensures SameContents(Spec.AfterVanish(st, author), Sql.AfterVanish(t, author))
  {
    forall e | e in t.events
      ensures TagRowHeld(t, e, author) <==> HasTag(e, 'p', author)
    {
      assert ['p'] == "p";
      Sql.RowIffTag(t.events, t.tags, e, 'p', author);
    }
  }

  ghost predicate TagRowHeld(t: Sql.Tables, e: Event, author: PublicKey) {
    SqlFilter.TagRow(e.id, "p", author) in t.tags
  }

  // ---- one save ----

  /** A request that is refused for what it names removes nothing and raises no time in memory either. */
  ghost predicate Void(st: Spec.State, d: Event) {
    && (forall e :: e in st.events ==> !Spec.Covers(st.events, d, e))
    && (forall c :: c in Spec.OwnCoordinates(d.author, Coordinates(d.tags)) ==>
          c in st.deletedAt && d.createdAt <= st.deletedAt[c])
  }

  /** What an event neither store refuses must be like for both to take it alike. */
  ghost predicate TakenAlike(cfg: Spec.Config, st: Spec.State, t: Sql.Tables, e: Event, existing: Option<Event>) {
    if existing.Some? && Sql.ReplacedBy(existing.value, e) then e.createdAt < SqlFilter.I64_LIMIT
    else if Spec.IsDeletion(cfg, e) && Sql.Overreaches(t, e) then Void(st, e)
    else SqlFilter.Recordable(e) && (Spec.IsDeletion(cfg, e) ==> AllReachedAlike(t, e) && NoEarlierDeletion(t, e))
  }

  ghost predicate SavedAlike(
      cfg: Spec.Config, st: Spec.State, t: Sql.Tables, e: Event, existing: Option<Event>, now: Timestamp)
  {
    || Sql.Refusal(t, e).Some?
    || (&& !IsExpiredAt(e, now) && (IsAddressable(e.kind) ==> Identifier(e).Some?)
        && TakenAlike(cfg, st, t, e, existing))
  }

  lemma SameRefusal(st: Spec.State, t: Sql.Tables, e: Event, now: Timestamp)
    requires SameContents(st, t)
    ensures Spec.Refusal(st, e, now) ==
            if Sql.Refusal(t, e).None? && IsExpiredAt(e, now) then Some(Spec.Expired) else Sql.Refusal(t, e)
  {
  }

  /** The row the save found is the one event that competes with the newcomer. */
  lemma SameRival(cfg: Spec.Config, st: Spec.State, t: Sql.Tables, e: Event, existing: Option<Event>)
    requires InStep(cfg, st, t) && Sql.FoundIn(t, e, existing) && forall f :: f in t.events ==> f.id != e.id
    ensures Spec.Rivals(st.events, e) == if existing.Some? then {existing.value} else {}
    ensures existing.Some? ==>
      (Sql.ReplacedBy(existing.value, e) <==> e.createdAt >= SqlFilter.I64_LIMIT || !Before(e, existing.value))
  {
    Sql.CandidatesAreRivals(t, e);
    if existing.Some? {
      forall f | f in Spec.Rivals(st.events, e)
        ensures f == existing.value
      {
        assert Spec.SameAddress(f, existing.value);
      }
    }
  }

  /** The removals a save causes leave the same behind. */
  lemma ClearedAgreeIff(cfg: Spec.Config, st: Spec.State, t: Sql.Tables, e: Event, existing: Option<Event>)
    requires InStep(cfg, st, t) && Sql.FoundIn(t, e, existing) && SqlFilter.Recordable(e)
    requires Spec.Rivals(st.events, e) == if existing.Some? then {existing.value} else {}
    requires Spec.IsDeletion(cfg, e) ==> !Sql.Overreaches(t, e)
    ensures SameContents(Spec.Cleared(cfg, st, e), Sql.Cleared(cfg, t, e, existing))
            <==> (Spec.IsDeletion(cfg, e) ==> AllReachedAlike(t, e) && NoEarlierDeletion(t, e))
  {
    KindsDisjoint(e.kind);
    if Spec.IsDeletion(cfg, e) {
      DeletionAgreesIff(cfg, st, t, e);
    } else if Spec.IsVanish(cfg, e) {
      SameVanish(cfg, st, t, e.author);
    }
  }

  /** Both stores put a new event among what is left. */
  lemma AddedAgreeIff(cfg: Spec.Config, st: Spec.State, t: Sql.Tables, e: Event)
    requires cfg.capacity.None? && (forall f :: f in st.events ==> f != e) && (forall f :: f in t.events ==> f != e)
    ensures SameContents(Spec.Admit(cfg, st, e), Sql.Inserted(t, e)) <==> SameContents(st, t)
  {
    assert st.events + {e} - {e} == st.events && t.events + {e} - {e} == t.events;
  }

  ghost predicate OneSaveAlike(
      cfg: Spec.Config, st: Spec.State, t: Sql.Tables, e: Event, existing: Option<Event>, now: Timestamp)
  {
    && Spec.Step(cfg, st, e, now).1 == Sql.Save(cfg, t, e, existing).1
    && SameContents(Spec.Step(cfg, st, e, now).0, Sql.Save(cfg, t, e, existing).0)
  }

  /** An event past the replacement check, not an overreaching request, goes in. */
  lemma GoesInAlikeIff(
      cfg: Spec.Config, st: Spec.State, t: Sql.Tables, e: Event, existing: Option<Event>, now: Timestamp)
    requires cfg.capacity.None? && InStep(cfg, st, t) && Sql.FoundIn(t, e, existing)
    requires Spec.Refusal(st, e, now).None? && Sql.Refusal(t, e).None?
    requires IsAddressable(e.kind) ==> Identifier(e).Some?
    requires Spec.Rivals(st.events, e) == if existing.Some? then {existing.value} else {}
    requires existing.Some? ==> !Sql.ReplacedBy(existing.value, e) && Before(e, existing.value)
    requires Spec.IsDeletion(cfg, e) ==> !Spec.Overreaches(st.events, e) && !Sql.Overreaches(t, e)
    ensures OneSaveAlike(cfg, st, t, e, existing, now) <==>
            SqlFilter.Recordable(e)
            && (Spec.IsDeletion(cfg, e) ==> AllReachedAlike(t, e) && NoEarlierDeletion(t, e))
  {
    assert forall f :: f in t.events ==> f.id != e.id;
    Sql.ClearedFacts(cfg, t, e, existing);
    if SqlFilter.Recordable(e) {
      ClearedAgreeIff(cfg, st, t, e, existing);
      AddedAgreeIff(cfg, Spec.Cleared(cfg, st, e), Sql.Cleared(cfg, t, e, existing), e);
    }
    assert Sql.Insertable(e) <==> SqlFilter.Recordable(e);
    assert Spec.Cleared(cfg, st, e).events <= st.events;
    hide Spec.Refusal, Sql.Refusal, Spec.Rivals, Spec.Cleared, Sql.Cleared, InStep, SameContents, Sql.FoundIn;
    hide Spec.Overreaches, Sql.Overreaches, Spec.Admit, Sql.Inserted, AllReachedAlike, NoEarlierDeletion;
    hide Sql.ReplacedBy, Before, Sql.Insertable, SqlFilter.Recordable, Identifier, Spec.IsDeletion;
  }

  /** A request that names what is not its author's is void in SQLite. */
  lemma VoidAlikeIff(
      cfg: Spec.Config, st: Spec.State, t: Sql.Tables, d: Event, existing: Option<Event>, now: Timestamp)
    requires InStep(cfg, st, t) && Sql.FoundIn(t, d, existing) && Spec.IsDeletion(cfg, d) && Sql.Overreaches(t, d)
    requires Spec.Refusal(st, d, now).None? && Sql.Refusal(t, d).None?
    ensures OneSaveAlike(cfg, st, t, d, existing, now) <==> Void(st, d)
  {
    KindsDisjoint(d.kind);
    SameOverreach(st, t, d);
    assert Spec.Rivals(st.events, d) == {} && existing.None?;
    hide Spec.Rivals, Spec.Overreaches, Sql.Overreaches, Spec.AfterDeletion, Spec.Refusal, Sql.Refusal, Spec.Covers;
    hide Coordinates, EventIds, Spec.OwnCoordinates;
    Runs.RejectedDeletionIsVoidIff(cfg, st, d, now);
    assert SameContents(Spec.Step(cfg, st, d, now).0, t) <==> Spec.Step(cfg, st, d, now).0 == st;
  }

  lemma TakenAlikeIff(
      cfg: Spec.Config, st: Spec.State, t: Sql.Tables, e: Event, existing: Option<Event>, now: Timestamp)
    requires cfg.capacity.None? && InStep(cfg, st, t) && Sql.FoundIn(t, e, existing)
    requires Spec.Refusal(st, e, now).None? && Sql.Refusal(t, e).None?
    requires IsAddressable(e.kind) ==> Identifier(e).Some?
    ensures OneSaveAlike(cfg, st, t, e, existing, now) <==> TakenAlike(cfg, st, t, e, existing)
  {
    KindsDisjoint(e.kind);
    assert forall f :: f in t.events ==> f.id != e.id;
    SameRival(cfg, st, t, e, existing);
    SameOverreach(st, t, e);
    if existing.Some? && Sql.ReplacedBy(existing.value, e) {
      ReplacedAlikeIff(cfg, st, t, e, existing.value, now);
    } else if Spec.IsDeletion(cfg, e) && Sql.Overreaches(t, e) {
      VoidAlikeIff(cfg, st, t, e, existing, now);
    } else {
      GoesInAlikeIff(cfg, st, t, e, existing, now);
    }
  }

  /** SQLite turns an event away for an older one when its own time reads as negative. */
  lemma ReplacedAlikeIff(
      cfg: Spec.Config, st: Spec.State, t: Sql.Tables, e: Event, f: Event, now: Timestamp)
    requires SameContents(st, t) && Sql.ReplacedBy(f, e)
    requires Spec.Refusal(st, e, now).None? && Sql.Refusal(t, e).None?
    requires IsAddressable(e.kind) ==> Identifier(e).Some?
    requires Spec.Rivals(st.events, e) == {f} && SqlFilter.Recordable(f) && e.kind != EVENT_DELETION
    requires Sql.ReplacedBy(f, e) <==> e.createdAt >= SqlFilter.I64_LIMIT || !Before(e, f)
    ensures OneSaveAlike(cfg, st, t, e, Some(f), now) <==> e.createdAt < SqlFilter.I64_LIMIT
  {
    hide Spec.Rivals, Spec.Refusal, Sql.Refusal, Sql.ReplacedBy, Spec.Cleared, Identifier;
    assert e.createdAt >= SqlFilter.I64_LIMIT ==> Before(e, f);
    assert Sql.Save(cfg, t, e, Some(f)) == (t, Spec.Rejected(Spec.Replaced));
  }

  /**
    The two stores answer one event alike and hold the same afterwards if and only if both
    refuse it, or it has not expired, has its identifier, and is taken alike.
  */
  lemma OneSaveAgreesIff(
      cfg: Spec.Config, st: Spec.State, t: Sql.Tables, e: Event, existing: Option<Event>, now: Timestamp)
    requires cfg.capacity.None? && InStep(cfg, st, t) && Sql.FoundIn(t, e, existing)
    ensures OneSaveAlike(cfg, st, t, e, existing, now) <==> SavedAlike(cfg, st, t, e, existing, now)
  {
    SameRefusal(st, t, e, now);
    assert SameContents(st, t);
    hide InStep, Sql.FoundIn, TakenAlike, Spec.Cleared, Sql.Cleared, Spec.Admit, Sql.Inserted, Spec.Rivals;
    hide Spec.Refusal, Sql.Refusal, Sql.ReplacedBy, Spec.Overreaches, Sql.Overreaches, Identifier, IsExpiredAt;
    if Sql.Refusal(t, e).None? && !IsExpiredAt(e, now) && (IsAddressable(e.kind) ==> Identifier(e).Some?) {
      TakenAlikeIff(cfg, st, t, e, existing, now);
    }
  }

  // ---- queries ----

  lemma IdentifiersDecide(cfg: Spec.Config, st: Spec.State, t: Sql.Tables)
    requires InStep(cfg, st, t)
    ensures OneIdentifierEach(st.events)
  {
    forall e, x | e in st.events && IsAddressable(e.kind) && x in e.tags && x.name == "d" && x.content.Some?
      ensures x.content == Identifier(e)
    {
      assert ['d'] == "d";
      assert HasTag(e, 'd', x.content.value);
    }
  }

  /** The stored events the compiled query selects. */
  ghost function Chosen(t: Sql.Tables, f: Filter): set<Event> { set e | e in t.events && SqlFilter.Selected(f, e) }

  /** Those a search finds in their tags and not in their content. */
  ghost function TagOnly(f: Filter, events: set<Event>): set<Event> {
    set e | e in events && SqlFilter.FoundByTagOnly(f, e)
  }

  /**
    A filter both stores read alike, apart from where they search: no tag without values,
    times in range, at most one address value, no empty search text.
  */
  ghost predicate Shared(f: Filter) {
    && SqlFilter.TagSetsFilled(f) && SqlFilter.TimesFit(f) && f.search != Some("")
    && (PlanOf(f).ByAddress? ==> ExactlyOneIdentifier(f))
  }

  /** What such a filter selects, and what the in-memory query returns. */
  lemma SameMatching(cfg: Spec.Config, st: Spec.State, t: Sql.Tables, f: Filter)
    requires InStep(cfg, st, t) && Shared(f)
    ensures Chosen(t, f) == Matching(f, st.events) + TagOnly(f, st.events)
    ensures Matching(f, st.events) !! TagOnly(f, st.events)
    ensures UniqueIds(Matching(f, st.events) + TagOnly(f, st.events))
    ensures Query(f, st.events) == Take(Matching(f, st.events), f.limit)
  {
    hide Matches, SqlFilter.Selected, SqlFilter.FoundByTagOnly, Query, PlanOf;
    IdentifiersDecide(cfg, st, t);
    PlannerAgrees(f, st.events);
    forall e
      ensures SqlFilter.Selected(f, e) <==> Matches(f, e) || SqlFilter.FoundByTagOnly(f, e)
      ensures !(Matches(f, e) && SqlFilter.FoundByTagOnly(f, e))
    {
      SqlFilter.SelectedIsFound(f, e);
    }
  }

  /** The limit the store sets does not change which rows a filter selects. */
  lemma SameRows(t: Sql.Tables, f: Filter, verb: SqlFilter.Verb, q: SqlFilter.Query)
    requires Sql.WellFormed(t) && verb != SqlFilter.Delete
    requires f.limit.Some? ==> f.limit.value < 2 * SqlFilter.I64_LIMIT
    requires SqlFilter.CompiledFor(WithLimit(f, EVENTS_QUERY_LIMIT), verb, q)
    ensures SqlFilter.Rows(t.events, t.tags, q) == Chosen(t, f)
    ensures q.verb == verb && SqlFilter.Limit(q) == LimitOf(WithLimit(f, EVENTS_QUERY_LIMIT))
  {
    var g := WithLimit(f, EVENTS_QUERY_LIMIT);
    SqlFilter.RowsAreSelected(t.events, t.tags, g, verb, q);
    hide SqlFilter.Rows, SqlFilter.Decides, PlanOf, ContentMatches, SqlFilter.TagContains;
    forall e
      ensures SqlFilter.Selected(g, e) <==> SqlFilter.Selected(f, e)
    {
    }
  }

  /**
    Any filter at all: whatever SQLite may return is the in-memory result if and only if that
    fills the limit of the rows chosen and is newer than the rest of them.
  */
  lemma AnyQueryAgreesIff(cfg: Spec.Config, st: Spec.State, t: Sql.Tables, f: Filter, q: SqlFilter.Query)
    requires InStep(cfg, st, t) && (f.limit.Some? ==> f.limit.value < 2 * SqlFilter.I64_LIMIT)
    requires SqlFilter.CompiledFor(WithLimit(f, EVENTS_QUERY_LIMIT), SqlFilter.Select, q)
    ensures (forall result :: SqlFilter.MayReturn(t.events, t.tags, q, result)
                              ==> ElementsOf(result) == Query(f, st.events))
            <==> Leads(Query(f, st.events), Chosen(t, f),
                       if f.limit.None? then Some(10_000)
                       else if f.limit.value < 9_223_372_036_854_775_808 then f.limit
                       else None)
  {
    assert UniqueIds(Chosen(t, f));
    hide SqlFilter.CompiledFor, SqlFilter.MayReturn, SqlFilter.Rows, EveryCutIs, Query, Chosen, SqlFilter.Limit;
    hide ElementsOf, Leads;
    SameRows(t, f, SqlFilter.Select, q);
    ReturnsCuts(t.events, t.tags, q, Query(f, st.events));
    EveryCutIsIff(Chosen(t, f), LimitOf(WithLimit(f, EVENTS_QUERY_LIMIT)), Query(f, st.events));
  }

  /**
    A filter both read alike. With no event a search finds by a tag alone, all SQLite may return
    is the in-memory result if and only if nothing is cut off, or the limit is the filter's own
    and fits, and no time is on both sides of the cut. With one, if and only if the matches fill
    the limit and those asked for are newer than all else that is found.
  */
  lemma QueriesAgreeIff(cfg: Spec.Config, st: Spec.State, t: Sql.Tables, f: Filter, q: SqlFilter.Query)
    requires InStep(cfg, st, t) && Shared(f) && (f.limit.Some? ==> f.limit.value < 2 * SqlFilter.I64_LIMIT)
    requires SqlFilter.CompiledFor(WithLimit(f, EVENTS_QUERY_LIMIT), SqlFilter.Select, q)
    ensures var s, x := Matching(f, st.events), TagOnly(f, st.events);
            var n := if f.limit.Some? then f.limit.value else 10_000;
            (forall result :: SqlFilter.MayReturn(t.events, t.tags, q, result)
                              ==> ElementsOf(result) == Query(f, st.events))
            <==> if x == {} then |s| <= n || (f.limit.Some? && n < 9_223_372_036_854_775_808 && NoTieAtCut(s, n))
                 else && n <= |s| && n < 9_223_372_036_854_775_808 && (f.limit.None? ==> |s| == n)
                      && NewerThanRest(Take(s, f.limit), s + x)
  {
    hide SqlFilter.CompiledFor, SqlFilter.MayReturn, SqlFilter.Rows, EveryCutIs, Query, PlanOf, Matches, FirstN;
    hide SqlFilter.TagSetsFilled, SqlFilter.TimesFit, NoTieAtCut, SqlFilter.Limit, ElementsOf, Chosen, NewerThanRest;
    hide SqlFilter.FoundByTagOnly;
    var s, x := Matching(f, st.events), TagOnly(f, st.events);
    SameMatching(cfg, st, t, f);
    SameRows(t, f, SqlFilter.Select, q);
    ReturnsCuts(t.events, t.tags, q, Query(f, st.events));
    if x == {} {
      assert s + x == s;
      LimitedAnswersIff(s, f);
    } else {
      LimitedAnswersAmongIff(s, x, f);
    }
  }

  /**
    Counting under a limit, SQLite counts past it. The counts agree just when no event is found
    by a tag alone, and the filter has no limit, or it is positive and cuts nothing off.
  */
  lemma CountsAgreeIff(cfg: Spec.Config, st: Spec.State, t: Sql.Tables, f: Filter, q: SqlFilter.Query)
    requires InStep(cfg, st, t) && Shared(f) && (f.limit.Some? ==> f.limit.value < 2 * SqlFilter.I64_LIMIT)
    requires SqlFilter.CompiledFor(WithLimit(f, EVENTS_QUERY_LIMIT), SqlFilter.Count, q)
    ensures q.verb == SqlFilter.Count
    ensures SqlFilter.CountRows(t.events, t.tags, q) == [|Query(f, st.events)|]
            <==> && TagOnly(f, st.events) == {}
                 && (f.limit.None? || (f.limit.value > 0 && |Matching(f, st.events)| <= f.limit.value))
  {
    hide SqlFilter.CompiledFor, SqlFilter.Rows, Query, PlanOf, Matches, FirstN, Chosen;
    hide SqlFilter.TagSetsFilled, SqlFilter.TimesFit, SqlFilter.Limit, SqlFilter.FoundByTagOnly;
    var s, x := Matching(f, st.events), TagOnly(f, st.events);
    SameMatching(cfg, st, t, f);
    SameRows(t, f, SqlFilter.Count, q);
    TakeSize(s, f.limit);
    assert |s + x| == |s| + |x|;
  }

  // ---- deletes and wipes ----

  predicate NoTombstones(t: Sql.Tables) { t.deletedIds == {} && t.deletedAt == map[] && t.vanished == {} }

  /**
    What a filtered delete must be like for both stores to remove the same. SQLite ignores its
    limit, and finds events by a tag alone; an empty filter forgets the tombstones in memory.
  */
  ghost predicate RemovedAlike(st: Spec.State, t: Sql.Tables, f: Filter) {
    if f == EMPTY_FILTER then NoTombstones(t)
    else if Shared(f) then
      TagOnly(f, st.events) == {} && (f.limit.None? || |Matching(f, st.events)| <= f.limit.value)
    else Chosen(t, f) == Query(f, st.events)
  }

  lemma DeletesAgreeIff(cfg: Spec.Config, st: Spec.State, t: Sql.Tables, f: Filter)
    requires InStep(cfg, st, t)
    ensures SameContents(Spec.Delete(st, f), Sql.AfterRemoval(t, f)) <==> RemovedAlike(st, t, f)
  {
    hide SqlFilter.Selected, SqlFilter.FoundByTagOnly, Matches, Spec.Coherent, Sql.WellFormed, Sql.OnePerAddress;
    if f == EMPTY_FILTER {
      EverythingChosen(t);
    } else {
      QueryStored(f, st.events);
      if Shared(f) {
        SharedChoiceIff(cfg, st, t, f);
      }
      hide Query, Matching, Shared, TagOnly;
      assert t.events - Chosen(t, f) == t.events - Query(f, st.events) <==> Chosen(t, f) == Query(f, st.events) by {
        assert t.events - (t.events - Chosen(t, f)) == Chosen(t, f);
        assert t.events - (t.events - Query(f, st.events)) == Query(f, st.events);
      }
    }
  }

  lemma SharedChoiceIff(cfg: Spec.Config, st: Spec.State, t: Sql.Tables, f: Filter)
    requires InStep(cfg, st, t) && Shared(f)
    ensures Chosen(t, f) == Query(f, st.events) <==>
            TagOnly(f, st.events) == {} && (f.limit.None? || |Matching(f, st.events)| <= f.limit.value)
  {
    hide Query, PlanOf, Matches, FirstN, Chosen, SqlFilter.FoundByTagOnly, SqlFilter.TagSetsFilled, SqlFilter.TimesFit;
    var s, x := Matching(f, st.events), TagOnly(f, st.events);
    SameMatching(cfg, st, t, f);
    assert UniqueIds(s);
    TakeSize(s, f.limit);
    hide UniqueIds, Take;
    if x == {} {
      assert s + x == s;
    } else {
      var e :| e in x;
      assert e in s + x && e !in s;
    }
  }

  lemma QueryStored(f: Filter, events: set<Event>)
    ensures Query(f, events) <= events
  {
    hide Matches, HasAddress, InWindow, PlanOf;
  }

  lemma EverythingChosen(t: Sql.Tables)
    ensures Chosen(t, EMPTY_FILTER) == t.events
  {
  }

  /** A wipe leaves the same if and only if no key has vanished: SQLite does not forget those. */
  lemma WipesAgreeIff(t: Sql.Tables)
    ensures SameContents(Spec.EMPTY_STATE, Sql.AfterWipe(t)) <==> t.vanished == {}
  {
  }

  // ---- whole runs ----

  /** One operation, as each of the stores is given it. */
  ghost predicate Paired(cfg: Spec.Config, run: seq<Sql.Op>, op: Runs.Op, k: nat)
    requires k < |run|
  {
    match (op, run[k])
    case (Deliver(e, _), Saved(e', existing)) =>
      && e == e' && Sql.FoundIn(Sql.Run(cfg, run[..k]), e, existing)
      && (IsAddressable(e.kind) ==> Sql.OneIdentifierTag(e))
    case (DeleteMatching(f), Removed(f')) => f == f'
    case (Clear, Wiped) => true
    case _ => false
  }

  ghost predicate AllPaired(cfg: Spec.Config, ops: seq<Runs.Op>, run: seq<Sql.Op>) {
    |ops| == |run| && forall k :: 0 <= k < |ops| ==> Paired(cfg, run, ops[k], k)
  }

  /** What an operation must be like for both stores to do the same, given what they then hold. */
  ghost predicate DoneAlike(cfg: Spec.Config, st: Spec.State, t: Sql.Tables, op: Runs.Op, sop: Sql.Op) {
    match op
    case Deliver(e, now) => sop.Saved? && SavedAlike(cfg, st, t, e, sop.existing, now)
    case DeleteMatching(f) => RemovedAlike(st, t, f)
    case Clear => t.vanished == {}
  }

  /** The same answer, where there is one, and the same contents afterwards. */
  ghost predicate Agree(cfg: Spec.Config, st: Spec.State, t: Sql.Tables, op: Runs.Op, sop: Sql.Op) {
    && SameContents(Runs.Apply(cfg, st, op), Sql.Apply(cfg, t, sop))
    && (op.Deliver? && sop.Saved? ==>
          Spec.Step(cfg, st, op.event, op.now).1 == Sql.Save(cfg, t, sop.event, sop.existing).1)
  }

  ghost predicate AlikeAt(cfg: Spec.Config, ops: seq<Runs.Op>, run: seq<Sql.Op>, k: nat)
    requires k < |ops| == |run|
  {
    DoneAlike(cfg, Runs.Run(cfg, Spec.EMPTY_STATE, ops[..k]), Sql.Run(cfg, run[..k]), ops[k], run[k])
  }

  ghost predicate AgreeAt(cfg: Spec.Config, ops: seq<Runs.Op>, run: seq<Sql.Op>, k: nat)
    requires k < |ops| == |run|
  {
    Agree(cfg, Runs.Run(cfg, Spec.EMPTY_STATE, ops[..k]), Sql.Run(cfg, run[..k]), ops[k], run[k])
  }

  lemma OneOpAgreesIff(cfg: Spec.Config, st: Spec.State, t: Sql.Tables, run: seq<Sql.Op>, op: Runs.Op, k: nat)
    requires cfg.capacity.None? && InStep(cfg, st, t) && k < |run|
    requires t == Sql.Run(cfg, run[..k]) && Paired(cfg, run, op, k)
    ensures Agree(cfg, st, t, op, run[k]) <==> DoneAlike(cfg, st, t, op, run[k])
  {
    hide InStep, SameContents, Spec.Step, Sql.Save, SavedAlike, RemovedAlike, Sql.OneIdentifierTag, Sql.FoundIn;
    hide Spec.Delete, Sql.AfterRemoval, Sql.AfterWipe, Sql.Run;
    match op {
      case Deliver(e, now) => OneSaveAgreesIff(cfg, st, t, e, run[k].existing, now);
      case DeleteMatching(f) => DeletesAgreeIff(cfg, st, t, f);
      case Clear => WipesAgreeIff(t);
    }
  }

  /** Both stores keep their invariants, whatever the operations. */
  lemma BothHold(cfg: Spec.Config, ops: seq<Runs.Op>, run: seq<Sql.Op>, k: nat)
    requires cfg.capacity.None? && AllPaired(cfg, ops, run) && k <= |ops|
    ensures Spec.Coherent(cfg, Runs.Run(cfg, Spec.EMPTY_STATE, ops[..k])) && Sql.Consistent(Sql.Run(cfg, run[..k]))
  {
    hide Spec.Coherent, Sql.Consistent, Sql.FoundIn, Sql.Run, Runs.Run, Runs.TombstonesHold;
    Runs.ReachableStatesHold(cfg, ops[..k]);
    forall i | 0 <= i < k
      ensures Paired(cfg, run, ops[i], i) && run[..k][..i] == run[..i]
    {
    }
    Sql.RunsHold(cfg, run[..k]);
  }

  /** Having agreed so far, the stores agree at an operation if and only if it is one they do alike. */
  lemma NextAgreesIff(cfg: Spec.Config, ops: seq<Runs.Op>, run: seq<Sql.Op>, k: nat)
    requires cfg.capacity.None? && AllPaired(cfg, ops, run) && k < |ops|
    requires k > 0 ==> AgreeAt(cfg, ops, run, k - 1)
    ensures AgreeAt(cfg, ops, run, k) <==> AlikeAt(cfg, ops, run, k)
  {
    InStepAfter(cfg, ops, run, k);
    hide Agree, DoneAlike, InStep, Paired, Runs.Run, Sql.Run;
    OneOpAgreesIff(cfg, Runs.Run(cfg, Spec.EMPTY_STATE, ops[..k]), Sql.Run(cfg, run[..k]), run, ops[k], k);
  }

  lemma InStepAfter(cfg: Spec.Config, ops: seq<Runs.Op>, run: seq<Sql.Op>, k: nat)
    requires cfg.capacity.None? && AllPaired(cfg, ops, run) && k <= |ops|
    requires k > 0 ==> AgreeAt(cfg, ops, run, k - 1)
    ensures InStep(cfg, Runs.Run(cfg, Spec.EMPTY_STATE, ops[..k]), Sql.Run(cfg, run[..k]))
  {
    BothHold(cfg, ops, run, k);
    hide Spec.Coherent, Sql.WellFormed, Sql.OnePerAddress, Sql.TombstonesHold, AllPaired, Runs.Apply, Sql.Apply;
    if k > 0 {
      assert ops[..k][..k - 1] == ops[..k - 1] && run[..k][..k - 1] == run[..k - 1];
    }
  }

  lemma {:induction false} AgreeUpTo(cfg: Spec.Config, ops: seq<Runs.Op>, run: seq<Sql.Op>, n: nat)
    requires cfg.capacity.None? && AllPaired(cfg, ops, run) && n <= |ops|
    ensures (forall k :: 0 <= k < n ==> AgreeAt(cfg, ops, run, k))
            <==> forall k :: 0 <= k < n ==> AlikeAt(cfg, ops, run, k)
  {
    hide Paired, AgreeAt, AlikeAt;
    if n > 0 {
      AgreeUpTo(cfg, ops, run, n - 1);
      if forall k :: 0 <= k < n - 1 ==> AgreeAt(cfg, ops, run, k) {
        NextAgreesIff(cfg, ops, run, n - 1);
      }
    }
  }

  /**
    Over a run of saves, filtered deletes and wipes, the two stores agree all along if and
    only if each operation is one they do alike, and then they are in step at the end.
  */
  lemma StoresAgreeIff(cfg: Spec.Config, ops: seq<Runs.Op>, run: seq<Sql.Op>)
    requires cfg.capacity.None? && AllPaired(cfg, ops, run)
    ensures (forall k :: 0 <= k < |ops| ==> AgreeAt(cfg, ops, run, k))
            <==> forall k :: 0 <= k < |ops| ==> AlikeAt(cfg, ops, run, k)
    ensures (forall k :: 0 <= k < |ops| ==> AgreeAt(cfg, ops, run, k))
            ==> InStep(cfg, Runs.Run(cfg, Spec.EMPTY_STATE, ops), Sql.Run(cfg, run))
  {
    hide Paired, AgreeAt, AlikeAt, InStep;
    AgreeUpTo(cfg, ops, run, |ops|);
    assert ops[..|ops|] == ops && run[..|ops|] == run;
    if forall k :: 0 <= k < |ops| ==> AgreeAt(cfg, ops, run, k) {
      InStepAfter(cfg, ops, run, |ops|);
    }
  }
}
