/** What holds over whole runs of the in-memory store. */
module MemoryRuns {
  import opened Wrappers
  import opened Order
  import opened Events
  import opened Filters
  import opened MemoryQuery
  import opened MemorySpec

  datatype Op = Deliver(event: Event, now: Timestamp) | DeleteMatching(filter: Filter) | Clear

  type Delivery = op: Op | op.Deliver? witness Deliver(Event(0, "", 0, 0, [], ""), 0)

  ghost function Apply(cfg: Config, st: State, op: Op): State {
    match op
    case Deliver(e, now) => Step(cfg, st, e, now).0
    case DeleteMatching(f) => MemorySpec.Delete(st, f)
    case Clear => EMPTY_STATE
  }

  ghost function Run(cfg: Config, st: State, ops: seq<Op>): State {
    if ops == [] then st else Apply(cfg, Run(cfg, st, ops[..|ops| - 1]), ops[|ops| - 1])
  }

  predicate Wipes(op: Op) { op.Clear? || op == DeleteMatching(EMPTY_FILTER) }

  // ---- tombstones ----

  /** Every tombstone of `a` is in `b`, with a deletion time at least as late. */
  ghost predicate TombstonesWithin(a: State, b: State) {
    && a.deletedIds <= b.deletedIds
    && a.vanished <= b.vanished
    && (forall c :: c in a.deletedAt ==> c in b.deletedAt && a.deletedAt[c] <= b.deletedAt[c])
  }

  lemma {:induction false} TombstonesGrow(cfg: Config, st: State, ops: seq<Op>)
    requires forall op :: op in ops ==> !Wipes(op)
    ensures TombstonesWithin(st, Run(cfg, st, ops))
  {
    if ops != [] {
      var before, op := ops[..|ops| - 1], ops[|ops| - 1];
      TombstonesGrow(cfg, st, before);
      assert op in ops && !Wipes(op);
      var last := Run(cfg, st, before);
      if op.Deliver? {
        StepTombstonesGrow(cfg, last, op.event, op.now);
      }
    }
  }

  lemma StepTombstonesGrow(cfg: Config, st: State, e: Event, now: Timestamp)
    ensures TombstonesWithin(st, Step(cfg, st, e, now).0)
  {
    hide Cleared, Refusal, Rivals, Overreaches, Keep, Identifier;
    ClearedTombstonesGrow(cfg, st, e);
  }

  lemma ClearedTombstonesGrow(cfg: Config, st: State, e: Event)
    ensures TombstonesWithin(st, Cleared(cfg, st, e))
  {
    hide Rivals, Covers, CoveredIds, OwnCoordinates, WrappedFor;
  }

  /** The coordinate a deletion request must name to reach this event; a replaceable one with an identifier has none. */
  predicate Reachable(e: Event) {
    IsAddressable(e.kind) || (IsReplaceable(e.kind) && CoordinateOf(e).value.identifier == "")
  }

  ghost predicate TombstonesHold(st: State) {
    && (forall e :: e in st.events ==> e.id !in st.deletedIds)
    && (forall e :: e in st.events && Reachable(e) && CoordinateOf(e).value in st.deletedAt
                    ==> e.createdAt > st.deletedAt[CoordinateOf(e).value])
    && (forall e :: e in st.events && e.author in st.vanished ==> e.kind == REQUEST_TO_VANISH)
    && (forall e, f :: e in st.events && f in st.events && e.author == f.author && e.author in st.vanished ==> e == f)
  }

  lemma DeletionTombstonesHold(cfg: Config, st: State, d: Event)
    requires Coherent(cfg, st) && TombstonesHold(st)
    ensures TombstonesHold(AfterDeletion(st, d))
  {
    var st' := AfterDeletion(st, d);
    var own := OwnCoordinates(d.author, Coordinates(d.tags));
    forall e | e in st'.events && Reachable(e) && CoordinateOf(e).value in st'.deletedAt
      ensures e.createdAt > st'.deletedAt[CoordinateOf(e).value]
    {
      var c := CoordinateOf(e).value;
      if c in own {
        assert Targets(c, e);
        assert !CoversByCoordinate(d, e);
      }
    }
  }

  lemma ClearedTombstonesHold(cfg: Config, st: State, e: Event)
    requires Coherent(cfg, st) && TombstonesHold(st)
    ensures TombstonesHold(Cleared(cfg, st, e))
  {
    DeletionTombstonesHold(cfg, st, e);
  }

  /** Going in, the event respects the tombstones: if its author vanished, it is the request itself, alone. */
  lemma AdmitTombstonesHold(cfg: Config, st: State, e: Event, now: Timestamp)
    requires Coherent(cfg, st) && TombstonesHold(st) && Refusal(st, e, now).None?
    requires IsAddressable(e.kind) ==> Identifier(e).Some?
    ensures TombstonesHold(Admit(cfg, Cleared(cfg, st, e), e))
  {
    var st' := Cleared(cfg, st, e);
    ClearedTombstonesHold(cfg, st, e);
    AdmittedRespects(cfg, st, e, now);
    ClearedFits(cfg, st, e, now);
    AdmitOne(cfg, st', e);
  }

  lemma AdmittedRespects(cfg: Config, st: State, e: Event, now: Timestamp)
    requires Refusal(st, e, now).None?
    ensures var st' := Cleared(cfg, st, e);
            && (e.author in st'.vanished ==>
              e.kind == REQUEST_TO_VANISH && forall f :: f in st'.events ==> f.author != e.author)
            && !CoordinateDeleted(st'.deletedAt, e)
  {
    KindsDisjoint(e.kind);
  }

  lemma AdmitOne(cfg: Config, st: State, e: Event)
    requires Coherent(cfg, st) && Fits(st, e) && TombstonesHold(st)
    requires e.author in st.vanished ==>
        e.kind == REQUEST_TO_VANISH && forall f :: f in st.events ==> f.author != e.author
    requires !CoordinateDeleted(st.deletedAt, e)
    ensures TombstonesHold(Admit(cfg, st, e))
  {
    hide Keep, TombstonesHold, CoordinateDeleted, SameAddress, Identifier;
    AddedTombstonesHold(st, e);
    assert UniqueIds(st.events + {e});
    KeepFacts(cfg.capacity, st.events + {e});
    FewerTombstonesHold(st.(events := st.events + {e}), Keep(cfg.capacity, st.events + {e}));
  }

  lemma AddedTombstonesHold(st: State, e: Event)
    requires TombstonesHold(st) && e.id !in st.deletedIds && !CoordinateDeleted(st.deletedAt, e)
    requires e.author in st.vanished ==>
        e.kind == REQUEST_TO_VANISH && forall f :: f in st.events ==> f.author != e.author
    ensures TombstonesHold(st.(events := st.events + {e}))
  {
    hide IsReplaceable, IsAddressable, Identifier;
  }

  lemma FewerTombstonesHold(st: State, events: set<Event>)
    requires TombstonesHold(st) && events <= st.events
    ensures TombstonesHold(st.(events := events))
  {
    hide IsReplaceable, IsAddressable, Identifier;
  }

  lemma StepTombstonesHold(cfg: Config, st: State, e: Event, now: Timestamp)
    requires Coherent(cfg, st) && TombstonesHold(st)
    ensures TombstonesHold(Step(cfg, st, e, now).0)
  {
    hide TombstonesHold, Coherent, Cleared, Admit, Refusal, Rivals, Overreaches, Identifier, IsAddressable;
    if Refusal(st, e, now).None? && (IsAddressable(e.kind) ==> Identifier(e).Some?) {
      ClearedTombstonesHold(cfg, st, e);
      AdmitTombstonesHold(cfg, st, e, now);
    }
  }

  /** In every reachable state the store is coherent and every tombstone is respected. */
  lemma {:induction false} ReachableStatesHold(cfg: Config, ops: seq<Op>)
    requires cfg.Valid()
    ensures Coherent(cfg, Run(cfg, EMPTY_STATE, ops))
    ensures TombstonesHold(Run(cfg, EMPTY_STATE, ops))
  {
    if ops != [] {
      var before, op := ops[..|ops| - 1], ops[|ops| - 1];
      ReachableStatesHold(cfg, before);
      var st := Run(cfg, EMPTY_STATE, before);
      match op {
        case Deliver(e, now) =>
          StepCoherent(cfg, st, e, now);
          StepTombstonesHold(cfg, st, e, now);
        case DeleteMatching(f) =>
          DeleteCoherent(cfg, st, f);
        case Clear =>
      }
    }
  }

  /**
    A request that gets to the coordinate of a stored event no newer than it misses the
    event just when that is a replaceable event with an identifier, and the request names
    neither its id nor its kind without an identifier.
  */
  lemma DeletionMissesIff(cfg: Config, st: State, d: Event, e: Event)
    requires Coherent(cfg, st) && e in st.events && e.createdAt <= d.createdAt
    requires CoordinateOf(e).Some? && CoordinateOf(e).value in OwnCoordinates(d.author, Coordinates(d.tags))
    ensures e in AfterDeletion(st, d).events
            <==> && IsReplaceable(e.kind) && CoordinateOf(e).value.identifier != ""
                 && e.id !in OwnIds(st.events, d.author, EventIds(d.tags))
                 && Coordinate(e.kind, e.author, "") !in OwnCoordinates(d.author, Coordinates(d.tags))
  {
    KindsDisjoint(e.kind);
    var own := OwnCoordinates(d.author, Coordinates(d.tags));
    hide OwnCoordinates, OwnIds, EventIds, Coordinates;
    if IsReplaceable(e.kind) && CoordinateOf(e).value.identifier != "" {
      forall c | c in own
        ensures Targets(c, e) <==> c == Coordinate(e.kind, e.author, "")
      {
      }
    } else {
      assert Targets(CoordinateOf(e).value, e);
    }
  }

  // ---- removals ----

  /** What a delivery may remove a stored event for. */
  ghost predicate Accounted(cfg: Config, st: State, incoming: Event, gone: Event) {
    || (SameAddress(gone, incoming) && Before(incoming, gone))
    || (IsDeletion(cfg, incoming) && gone.author == incoming.author && Covers(st.events, incoming, gone))
    || (IsVanish(cfg, incoming) && (gone.author == incoming.author || WrappedFor(gone, incoming.author)))
  }

  /** The full store pushes out its oldest events, and only those. */
  ghost predicate Evicted(cfg: Config, st: State, incoming: Event, gone: Event) {
    && cfg.capacity.Some?
    && (exists kept: set<Event> ::
          && kept <= st.events + {incoming} - {gone} && |kept| == cfg.capacity.value
          && forall k :: k in kept ==> Before(k, gone))
  }

  lemma ClearedAccounted(cfg: Config, st: State, e: Event, now: Timestamp, gone: Event)
    requires Coherent(cfg, st) && gone in st.events && gone !in Cleared(cfg, st, e).events
    requires !exists f :: f in Rivals(st.events, e) && !Before(e, f)
    ensures Accounted(cfg, st, e, gone)
  {
    KindsDisjoint(e.kind);
    if Covers(st.events, e, gone) {
      CoversOnlyOwn(st.events, e, gone);
    }
  }

  lemma AdmitEvicts(cfg: Config, st: State, e: Event, gone: Event)
    requires Coherent(cfg, st) && Fits(st, e) && gone in st.events && gone !in Admit(cfg, st, e).events
    ensures Evicted(cfg, st, e, gone)
  {
    var all := st.events + {e};
    assert UniqueIds(all);
    hide FirstN, Fits;
    KeepFacts(cfg.capacity, all);
    EventsOrdered(all);
    var kept := Keep(cfg.capacity, all);
    forall k | k in kept
      ensures Before(k, gone)
    {
      assert !Before(gone, k);
    }
    SubsetCard(kept, all);
    assert kept <= st.events + {e} - {gone};
  }

  /** A stored event leaves only for one of the reasons the protocol gives, or because the store is full. */
  lemma EveryRemovalAccounted(cfg: Config, st: State, e: Event, now: Timestamp, gone: Event)
    requires Coherent(cfg, st) && gone in st.events && gone !in Step(cfg, st, e, now).0.events
    ensures Accounted(cfg, st, e, gone) || Evicted(cfg, Cleared(cfg, st, e), e, gone)
  {
    hide Coherent, Accounted, Evicted, Cleared, Admit, Refusal, Rivals, Overreaches, Before, Identifier, IsAddressable;
    if gone in Cleared(cfg, st, e).events {
      ClearedFits(cfg, st, e, now);
      AdmitEvicts(cfg, Cleared(cfg, st, e), e, gone);
    } else {
      ClearedAccounted(cfg, st, e, now, gone);
    }
  }

  /** Accepted or not, a deletion request removes nobody else's event, short of the capacity pushing it out. */
  lemma DeletionSparesOthers(cfg: Config, st: State, d: Event, now: Timestamp, other: Event)
    requires Coherent(cfg, st) && IsDeletion(cfg, d)
    requires other in st.events && other.author != d.author
    ensures other in AfterDeletion(st, d).events
    ensures Step(cfg, st, d, now).1 == Rejected(InvalidDelete) || cfg.capacity.None?
            ==> other in Step(cfg, st, d, now).0.events
  {
    KindsDisjoint(d.kind);
    if Covers(st.events, d, other) {
      CoversOnlyOwn(st.events, d, other);
    }
  }

  /**
    A request that first names its author's own event and then another's is rejected, and
    the first is gone all the same.
  */
  lemma RejectedYetObeyed(cfg: Config, st: State, d: Event, now: Timestamp, mine: Event, theirs: Event)
    requires Coherent(cfg, st) && IsDeletion(cfg, d) && Refusal(st, d, now).None?
    requires mine in st.events && mine.author == d.author && mine.createdAt <= d.createdAt
    requires theirs in st.events && theirs.author != d.author && EventIds(d.tags) == [mine.id, theirs.id]
    ensures Step(cfg, st, d, now).1 == Rejected(InvalidDelete)
    ensures mine !in Step(cfg, st, d, now).0.events && theirs in Step(cfg, st, d, now).0.events
  {
    KindsDisjoint(d.kind);
    var ids := EventIds(d.tags);
    hide EventIds, Coordinates, IsVanishRequestFor, Refusal;
    assert ForeignId(st.events, d.author, theirs.id) && !ForeignId(st.events, d.author, mine.id);
    assert ids[1..] == [theirs.id];
    assert OwnIds(st.events, d.author, ids) == [mine.id];
    assert CoversById(st.events, d, mine);
    CoversOnlyOwnHere(st.events, d, theirs);
  }

  /**
    A rejected deletion request leaves the store as it was if and only if what precedes the
    offending tag covers nothing new.
  */
  lemma RejectedDeletionIsVoidIff(cfg: Config, st: State, d: Event, now: Timestamp)
    requires Coherent(cfg, st) && IsDeletion(cfg, d) && Step(cfg, st, d, now).1 == Rejected(InvalidDelete)
    ensures Step(cfg, st, d, now).0 == st <==>
            (forall e :: e in st.events ==> !Covers(st.events, d, e)) &&
            (forall c :: c in OwnCoordinates(d.author, Coordinates(d.tags)) ==>
              c in st.deletedAt && d.createdAt <= st.deletedAt[c])
  {
    KindsDisjoint(d.kind);
    var after := AfterDeletion(st, d);
    var own := OwnCoordinates(d.author, Coordinates(d.tags));
    assert Refusal(st, d, now) != Some(InvalidDelete);
    hide OwnIds, OwnCoordinates, Targets, EventIds, Coordinates, Refusal, Overreaches, Coherent;
    assert Step(cfg, st, d, now).0 == after;
    if forall e :: e in st.events ==> !Covers(st.events, d, e) {
      assert after.events == st.events;
      assert CoveredIds(st.events, d) == {};
      assert after.deletedIds == st.deletedIds;
      if forall c :: c in own ==> c in st.deletedAt && d.createdAt <= st.deletedAt[c] {
        assert after.deletedAt == st.deletedAt;
      }
    }
  }

  /** Such a store and request exist. */
  lemma InvalidDeleteStillDeletes()
    ensures exists cfg: Config, st: State, d: Event, now: Timestamp ::
              Coherent(cfg, st) && Step(cfg, st, d, now).1 == Rejected(InvalidDelete) &&
              Step(cfg, st, d, now).0.events != st.events
  {
    var cfg := Config(true, false, None, None);
    var mine := Event(1, "a", 1, 1, [], "");
    var theirs := Event(2, "b", 1, 1, [], "");
    var t1, t2 := Tag("e", Some("1"), EventRef(1)), Tag("e", Some("2"), EventRef(2));
    var d := Event(3, "a", 2, EVENT_DELETION, [t1, t2], "");
    var st := State({mine, theirs}, {}, map[], {});
    TwoIds(t1, t2);
    assert Refusal(st, d, 0).None?;
    RejectedYetObeyed(cfg, st, d, 0, mine, theirs);
    hide Step, Coherent;
  }

  lemma TwoIds(t1: Tag, t2: Tag)
    requires t1.name == t2.name == "e" && t1.content.Some? && t2.content.Some?
    requires t1.reading.EventRef? && t2.reading.EventRef?
    ensures EventIds([t1, t2]) == [t1.reading.id, t2.reading.id]
    ensures FindTag([t1, t2], "expiration") == None
  {
    assert [t1, t2][1..] == [t2] && [t2][1..] == [];
    assert FindTag([t2], "expiration") == None;
    assert EventIds([t2]) == [t2.reading.id];
  }

  lemma CoversOnlyOwnHere(events: set<Event>, d: Event, other: Event)
    requires other in events && other.author != d.author
    ensures !Covers(events, d, other)
  {
    if Covers(events, d, other) {
      CoversOnlyOwn(events, d, other);
    }
  }

  // ---- the bounded store ----

  /** The state after these deliveries to an empty store. */
  ghost function Deliveries(cfg: Config, ds: seq<Delivery>): State { Run(cfg, EMPTY_STATE, ds) }

  ghost function Delivered(ds: seq<Delivery>): set<Event> {
    set d | d in ds :: d.event
  }

  /** An event that has no address and asks for nothing. */
  predicate Ordinary(cfg: Config, e: Event) {
    !IsReplaceable(e.kind) && !IsAddressable(e.kind) && !IsDeletion(cfg, e) && !IsVanish(cfg, e)
  }

  /** The events that were delivered at least once before they expired. */
  ghost function Admitted(ds: seq<Delivery>): set<Event> {
    set d | d in ds && !IsEphemeral(d.event.kind) && !IsExpiredAt(d.event, d.now) :: d.event
  }

  /** The state of a store that was offered these ordinary events and no others. */
  ghost function Newest(cfg: Config, offered: set<Event>): State {
    State(Keep(cfg.capacity, offered), {}, map[], {})
  }

  lemma OfferOneMore(cfg: Config, offered: set<Event>, e: Event, now: Timestamp)
    requires UniqueIds(offered + {e}) && Ordinary(cfg, e)
    requires !IsEphemeral(e.kind) && !IsExpiredAt(e, now)
    ensures Step(cfg, Newest(cfg, offered), e, now).0 == Newest(cfg, offered + {e})
  {
    hide FirstN, Keep;
    var st := Newest(cfg, offered);
    assert UniqueIds(offered);
    KeepFacts(cfg.capacity, offered);
    if e in st.events {
      assert offered + {e} == offered;
      assert Refusal(st, e, now) == Some(Duplicate);
    } else {
      assert forall f :: f in st.events ==> f in offered + {e};
      NoSameId(offered + {e}, e);
      OrdinaryIsAdmitted(cfg, st, e, now);
      KeepOneMore(cfg.capacity, offered, e);
    }
  }

  /** An ordinary event with a new id goes straight in. */
  lemma OrdinaryIsAdmitted(cfg: Config, st: State, e: Event, now: Timestamp)
    requires Ordinary(cfg, e) && !IsEphemeral(e.kind) && !IsExpiredAt(e, now)
    requires (forall f :: f in st.events ==> f.id != e.id)
    requires st.deletedIds == {} && st.deletedAt == map[] && st.vanished == {}
    ensures Step(cfg, st, e, now).0 == Admit(cfg, st, e)
  {
    hide Keep;
    assert Rivals(st.events, e) == {};
  }

  lemma KeepOneMore(capacity: Option<nat>, offered: set<Event>, e: Event)
    requires UniqueIds(offered + {e})
    ensures Keep(capacity, Keep(capacity, offered) + {e}) == Keep(capacity, offered + {e})
  {
    hide FirstN;
    EventsOrdered(offered + {e});
    if capacity.Some? {
      FirstNInsert(Before, offered, capacity.value, e);
    }
  }

  lemma NoSameId(s: set<Event>, e: Event)
    requires UniqueIds(s) && e in s
    ensures forall f :: f in s && f.id == e.id ==> f == e
  {
  }

  /** Fed ordinary events, the bounded store holds exactly the newest ones it was ever offered. */
  lemma {:induction false} BoundedStoreIsTopN(cfg: Config, ds: seq<Delivery>)
    requires forall d :: d in ds ==> Ordinary(cfg, d.event)
    requires UniqueIds(Delivered(ds))
    ensures Deliveries(cfg, ds) == Newest(cfg, Admitted(ds))
  {
    if ds == [] {
      KeepFacts(cfg.capacity, {});
    } else {
      var before, d := ds[..|ds| - 1], ds[|ds| - 1];
      assert ds == before + [d] && d in ds;
      assert Delivered(before) <= Delivered(ds);
      BoundedStoreIsTopN(cfg, before);
      if IsEphemeral(d.event.kind) || IsExpiredAt(d.event, d.now) {
        assert Admitted(ds) == Admitted(before);
      } else {
        assert Admitted(ds) == Admitted(before) + {d.event};
        assert Admitted(ds) <= Delivered(ds);
        OfferOneMore(cfg, Admitted(before), d.event, d.now);
      }
    }
  }

  // ---- what `Success` means ----

  /** Among the first `n` if there is room, or if something it is set against comes after it. */
  lemma KeptIff(s: set<Event>, e: Event, n: nat)
    requires UniqueIds(s + {e}) && e !in s && |s| <= n
    ensures e in FirstN(Before, s + {e}, n) <==> |s| < n || exists f :: f in s && Before(e, f)
  {
    EventsOrdered(s + {e});
    var below := Below(Before, s + {e}, e);
    assert below <= s;
    SubsetCard(below, s);
    if f :| f in s && Before(e, f) {
      assert f !in below;
      SubsetCard(below, s - {f});
    } else {
      assert below == s;
    }
  }

  /**
    `Success` means that the event is stored if and only if the store, once what the
    arrival removes is gone, has room left or holds an event that comes after it.
  */
  lemma SuccessIsKeptIff(cfg: Config, st: State, e: Event, now: Timestamp)
    requires Coherent(cfg, st) && Step(cfg, st, e, now).1 == Success
    ensures var left := Cleared(cfg, st, e).events;
            e in Step(cfg, st, e, now).0.events <==>
            cfg.capacity.None? || |left| < cfg.capacity.value || exists f :: f in left && Before(e, f)
  {
    hide FirstN, Cleared, Step, Refusal, Coherent, Fits, Before;
    SuccessAdmits(cfg, st, e, now);
    ClearedFits(cfg, st, e, now);
    AdmittedIff(cfg, Cleared(cfg, st, e), e);
  }

  lemma SuccessAdmits(cfg: Config, st: State, e: Event, now: Timestamp)
    requires Step(cfg, st, e, now).1 == Success
    ensures Refusal(st, e, now).None? && (IsAddressable(e.kind) ==> Identifier(e).Some?)
    ensures Step(cfg, st, e, now).0 == Admit(cfg, Cleared(cfg, st, e), e)
  {
    hide Cleared, Rivals, Overreaches, Refusal, Admit, IsAddressable, Identifier, IsDeletion;
  }

  lemma AdmittedIff(cfg: Config, st: State, e: Event)
    requires Coherent(cfg, st) && Fits(st, e)
    ensures e in Admit(cfg, st, e).events <==>
            cfg.capacity.None? || |st.events| < cfg.capacity.value || exists f :: f in st.events && Before(e, f)
  {
    hide FirstN, Before;
    assert UniqueIds(st.events + {e}) && e !in st.events;
    if cfg.capacity.Some? {
      KeptIff(st.events, e, cfg.capacity.value);
    }
  }

  /** So a full store answers `Success` to an ordinary event older than all it holds, and stays as it was. */
  lemma SuccessMayBeDropped(cfg: Config, st: State, e: Event, now: Timestamp)
    requires Coherent(cfg, st) && Ordinary(cfg, e) && Refusal(st, e, now).None?
    requires cfg.capacity == Some(|st.events|) && forall f :: f in st.events ==> Before(f, e)
    ensures Step(cfg, st, e, now) == (st, Success)
  {
    var all := st.events + {e};
    assert Rivals(st.events, e) == {} && Cleared(cfg, st, e) == st;
    hide FirstN, IsReplaceable, IsAddressable;
    assert UniqueIds(all);
    EventsOrdered(all);
    SubsetCard(st.events, all);
    FirstNUnique(Before, all, |st.events|, st.events);
  }
}
