/**
  The unbounded store converges: what it holds depends on the set of events it was
  given, not on their order or repetition.
*/
module MemoryConvergence {
  import opened Wrappers
  import opened Order
  import opened Events
  import opened Filters
  import opened MemoryQuery
  import opened MemorySpec
  import opened MemoryRuns

  /** A coordinate that names one address: an addressable kind with an identifier, a replaceable one without. */
  predicate Canonical(c: Coordinate) {
    (IsAddressable(c.kind) && c.identifier != "") || (IsReplaceable(c.kind) && c.identifier == "")
  }

  /** The deletion requests carry owned canonical `a` tags only; replaceable events carry no identifier. */
  predicate Tame(cfg: Config, e: Event) {
    && !IsVanish(cfg, e)
    && (IsReplaceable(e.kind) ==> CoordinateOf(e).value.identifier == "")
    && (IsDeletion(cfg, e) ==>
          && EventIds(e.tags) == []
          && forall c :: c in Coordinates(e.tags) ==> c.author == e.author && Canonical(c))
  }

  predicate Keepable(e: Event) {
    !IsEphemeral(e.kind) && (IsAddressable(e.kind) ==> Identifier(e).Some?)
  }

  predicate HasCoordinate(e: Event) { IsReplaceable(e.kind) || IsAddressable(e.kind) }

  /** The request `d` deletes the coordinate `c`. */
  predicate Deletes(cfg: Config, d: Event, c: Coordinate) { IsDeletion(cfg, d) && c in Coordinates(d.tags) }

  /** The event is newer than every deletion of its coordinate. */
  ghost predicate Outlives(cfg: Config, seen: set<Event>, e: Event)
    requires HasCoordinate(e)
  {
    forall d :: d in seen && Deletes(cfg, d, CoordinateOf(e).value) ==> e.createdAt > d.createdAt
  }

  /** No event seen at its address comes before it. */
  ghost predicate Leads(seen: set<Event>, e: Event) {
    forall f :: f in seen && SameAddress(f, e) ==> f == e || Before(e, f)
  }

  ghost predicate Settles(cfg: Config, seen: set<Event>, e: Event) {
    e in seen && Keepable(e) && (HasCoordinate(e) ==> Outlives(cfg, seen, e) && Leads(seen, e))
  }

  /** The deletion times are the latest ones seen. */
  ghost predicate LatestTimes(cfg: Config, seen: set<Event>, times: map<Coordinate, Timestamp>) {
    && (forall d, c :: d in seen && Deletes(cfg, d, c) ==> c in times && d.createdAt <= times[c])
    && (forall c :: c in times ==> exists d :: d in seen && Deletes(cfg, d, c) && d.createdAt == times[c])
  }

  /** What the store holds once it has seen these events, in whatever order. */
  ghost predicate Settled(cfg: Config, seen: set<Event>, st: State) {
    && st.deletedIds == {} && st.vanished == {}
    && (forall e :: e in st.events <==> Settles(cfg, seen, e))
    && LatestTimes(cfg, seen, st.deletedAt)
  }

  lemma SettledUnique(cfg: Config, seen: set<Event>, a: State, b: State)
    requires Settled(cfg, seen, a) && Settled(cfg, seen, b)
    ensures a == b
  {
    assert a.events == b.events;
    forall c | c in a.deletedAt || c in b.deletedAt
      ensures c in a.deletedAt && c in b.deletedAt && a.deletedAt[c] == b.deletedAt[c]
    {
    }
    assert a.deletedAt == b.deletedAt;
  }

  lemma SameAddressSameCoordinate(cfg: Config, e: Event, f: Event)
    requires SameAddress(e, f) && Tame(cfg, e) && Tame(cfg, f)
    ensures HasCoordinate(e) && HasCoordinate(f) && CoordinateOf(e) == CoordinateOf(f)
    ensures SameAddress(f, e)
  {
  }

  /** Among the events seen at an address one leads. */
  lemma LeaderExists(seen: set<Event>, e: Event) returns (l: Event)
    requires UniqueIds(seen) && e in seen && SameAddress(e, e)
    ensures l in seen && SameAddress(l, e) && Leads(seen, l)
  {
    assert e in Rivals(seen, e);
    EventsOrdered(Rivals(seen, e));
    l := LeastExists(Before, Rivals(seen, e));
  }

  lemma DeletedIff(cfg: Config, seen: set<Event>, st: State, e: Event)
    requires Settled(cfg, seen, st) && HasCoordinate(e)
    ensures CoordinateDeleted(st.deletedAt, e) <==> !Outlives(cfg, seen, e)
  {
  }

  /** An event seen before changes nothing when it comes again. */
  lemma Redelivery(cfg: Config, seen: set<Event>, st: State, e: Event, now: Timestamp)
    requires UniqueIds(seen) && (forall f :: f in seen ==> Tame(cfg, f))
    requires Settled(cfg, seen, st) && e in seen
    ensures Step(cfg, st, e, now).0 == st
  {
    KindsDisjoint(e.kind);
    if e !in st.events && Keepable(e) {
      assert HasCoordinate(e);
      DeletedIff(cfg, seen, st, e);
      if Outlives(cfg, seen, e) {
        var l := LeaderExists(seen, e);
        SameAddressSameCoordinate(cfg, l, e);
        assert Before(l, e);
        assert Settles(cfg, seen, l);
        assert l in Rivals(st.events, e) && !Before(e, l);
      }
    }
  }

  /** A deleted event comes after everything at its address that outlives the deletions. */
  lemma DeletedIsOlder(cfg: Config, seen: set<Event>, e: Event)
    requires (forall f :: f in seen + {e} ==> Tame(cfg, f)) && HasCoordinate(e) && !Outlives(cfg, seen, e)
    ensures forall f :: f in seen && SameAddress(e, f) && HasCoordinate(f) && Outlives(cfg, seen, f) ==> Before(f, e)
  {
    var d :| d in seen && Deletes(cfg, d, CoordinateOf(e).value) && e.createdAt <= d.createdAt;
    forall f | f in seen && SameAddress(e, f) && HasCoordinate(f) && Outlives(cfg, seen, f)
      ensures Before(f, e)
    {
      SameAddressSameCoordinate(cfg, e, f);
    }
  }

  /** A new event with a coordinate, deleted before it came. */
  lemma ArrivesDeleted(cfg: Config, seen: set<Event>, st: State, e: Event)
    requires forall f :: f in seen + {e} ==> Tame(cfg, f)
    requires Settled(cfg, seen, st) && HasCoordinate(e) && !Outlives(cfg, seen, e)
    ensures Settled(cfg, seen + {e}, st)
  {
    hide Outlives, SameAddress, Before, Tame, LatestTimes, HasCoordinate, Keepable;
    DeletedIsOlder(cfg, seen, e);
    NotDeletion(cfg, seen, st, e);
    forall f
      ensures Settles(cfg, seen, f) <==> Settles(cfg, seen + {e}, f)
    {
      assert Settles(cfg, seen, f) && HasCoordinate(f) ==> Leads(seen + {e}, f);
      assert Leads(seen + {e}, f) ==> Leads(seen, f);
    }
  }

  /** An event that deletes nothing leaves the deletion times, and who outlives them, as they were. */
  lemma NotDeletion(cfg: Config, seen: set<Event>, st: State, e: Event)
    requires !IsDeletion(cfg, e) || HasCoordinate(e)
    ensures LatestTimes(cfg, seen, st.deletedAt) <==> LatestTimes(cfg, seen + {e}, st.deletedAt)
    ensures forall f :: HasCoordinate(f) ==> (Outlives(cfg, seen, f) <==> Outlives(cfg, seen + {e}, f))
  {
    KindsDisjoint(e.kind);
  }

  /** A new event that a stored one of its address precedes. */
  lemma ArrivesLate(cfg: Config, seen: set<Event>, st: State, e: Event, f: Event)
    requires UniqueIds(seen + {e}) && (forall f :: f in seen + {e} ==> Tame(cfg, f))
    requires Settled(cfg, seen, st) && HasCoordinate(e)
    requires f in Rivals(st.events, e) && f != e && !Before(e, f)
    ensures Settled(cfg, seen + {e}, st)
  {
    KindsDisjoint(e.kind);
    SameAddressSameCoordinate(cfg, f, e);
    assert Before(f, e);
    forall g
      ensures Settles(cfg, seen, g) <==> Settles(cfg, seen + {e}, g)
    {
      if Settles(cfg, seen, g) && SameAddress(e, g) {
        assert SameAddress(f, g) && SameAddress(g, f);
        assert f == g;
      }
    }
  }

  /** A new event that no stored one of its address precedes takes the address over. */
  lemma ArrivesFirst(cfg: Config, seen: set<Event>, st: State, e: Event)
    requires UniqueIds(seen + {e}) && (forall f :: f in seen + {e} ==> Tame(cfg, f))
    requires Settled(cfg, seen, st) && HasCoordinate(e) && Keepable(e) && e !in seen && Outlives(cfg, seen, e)
    requires forall f :: f in Rivals(st.events, e) ==> Before(e, f)
    ensures Settled(cfg, seen + {e}, st.(events := st.events - Rivals(st.events, e) + {e}))
  {
    KindsDisjoint(e.kind);
    var seen' := seen + {e};
    forall f | f in seen && SameAddress(f, e)
      ensures Before(e, f)
    {
      SameAddressSameCoordinate(cfg, f, e);
      var l := LeaderExists(seen, f);
      SameAddressSameCoordinate(cfg, l, f);
      assert SameAddress(l, e);
      SameAddressSameCoordinate(cfg, l, e);
      if Outlives(cfg, seen, l) {
        assert Settles(cfg, seen, l);
        assert l in Rivals(st.events, e);
      }
      assert Before(e, l);
    }
    assert Outlives(cfg, seen', e) && Leads(seen', e);
    forall g
      ensures g in st.events - Rivals(st.events, e) + {e} <==> Settles(cfg, seen', g)
    {
      if g in seen && SameAddress(g, e) {
        SameAddressSameCoordinate(cfg, g, e);
        assert !Leads(seen', g);
      } else if g in seen && SameAddress(e, g) {
        SameAddressSameCoordinate(cfg, e, g);
      }
    }
    assert LatestTimes(cfg, seen', st.deletedAt);
  }

  /** A canonical coordinate targets exactly the stored events that have it. */
  lemma CanonicalTargets(cfg: Config, c: Coordinate, e: Event)
    requires Canonical(c) && Keepable(e) && Tame(cfg, e)
    ensures Targets(c, e) <==> CoordinateOf(e) == Some(c)
  {
    KindsDisjoint(e.kind);
  }

  lemma {:induction false} AllOwn(author: PublicKey, cs: seq<Coordinate>)
    requires forall c :: c in cs ==> c.author == author
    ensures OwnCoordinates(author, cs) == cs
  {
    if cs != [] {
      AllOwn(author, cs[1..]);
    }
  }

  /** A new deletion request. */
  lemma ArrivesDeleting(cfg: Config, seen: set<Event>, st: State, d: Event)
    requires UniqueIds(seen + {d}) && (forall f :: f in seen + {d} ==> Tame(cfg, f))
    requires Settled(cfg, seen, st) && IsDeletion(cfg, d) && d !in seen
    ensures !Overreaches(st.events, d)
    ensures Settled(cfg, seen + {d}, AfterDeletion(st, d).(events := AfterDeletion(st, d).events + {d}))
  {
    KindsDisjoint(d.kind);
    AllOwn(d.author, Coordinates(d.tags));
    var seen', st' := seen + {d}, AfterDeletion(st, d);
    forall e | e in st.events && HasCoordinate(e)
      ensures Covers(st.events, d, e) <==> Deletes(cfg, d, CoordinateOf(e).value) && e.createdAt <= d.createdAt
    {
      DeletionCovers(cfg, st.events, d, e);
    }
    forall e | e in st.events && !HasCoordinate(e)
      ensures !Covers(st.events, d, e)
    {
      DeletionCovers(cfg, st.events, d, e);
    }
    forall g
      ensures g in st'.events + {d} <==> Settles(cfg, seen', g)
    {
      if g in seen && HasCoordinate(g) {
        assert !SameAddress(d, g);
        assert Leads(seen', g) <==> Leads(seen, g);
        assert Outlives(cfg, seen', g) <==>
               Outlives(cfg, seen, g) && !(Deletes(cfg, d, CoordinateOf(g).value) && g.createdAt <= d.createdAt);
      }
    }
    DeletionTimes(cfg, seen, st.deletedAt, d);
  }

  lemma DeletionCovers(cfg: Config, events: set<Event>, d: Event, e: Event)
    requires Tame(cfg, d) && IsDeletion(cfg, d) && Tame(cfg, e) && Keepable(e)
    ensures Covers(events, d, e) <==>
            HasCoordinate(e) && Deletes(cfg, d, CoordinateOf(e).value) && e.createdAt <= d.createdAt
  {
    AllOwn(d.author, Coordinates(d.tags));
    forall c | c in Coordinates(d.tags)
      ensures Targets(c, e) <==> CoordinateOf(e) == Some(c)
    {
      CanonicalTargets(cfg, c, e);
    }
  }

  lemma DeletionTimes(cfg: Config, seen: set<Event>, times: map<Coordinate, Timestamp>, d: Event)
    requires LatestTimes(cfg, seen, times) && IsDeletion(cfg, d)
    ensures LatestTimes(cfg, seen + {d}, Raise(times, Coordinates(d.tags), d.createdAt))
  {
    var times' := Raise(times, Coordinates(d.tags), d.createdAt);
    forall c | c in times'
      ensures exists x :: x in seen + {d} && Deletes(cfg, x, c) && x.createdAt == times'[c]
    {
      if c in times && times'[c] == times[c] {
        var x :| x in seen && Deletes(cfg, x, c) && x.createdAt == times[c];
        assert x in seen + {d};
      } else {
        assert d in seen + {d} && Deletes(cfg, d, c);
      }
    }
  }

  /** A new event that has no coordinate and deletes nothing. */
  lemma ArrivesOrdinary(cfg: Config, seen: set<Event>, st: State, e: Event)
    requires Settled(cfg, seen, st) && !HasCoordinate(e) && !IsDeletion(cfg, e)
    ensures Settled(cfg, seen + {e}, if IsEphemeral(e.kind) then st else st.(events := st.events + {e}))
  {
    forall g
      ensures g != e ==> (Settles(cfg, seen, g) <==> Settles(cfg, seen + {e}, g))
    {
    }
  }

  /** One delivery keeps the store settled. */
  lemma SettledStep(cfg: Config, seen: set<Event>, st: State, e: Event, now: Timestamp)
    requires cfg.capacity.None? && !IsExpiredAt(e, now)
    requires UniqueIds(seen + {e}) && (forall f :: f in seen + {e} ==> Tame(cfg, f))
    requires Settled(cfg, seen, st)
    ensures Settled(cfg, seen + {e}, Step(cfg, st, e, now).0)
  {
    if e in seen {
      assert seen + {e} == seen;
      Redelivery(cfg, seen, st, e, now);
    } else {
      NewStep(cfg, seen, st, e, now);
    }
  }

  lemma NewStep(cfg: Config, seen: set<Event>, st: State, e: Event, now: Timestamp)
    requires cfg.capacity.None? && !IsExpiredAt(e, now) && e !in seen
    requires UniqueIds(seen + {e}) && (forall f :: f in seen + {e} ==> Tame(cfg, f))
    requires Settled(cfg, seen, st)
    ensures Settled(cfg, seen + {e}, Step(cfg, st, e, now).0)
  {
    KindsDisjoint(e.kind);
    FreshId(cfg, seen, st, e);
    FreshRefusal(st, e, now);
    hide Settled, UniqueIds, SameAddress, Before, Tame, Overreaches, Outlives, Identifier, Refusal, CoordinateDeleted;
    if HasCoordinate(e) {
      DeletedIff(cfg, seen, st, e);
      if !Outlives(cfg, seen, e) {
        ArrivesDeleted(cfg, seen, st, e);
      } else if IsAddressable(e.kind) && Identifier(e).None? {
        ArrivesUnidentified(cfg, seen, st, e);
      } else if exists f :: f in Rivals(st.events, e) && !Before(e, f) {
        var f :| f in Rivals(st.events, e) && !Before(e, f);
        ArrivesLate(cfg, seen, st, e, f);
      } else {
        ArrivesFirst(cfg, seen, st, e);
      }
    } else {
      NoRivals(st.events, e);
      if IsDeletion(cfg, e) {
        ArrivesDeleting(cfg, seen, st, e);
      } else {
        ArrivesOrdinary(cfg, seen, st, e);
      }
    }
  }

  /** Of the reasons to refuse, only two are left for a new event. */
  lemma FreshRefusal(st: State, e: Event, now: Timestamp)
    requires !IsExpiredAt(e, now) && st.deletedIds == {} && st.vanished == {}
    requires forall f :: f in st.events ==> f.id != e.id
    ensures Refusal(st, e, now)
            == if IsEphemeral(e.kind) then Some(Ephemeral)
               else if CoordinateDeleted(st.deletedAt, e) then Some(Deleted)
               else None
    ensures CoordinateDeleted(st.deletedAt, e) ==> HasCoordinate(e)
  {
  }

  lemma FreshId(cfg: Config, seen: set<Event>, st: State, e: Event)
    requires UniqueIds(seen + {e}) && Settled(cfg, seen, st) && e !in seen && Tame(cfg, e)
    ensures forall f :: f in st.events ==> f.id != e.id
    ensures st.deletedIds == {} && st.vanished == {} && !IsVanish(cfg, e) && e !in st.events
  {
    forall f | f in st.events
      ensures f.id != e.id
    {
      assert f in seen + {e} && e in seen + {e};
    }
  }

  lemma NoRivals(events: set<Event>, e: Event)
    requires !HasCoordinate(e)
    ensures Rivals(events, e) == {}
  {
  }

  /** An addressable event without an identifier is never stored and competes with nothing. */
  lemma ArrivesUnidentified(cfg: Config, seen: set<Event>, st: State, e: Event)
    requires Settled(cfg, seen, st) && IsAddressable(e.kind) && Identifier(e).None?
    ensures Settled(cfg, seen + {e}, st)
  {
    KindsDisjoint(e.kind);
    forall g
      ensures Settles(cfg, seen, g) <==> Settles(cfg, seen + {e}, g)
    {
      assert !SameAddress(e, g);
    }
  }

  lemma {:induction false} RunSettles(cfg: Config, ds: seq<Delivery>)
    requires cfg.capacity.None? && UniqueIds(Delivered(ds))
    requires forall d :: d in ds ==> !IsExpiredAt(d.event, d.now) && Tame(cfg, d.event)
    ensures Settled(cfg, Delivered(ds), Deliveries(cfg, ds))
  {
    if ds != [] {
      var before, d := ds[..|ds| - 1], ds[|ds| - 1];
      assert ds == before + [d] && d in ds;
      assert Delivered(ds) == Delivered(before) + {d.event};
      RunSettles(cfg, before);
      SettledStep(cfg, Delivered(before), Deliveries(cfg, before), d.event, d.now);
    }
  }

  /** Any two deliveries of the same events, in any order and with repeats, end in the same state. */
  lemma Convergence(cfg: Config, a: seq<Delivery>, b: seq<Delivery>)
    requires cfg.capacity.None? && Delivered(a) == Delivered(b) && UniqueIds(Delivered(a))
    requires forall d :: d in a + b ==> !IsExpiredAt(d.event, d.now) && Tame(cfg, d.event)
    ensures Deliveries(cfg, a) == Deliveries(cfg, b)
  {
    forall d | d in a
      ensures d in a + b
    {
    }
    forall d | d in b
      ensures d in a + b
    {
    }
    RunSettles(cfg, a);
    RunSettles(cfg, b);
    SettledUnique(cfg, Delivered(a), Deliveries(cfg, a), Deliveries(cfg, b));
  }

  /**
    An address ends up with the first event seen there, if that outlives the address's
    deletions, and else with nothing.
  */
  lemma AddressHoldsItsLeader(cfg: Config, ds: seq<Delivery>, e: Event)
    requires cfg.capacity.None? && UniqueIds(Delivered(ds))
    requires forall d :: d in ds ==> !IsExpiredAt(d.event, d.now) && Tame(cfg, d.event)
    requires e in Delivered(ds) && SameAddress(e, e) && Leads(Delivered(ds), e)
    ensures Rivals(Deliveries(cfg, ds).events, e) == if Outlives(cfg, Delivered(ds), e) then {e} else {}
  {
    KindsDisjoint(e.kind);
    var seen := Delivered(ds);
    RunSettles(cfg, ds);
    forall f | f in Rivals(Deliveries(cfg, ds).events, e)
      ensures f == e
    {
      var d :| d in ds && d.event == f;
      SameAddressSameCoordinate(cfg, f, e);
    }
    assert Settles(cfg, seen, e) <==> Outlives(cfg, seen, e);
  }

  // ---- an event and a deletion request, in either order ----

  /** Both get in on their own: the store is unbounded, neither has expired, and the event is no request. */
  predicate Pair(cfg: Config, e: Event, d: Event, now: Timestamp) {
    && cfg.nip09 && cfg.capacity.None?
    && e.id != d.id && !IsExpiredAt(e, now) && !IsExpiredAt(d, now)
    && Keepable(e) && !IsDeletion(cfg, e) && !IsVanish(cfg, e)
    && d.kind == EVENT_DELETION
  }

  /** The tombstones the request leaves in an empty store turn the event away. */
  predicate DeletedEarly(d: Event, e: Event) {
    && CoordinateOf(e).Some? && CoordinateOf(e).value in OwnCoordinates(d.author, Coordinates(d.tags))
    && e.createdAt <= d.createdAt
  }

  /** With only the event stored, the request names no other author's event unless it names this one. */
  lemma OwnIdsAlone(e: Event, d: Event)
    ensures OwnIds({e}, d.author, EventIds(d.tags)) == EventIds(d.tags)
            <==> e.author == d.author || e.id !in EventIds(d.tags)
    ensures e.id in OwnIds({e}, d.author, EventIds(d.tags)) <==> e.author == d.author && e.id in EventIds(d.tags)
    ensures OwnIds({}, d.author, EventIds(d.tags)) == EventIds(d.tags)
  {
    var ids := EventIds(d.tags);
    OwnIdsPrefix({e}, d.author, ids);
    AllOwnIds({}, d.author, ids);
    if e.author == d.author || e.id !in ids {
      AllOwnIds({e}, d.author, ids);
    } else {
      assert ForeignId({e}, d.author, e.id);
    }
  }

  /** What the request does to the event when it comes second. */
  lemma CoversAlone(e: Event, d: Event)
    ensures Covers({e}, d, e) <==>
            && e.createdAt <= d.createdAt
            && ((e.author == d.author && e.id in EventIds(d.tags)) ||
                exists c :: c in OwnCoordinates(d.author, Coordinates(d.tags)) && Targets(c, e))
  {
    OwnIdsAlone(e, d);
  }

  /** A stored event of its address precedes the newcomer. */
  ghost predicate Beaten(events: set<Event>, e: Event) {
    exists r :: r in Rivals(events, e) && !Before(e, r)
  }

  /** The stored events after an event that is not refused. */
  ghost function WithEvent(events: set<Event>, e: Event): set<Event> {
    if Beaten(events, e) then events else events - Rivals(events, e) + {e}
  }

  /** The stored events after a deletion request that is not refused. */
  ghost function WithRequest(events: set<Event>, d: Event): set<Event> {
    (set f | f in events && !Covers(events, d, f)) + if Overreaches(events, d) then {} else {d}
  }

  /** Nothing stored has the id, and no tombstone is in the way. */
  ghost predicate Welcome(cfg: Config, st: State, e: Event, now: Timestamp) {
    Coherent(cfg, st) && Refusal(st, e, now).None?
  }

  lemma EventStep(cfg: Config, st: State, e: Event, now: Timestamp)
    requires cfg.capacity.None? && Welcome(cfg, st, e, now)
    requires Keepable(e) && !IsDeletion(cfg, e) && !IsVanish(cfg, e)
    ensures Step(cfg, st, e, now).0 == st.(events := WithEvent(st.events, e))
  {
    KindsDisjoint(e.kind);
    if !HasCoordinate(e) {
      NoRivals(st.events, e);
    }
  }

  lemma RequestStep(cfg: Config, st: State, d: Event, now: Timestamp)
    requires cfg.nip09 && cfg.capacity.None? && Welcome(cfg, st, d, now) && d.kind == EVENT_DELETION
    ensures Step(cfg, st, d, now).0 == AfterDeletion(st, d).(events := WithRequest(st.events, d))
  {
    KindsDisjoint(d.kind);
    hide Covers, OwnIds, OwnCoordinates, EventIds, Coordinates;
    NoRivals(st.events, d);
  }

  /** What an event and then a deletion request leave stored. */
  lemma EventThenRequest(cfg: Config, st: State, e: Event, d: Event, now: Timestamp)
    requires Pair(cfg, e, d, now) && Welcome(cfg, st, e, now) && Welcome(cfg, st, d, now)
    ensures Step(cfg, Step(cfg, st, e, now).0, d, now).0.events == WithRequest(WithEvent(st.events, e), d)
  {
    KindsDisjoint(d.kind);
    EventStep(cfg, st, e, now);
    var st' := Step(cfg, st, e, now).0;
    StepCoherent(cfg, st, e, now);
    assert Refusal(st', d, now).None?;
    hide Step, Refusal;
    RequestStep(cfg, st', d, now);
  }

  /** What the request and then the event leave stored. */
  lemma RequestThenEvent(cfg: Config, st: State, e: Event, d: Event, now: Timestamp)
    requires Pair(cfg, e, d, now) && Welcome(cfg, st, e, now) && Welcome(cfg, st, d, now)
    ensures var left := WithRequest(st.events, d);
            Step(cfg, Step(cfg, st, d, now).0, e, now).0.events
            == if DeletedEarly(d, e) then left else WithEvent(left, e)
  {
    RequestStep(cfg, st, d, now);
    var st' := Step(cfg, st, d, now).0;
    StepCoherent(cfg, st, d, now);
    StillWelcomeIff(cfg, st, e, d, now);
    hide Step, AfterDeletion, WithEvent, WithRequest, DeletedEarly;
    if Refusal(st', e, now).None? {
      EventStep(cfg, st', e, now);
    } else {
      RefusedStep(cfg, st', e, now);
    }
  }

  lemma RefusedStep(cfg: Config, st: State, e: Event, now: Timestamp)
    requires Refusal(st, e, now).Some?
    ensures Step(cfg, st, e, now).0 == st
  {
  }

  /** After the request, its tombstones turn the event away or nothing does. */
  lemma StillWelcomeIff(cfg: Config, st: State, e: Event, d: Event, now: Timestamp)
    requires Pair(cfg, e, d, now) && Welcome(cfg, st, e, now)
    ensures Refusal(AfterDeletion(st, d).(events := WithRequest(st.events, d)), e, now).Some? <==> DeletedEarly(d, e)
  {
    hide Covers, Overreaches, OwnIds, OwnCoordinates, EventIds, Coordinates;
    var st' := AfterDeletion(st, d).(events := WithRequest(st.events, d));
    assert forall f :: f in st'.events ==> f.id != e.id;
    assert e.id !in st'.deletedIds;
    assert CoordinateDeleted(st'.deletedAt, e) <==> DeletedEarly(d, e);
  }

  /** The request obeys the same tags and covers the same of the other events, before the event and after it. */
  ghost predicate SameReach(events: set<Event>, e: Event, d: Event) {
    var with := WithEvent(events, e);
    && (Overreaches(events, d) <==> Overreaches(with, d))
    && forall f :: f in events * with ==> (Covers(events, d, f) <==> Covers(with, d, f))
  }

  /**
    An event and a deletion request that a store would each take, in either order, end with the
    same events if and only if: with a stored event preceding the newcomer, the request keeps the
    newcomer out or spares that event; and otherwise the request deletes the newcomer exactly when
    it keeps it out, then also deletes what the newcomer replaces, and reaches the same of the rest.
  */
  lemma OrdersAgreeIff(cfg: Config, st: State, e: Event, d: Event, now: Timestamp)
    requires Pair(cfg, e, d, now) && Welcome(cfg, st, e, now) && Welcome(cfg, st, d, now)
    ensures Step(cfg, Step(cfg, st, e, now).0, d, now).0.events == Step(cfg, Step(cfg, st, d, now).0, e, now).0.events
            <==> if Beaten(st.events, e)
                 then DeletedEarly(d, e) || forall r :: r in Rivals(st.events, e) ==> !Covers(st.events, d, r)
                 else && (Covers(WithEvent(st.events, e), d, e) <==> DeletedEarly(d, e))
                      && (DeletedEarly(d, e) ==> forall r :: r in Rivals(st.events, e) ==> Covers(st.events, d, r))
                      && SameReach(st.events, e, d)
  {
    EventThenRequest(cfg, st, e, d, now);
    RequestThenEvent(cfg, st, e, d, now);
    OnlyRival(cfg, st, e);
    NoIdYet(cfg, st, e, d, now);
    hide Step, Welcome, Coherent, Refusal;
    if Beaten(st.events, e) {
      BeatenOrders(st.events, e, d);
    } else {
      UnbeatenOrders(st.events, e, d);
    }
  }

  lemma NoIdYet(cfg: Config, st: State, e: Event, d: Event, now: Timestamp)
    requires Pair(cfg, e, d, now) && Welcome(cfg, st, e, now) && Welcome(cfg, st, d, now)
    ensures e !in st.events && d !in st.events && e != d && !SameAddress(d, e)
  {
    KindsDisjoint(d.kind);
  }

  lemma OnlyRival(cfg: Config, st: State, e: Event)
    requires Coherent(cfg, st)
    ensures forall r, r' :: r in Rivals(st.events, e) && r' in Rivals(st.events, e) ==> r == r'
  {
    forall r, r' | r in Rivals(st.events, e) && r' in Rivals(st.events, e)
      ensures r == r'
    {
      assert SameAddress(r, r');
    }
  }

  lemma BeatenOrders(events: set<Event>, e: Event, d: Event)
    requires Beaten(events, e) && e !in events && d !in events && e != d && !SameAddress(d, e)
    requires forall r, r' :: r in Rivals(events, e) && r' in Rivals(events, e) ==> r == r'
    ensures var left := WithRequest(events, d);
            WithRequest(WithEvent(events, e), d) == (if DeletedEarly(d, e) then left else WithEvent(left, e))
            <==> DeletedEarly(d, e) || forall r :: r in Rivals(events, e) ==> !Covers(events, d, r)
  {
    hide Covers, Overreaches, DeletedEarly, SameAddress, Before;
    var left := WithRequest(events, d);
    var r :| r in Rivals(events, e) && !Before(e, r);
    assert Rivals(events, e) == {r};
    if Covers(events, d, r) {
      assert r !in left && Rivals(left, e) <= Rivals(events, e);
      assert Rivals(left, e) == {};
      assert e in WithEvent(left, e) && e !in left;
    } else {
      assert r in Rivals(left, e);
    }
  }

  lemma UnbeatenOrders(events: set<Event>, e: Event, d: Event)
    requires !Beaten(events, e) && e !in events && d !in events && e != d && !SameAddress(d, e)
    ensures var left := WithRequest(events, d);
            WithRequest(WithEvent(events, e), d) == (if DeletedEarly(d, e) then left else WithEvent(left, e))
            <==> && (Covers(WithEvent(events, e), d, e) <==> DeletedEarly(d, e))
                 && (DeletedEarly(d, e) ==> forall r :: r in Rivals(events, e) ==> Covers(events, d, r))
                 && SameReach(events, e, d)
  {
    hide Covers, Overreaches, DeletedEarly, SameAddress, Before;
    var left, with := WithRequest(events, d), WithEvent(events, e);
    var first := WithRequest(with, d);
    var second := if DeletedEarly(d, e) then left else WithEvent(left, e);
    assert Rivals(left, e) <= Rivals(events, e);
    assert !Beaten(left, e);
    assert with == events - Rivals(events, e) + {e};
    assert e in first <==> !Covers(with, d, e);
    assert e in second <==> !DeletedEarly(d, e);
    assert d in first <==> !Overreaches(with, d);
    assert d in second <==> !Overreaches(events, d);
    forall f | f in events
      ensures f in first <==> f !in Rivals(events, e) && !Covers(with, d, f)
      ensures f in second <==> !Covers(events, d, f) && (DeletedEarly(d, e) || f !in Rivals(events, e))
    {
    }
  }

  lemma {:induction false} SameOwnIds(a: set<Event>, b: set<Event>, author: PublicKey, ids: seq<EventId>)
    requires forall id :: ForeignId(a, author, id) <==> ForeignId(b, author, id)
    ensures OwnIds(a, author, ids) == OwnIds(b, author, ids)
  {
    if ids != [] {
      SameOwnIds(a, b, author, ids[1..]);
    }
  }

  /** An event of the request's own author changes nothing in what the request reaches otherwise. */
  lemma OwnReach(events: set<Event>, e: Event, d: Event)
    requires e.author == d.author
    ensures SameReach(events, e, d)
    ensures forall f :: Covers(events, d, f) <==> Covers(WithEvent(events, e), d, f)
  {
    var with := WithEvent(events, e);
    forall id
      ensures ForeignId(events, d.author, id) <==> ForeignId(with, d.author, id)
    {
      assert forall f: Event :: f.author != d.author ==> (f in events <==> f in with);
    }
    SameOwnIds(events, with, d.author, EventIds(d.tags));
  }

  /** For an event and a request of one author. */
  lemma OwnOrdersAgreeIff(cfg: Config, st: State, e: Event, d: Event, now: Timestamp)
    requires Pair(cfg, e, d, now) && Welcome(cfg, st, e, now) && Welcome(cfg, st, d, now) && e.author == d.author
    ensures Step(cfg, Step(cfg, st, e, now).0, d, now).0.events == Step(cfg, Step(cfg, st, d, now).0, e, now).0.events
            <==> if Beaten(st.events, e)
                 then DeletedEarly(d, e) || forall r :: r in Rivals(st.events, e) ==> !Covers(st.events, d, r)
                 else && (Covers(st.events, d, e) <==> DeletedEarly(d, e))
                      && (DeletedEarly(d, e) ==> forall r :: r in Rivals(st.events, e) ==> Covers(st.events, d, r))
  {
    OrdersAgreeIff(cfg, st, e, d, now);
    OwnReach(st.events, e, d);
  }

  /** For a request of somebody else that is in order: it must not name the event, unless that is not stored anyway. */
  lemma ForeignOrdersAgreeIff(cfg: Config, st: State, e: Event, d: Event, now: Timestamp)
    requires Pair(cfg, e, d, now) && Welcome(cfg, st, e, now) && Welcome(cfg, st, d, now)
    requires e.author != d.author && !Overreaches(st.events, d)
    ensures Step(cfg, Step(cfg, st, e, now).0, d, now).0.events == Step(cfg, Step(cfg, st, d, now).0, e, now).0.events
            <==> Beaten(st.events, e) || e.id !in EventIds(d.tags)
  {
    OrdersAgreeIff(cfg, st, e, d, now);
    NoIdYet(cfg, st, e, d, now);
    var with := WithEvent(st.events, e);
    OwnCoordinatesPrefix(d.author, Coordinates(d.tags));
    assert !DeletedEarly(d, e);
    forall r | r in Rivals(st.events, e)
      ensures !Covers(st.events, d, r)
    {
      CoversOnlyOwnHere(st.events, d, r);
    }
    if !Beaten(st.events, e) {
      ReachWith(st.events, with, d, e);
    }
  }

  /** A request in order goes out of order once somebody else's event that it names is stored. */
  lemma ReachWith(events: set<Event>, with: set<Event>, d: Event, x: Event)
    requires !Overreaches(events, d) && with <= events + {x} && x in with && x.author != d.author
    ensures Overreaches(with, d) <==> x.id in EventIds(d.tags)
    ensures x.id !in EventIds(d.tags) ==> forall f :: Covers(with, d, f) <==> Covers(events, d, f)
    ensures !Covers(with, d, x)
  {
    var ids := EventIds(d.tags);
    OwnIdsPrefix(events, d.author, ids);
    OwnIdsPrefix(with, d.author, ids);
    CoversOnlyOwnHere(with, d, x);
    if x.id in ids {
      assert ForeignId(with, d.author, x.id);
    } else {
      forall id | id in ids
        ensures !ForeignId(with, d.author, id)
      {
        assert !ForeignId(events, d.author, id);
      }
      AllOwnIds(with, d.author, ids);
    }
  }

  /** A newer version deleted, by its id or not, lets an older one back in unless the request keeps that out too. */
  lemma OlderVersionReturns(cfg: Config, st: State, e: Event, d: Event, now: Timestamp)
    requires Pair(cfg, e, d, now) && Welcome(cfg, st, e, now) && Welcome(cfg, st, d, now)
    requires Beaten(st.events, e) && !DeletedEarly(d, e)
    requires forall r :: r in Rivals(st.events, e) ==> Covers(st.events, d, r)
    ensures e !in Step(cfg, Step(cfg, st, e, now).0, d, now).0.events
    ensures e in Step(cfg, Step(cfg, st, d, now).0, e, now).0.events
  {
    EventThenRequest(cfg, st, e, d, now);
    RequestThenEvent(cfg, st, e, d, now);
    NoIdYet(cfg, st, e, d, now);
    hide Step, Welcome, Covers, Overreaches, DeletedEarly, SameAddress;
    assert Rivals(WithRequest(st.events, d), e) == {};
  }

  // ---- when the store would not take one of the two ----

  /** A request that is refused makes no difference, early or late. */
  lemma RefusedRequestOrders(cfg: Config, st: State, e: Event, d: Event, now: Timestamp)
    requires Pair(cfg, e, d, now) && Coherent(cfg, st) && UniqueIds(st.events + {d}) && Refusal(st, d, now).Some?
    ensures Step(cfg, Step(cfg, st, e, now).0, d, now).0 == Step(cfg, Step(cfg, st, d, now).0, e, now).0
  {
    RefusedStep(cfg, st, d, now);
    if Refusal(st, e, now).None? {
      EventStep(cfg, st, e, now);
      RequestStillRefused(cfg, st, e, d, now);
      hide Step, Refusal;
      RefusedStep(cfg, st.(events := WithEvent(st.events, e)), d, now);
    } else {
      hide Step, Refusal;
      RefusedStep(cfg, st, e, now);
    }
  }

  lemma RequestStillRefused(cfg: Config, st: State, e: Event, d: Event, now: Timestamp)
    requires Pair(cfg, e, d, now) && UniqueIds(st.events + {d}) && Refusal(st, d, now).Some?
    ensures Refusal(st.(events := WithEvent(st.events, e)), d, now).Some?
  {
    KindsDisjoint(d.kind);
    hide Before, IsDeletion, IsVanish, Keepable, Identifier;
    if f :| f in st.events && f.id == d.id {
      assert f in st.events + {d} && f == d;
      assert d !in Rivals(st.events, e);
      assert d in WithEvent(st.events, e);
    }
  }

  /** An event that a tombstone turns away is turned away after the request as well. */
  lemma RefusedEventOrders(cfg: Config, st: State, e: Event, d: Event, now: Timestamp)
    requires Pair(cfg, e, d, now) && Refusal(st, e, now).Some? && forall f :: f in st.events ==> f.id != e.id
    ensures Step(cfg, Step(cfg, st, e, now).0, d, now).0 == Step(cfg, Step(cfg, st, d, now).0, e, now).0
  {
    StepTombstonesGrow(cfg, st, d, now);
    var st' := Step(cfg, st, d, now).0;
    assert Refusal(st', e, now).Some? by {
      assert TombstonesWithin(st, st');
      hide Step;
    }
    hide Refusal;
    RefusedStep(cfg, st, e, now);
    RefusedStep(cfg, st', e, now);
  }

  /** The request's tombstones, or those from before, turn the event away. */
  predicate KeptOut(st: State, d: Event, e: Event) {
    DeletedEarly(d, e) || CoordinateDeleted(st.deletedAt, e) || e.author in st.vanished
  }

  /**
    An event stored already, sent again: it makes no difference unless the request deletes it
    by a coordinate alone and nothing keeps it out.
  */
  lemma RedeliveredOrdersAgreeIff(cfg: Config, st: State, e: Event, d: Event, now: Timestamp)
    requires Pair(cfg, e, d, now) && Coherent(cfg, st) && e in st.events && Welcome(cfg, st, d, now)
    ensures Step(cfg, Step(cfg, st, e, now).0, d, now).0.events == Step(cfg, Step(cfg, st, d, now).0, e, now).0.events
            <==> !Covers(st.events, d, e) || CoversById(st.events, d, e) || KeptOut(st, d, e)
  {
    RefusedStep(cfg, st, e, now);
    RequestStep(cfg, st, d, now);
    NoIdYetButOwn(cfg, st, e, d, now);
    StepCoherent(cfg, st, d, now);
    var st' := Step(cfg, st, d, now).0;
    RedeliveryRefusedIff(cfg, st, e, d, now);
    OnlyRival(cfg, st, e);
    hide Step, Covers, CoversById, Overreaches, KeptOut, Refusal, WithRequest;
    if Refusal(st', e, now).Some? {
      RefusedStep(cfg, st', e, now);
    } else {
      EventStep(cfg, st', e, now);
      AloneAtAddress(st', e);
    }
  }

  lemma NoIdYetButOwn(cfg: Config, st: State, e: Event, d: Event, now: Timestamp)
    requires Pair(cfg, e, d, now) && Coherent(cfg, st) && e in st.events && Welcome(cfg, st, d, now)
    ensures d !in st.events && Refusal(st, e, now) == Some(Duplicate)
  {
  }

  lemma RedeliveryRefusedIff(cfg: Config, st: State, e: Event, d: Event, now: Timestamp)
    requires Pair(cfg, e, d, now) && Coherent(cfg, st) && e in st.events
    ensures var st' := AfterDeletion(st, d).(events := WithRequest(st.events, d));
            && (Refusal(st', e, now).Some?
                <==> !Covers(st.events, d, e) || CoversById(st.events, d, e) || KeptOut(st, d, e))
            && (Refusal(st', e, now).None? ==> e !in st'.events && forall r :: r in Rivals(st'.events, e) ==> r == e)
            && (e in st'.events <==> !Covers(st.events, d, e))
  {
    KindsDisjoint(d.kind);
    hide Overreaches, OwnIds, EventIds, Coordinates, OwnCoordinates;
    var st' := AfterDeletion(st, d).(events := WithRequest(st.events, d));
    forall f | f in st'.events && f.id == e.id
      ensures f == e
    {
      assert f != d;
    }
    assert e.id in CoveredIds(st.events, d) <==> CoversById(st.events, d, e);
    assert CoordinateDeleted(st'.deletedAt, e) <==> DeletedEarly(d, e) || CoordinateDeleted(st.deletedAt, e);
    forall r | r in Rivals(st'.events, e)
      ensures r == e
    {
      assert r != d && SameAddress(r, e);
    }
  }

  lemma AloneAtAddress(st: State, e: Event)
    requires e !in st.events && forall r :: r in Rivals(st.events, e) ==> r == e
    ensures Rivals(st.events, e) == {} && !Beaten(st.events, e) && WithEvent(st.events, e) == st.events + {e}
  {
  }

  // ---- an event and a request to vanish ----

  /** The store is unbounded, and the event is no request. */
  predicate VanishPair(cfg: Config, e: Event, v: Event) {
    && cfg.capacity.None? && e.id != v.id
    && Keepable(e) && !IsDeletion(cfg, e) && !IsVanish(cfg, e) && IsVanish(cfg, v)
  }

  /** The stored events after a request to vanish that is not refused. */
  ghost function WithVanish(events: set<Event>, v: Event): set<Event> {
    (set f | f in events && f.author != v.author && !WrappedFor(f, v.author)) + {v}
  }

  lemma VanishStep(cfg: Config, st: State, v: Event, now: Timestamp)
    requires cfg.capacity.None? && Welcome(cfg, st, v, now) && IsVanish(cfg, v)
    ensures Step(cfg, st, v, now).0
            == State(WithVanish(st.events, v), st.deletedIds, st.deletedAt, st.vanished + {v.author})
  {
    KindsDisjoint(v.kind);
    hide WrappedFor, IsVanishRequestFor;
    NoRivals(st.events, v);
  }

  lemma EventThenVanish(cfg: Config, st: State, e: Event, v: Event, now: Timestamp)
    requires VanishPair(cfg, e, v) && Welcome(cfg, st, e, now) && Welcome(cfg, st, v, now)
    ensures Step(cfg, Step(cfg, st, e, now).0, v, now).0.events == WithVanish(WithEvent(st.events, e), v)
  {
    KindsDisjoint(v.kind);
    EventStep(cfg, st, e, now);
    var st' := Step(cfg, st, e, now).0;
    StepCoherent(cfg, st, e, now);
    assert Refusal(st', v, now).None?;
    hide Step, Refusal;
    VanishStep(cfg, st', v, now);
  }

  lemma VanishThenEvent(cfg: Config, st: State, e: Event, v: Event, now: Timestamp)
    requires VanishPair(cfg, e, v) && Welcome(cfg, st, e, now) && Welcome(cfg, st, v, now)
    ensures var left := WithVanish(st.events, v);
            Step(cfg, Step(cfg, st, v, now).0, e, now).0.events
            == if e.author == v.author then left else WithEvent(left, e)
  {
    VanishStep(cfg, st, v, now);
    var st' := Step(cfg, st, v, now).0;
    StepCoherent(cfg, st, v, now);
    assert Refusal(st', e, now).Some? <==> e.author == v.author;
    hide Step, Refusal;
    if e.author == v.author {
      RefusedStep(cfg, st', e, now);
    } else {
      EventStep(cfg, st', e, now);
    }
  }

  /**
    An event and a request to vanish that a store would each take end with the same events in
    either order if and only if the event is not somebody else's gift wrap for the one who
    vanishes: that is removed when it is there, and let in when it comes after.
  */
  lemma VanishOrdersAgreeIff(cfg: Config, st: State, e: Event, v: Event, now: Timestamp)
    requires VanishPair(cfg, e, v) && Welcome(cfg, st, e, now) && Welcome(cfg, st, v, now)
    ensures Step(cfg, Step(cfg, st, e, now).0, v, now).0.events == Step(cfg, Step(cfg, st, v, now).0, e, now).0.events
            <==> e.author == v.author || !WrappedFor(e, v.author)
  {
    EventThenVanish(cfg, st, e, v, now);
    VanishThenEvent(cfg, st, e, v, now);
    assert v.kind == REQUEST_TO_VANISH;
    hide Step, Welcome, VanishPair;
    if e.author == v.author {
      OwnVanish(st.events, e, v);
    } else {
      ForeignVanish(st.events, e, v);
    }
  }

  lemma OwnVanish(events: set<Event>, e: Event, v: Event)
    requires e.author == v.author
    ensures WithVanish(WithEvent(events, e), v) == WithVanish(events, v)
  {
    hide WrappedFor, Before, Identifier;
  }

  lemma ForeignVanish(events: set<Event>, e: Event, v: Event)
    requires e.author != v.author && e != v && v.kind == REQUEST_TO_VANISH && e !in events
    ensures WithVanish(WithEvent(events, e), v) == WithEvent(WithVanish(events, v), e) <==> !WrappedFor(e, v.author)
  {
    KindsDisjoint(e.kind);
    var left := WithVanish(events, v);
    forall r | SameAddress(r, e)
      ensures r.author != v.author && !WrappedFor(r, v.author)
    {
      KindsDisjoint(r.kind);
    }
    assert Rivals(left, e) == Rivals(events, e);
    hide SameAddress, Before;
    if WrappedFor(e, v.author) {
      NoRivals(left, e);
    }
  }

  /** Of two requests to vanish, the second of one author is turned away; those of two authors do not meet. */
  lemma TwoVanishesAgreeIff(cfg: Config, st: State, v: Event, w: Event, now: Timestamp)
    requires cfg.capacity.None? && v.id != w.id && IsVanish(cfg, v) && IsVanish(cfg, w)
    requires Welcome(cfg, st, v, now) && Welcome(cfg, st, w, now)
    ensures Step(cfg, Step(cfg, st, v, now).0, w, now).0.events == Step(cfg, Step(cfg, st, w, now).0, v, now).0.events
            <==> v.author != w.author
  {
    TwoVanishes(cfg, st, v, w, now);
    TwoVanishes(cfg, st, w, v, now);
    assert v !in st.events && w !in st.events;
    hide Step, Welcome, IsVanish;
  }

  lemma TwoVanishes(cfg: Config, st: State, v: Event, w: Event, now: Timestamp)
    requires cfg.capacity.None? && v.id != w.id && IsVanish(cfg, v) && IsVanish(cfg, w)
    requires Welcome(cfg, st, v, now) && Welcome(cfg, st, w, now)
    ensures var left := WithVanish(st.events, v);
            Step(cfg, Step(cfg, st, v, now).0, w, now).0.events
            == if v.author == w.author then left
               else (set f | f in st.events && f.author != v.author && f.author != w.author
                             && !WrappedFor(f, v.author) && !WrappedFor(f, w.author)) + {v, w}
  {
    VanishStep(cfg, st, v, now);
    StepCoherent(cfg, st, v, now);
    var st' := Step(cfg, st, v, now).0;
    KindsDisjoint(w.kind);
    assert Refusal(st', w, now).Some? <==> v.author == w.author;
    assert v.kind == REQUEST_TO_VANISH;
    hide Step, Refusal, IsVanish;
    if v.author == w.author {
      RefusedStep(cfg, st', w, now);
    } else {
      VanishStep(cfg, st', w, now);
    }
  }

  // ---- two deletion requests ----

  predicate RequestPair(cfg: Config, a: Event, b: Event) {
    cfg.nip09 && cfg.capacity.None? && a.id != b.id && a.kind == EVENT_DELETION && b.kind == EVENT_DELETION
  }

  lemma TwoRequests(cfg: Config, st: State, a: Event, b: Event, now: Timestamp)
    requires RequestPair(cfg, a, b) && Welcome(cfg, st, a, now) && Welcome(cfg, st, b, now)
    ensures Step(cfg, Step(cfg, st, a, now).0, b, now).0.events == WithRequest(WithRequest(st.events, a), b)
    ensures a !in st.events && b !in st.events
  {
    RequestStep(cfg, st, a, now);
    StepCoherent(cfg, st, a, now);
    KindsDisjoint(b.kind);
    var st' := Step(cfg, st, a, now).0;
    hide Covers, Overreaches;
    assert Refusal(st', b, now).None?;
    hide Step, Refusal;
    RequestStep(cfg, st', b, now);
  }

  /** A request changes nothing in what another one of its author reaches. */
  lemma RequestReach(events: set<Event>, a: Event, b: Event)
    requires a.author == b.author
    ensures Overreaches(WithRequest(events, a), b) <==> Overreaches(events, b)
    ensures forall f :: Covers(WithRequest(events, a), b, f) <==> Covers(events, b, f)
  {
    var with := WithRequest(events, a);
    forall id
      ensures ForeignId(events, b.author, id) <==> ForeignId(with, b.author, id)
    {
      forall f: Event | f.author != b.author
        ensures f in events <==> f in with
      {
        if f in events {
          CoversOnlyOwnHere(events, a, f);
        }
      }
    }
    SameOwnIds(events, with, b.author, EventIds(b.tags));
  }

  /** Two requests of one author: neither, if it is in order, may be deleted by the other. */
  lemma RequestsOrdersAgreeIff(cfg: Config, st: State, a: Event, b: Event, now: Timestamp)
    requires RequestPair(cfg, a, b) && Welcome(cfg, st, a, now) && Welcome(cfg, st, b, now) && a.author == b.author
    ensures Step(cfg, Step(cfg, st, a, now).0, b, now).0.events == Step(cfg, Step(cfg, st, b, now).0, a, now).0.events
            <==> (Overreaches(st.events, a) || !Covers(st.events, b, a))
                 && (Overreaches(st.events, b) || !Covers(st.events, a, b))
  {
    TwoRequests(cfg, st, a, b, now);
    TwoRequests(cfg, st, b, a, now);
    RequestReach(st.events, a, b);
    RequestReach(st.events, b, a);
    hide Step, Welcome, Covers, Overreaches;
    var first, second := WithRequest(WithRequest(st.events, a), b), WithRequest(WithRequest(st.events, b), a);
    assert a in first <==> !Overreaches(st.events, a) && !Covers(st.events, b, a);
    assert a in second <==> !Overreaches(st.events, a);
    assert b in second <==> !Overreaches(st.events, b) && !Covers(st.events, a, b);
    assert b in first <==> !Overreaches(st.events, b);
  }

  /** Two requests of different authors, each in order: neither may name the other. */
  lemma ForeignRequestsOrdersAgreeIff(cfg: Config, st: State, a: Event, b: Event, now: Timestamp)
    requires RequestPair(cfg, a, b) && Welcome(cfg, st, a, now) && Welcome(cfg, st, b, now) && a.author != b.author
    requires !Overreaches(st.events, a) && !Overreaches(st.events, b)
    ensures Step(cfg, Step(cfg, st, a, now).0, b, now).0.events == Step(cfg, Step(cfg, st, b, now).0, a, now).0.events
            <==> a.id !in EventIds(b.tags) && b.id !in EventIds(a.tags)
  {
    TwoRequests(cfg, st, a, b, now);
    TwoRequests(cfg, st, b, a, now);
    ReachWith(st.events, WithRequest(st.events, a), b, a);
    ReachWith(st.events, WithRequest(st.events, b), a, b);
    hide Step, Welcome, Covers, Overreaches, EventIds;
    var first, second := WithRequest(WithRequest(st.events, a), b), WithRequest(WithRequest(st.events, b), a);
    assert a in first && (a in second <==> b.id !in EventIds(a.tags));
    assert b in second && (b in first <==> a.id !in EventIds(b.tags));
  }

  // ---- a deletion request and a request to vanish ----

  lemma RequestThenVanish(cfg: Config, st: State, d: Event, v: Event, now: Timestamp)
    requires cfg.nip09 && cfg.capacity.None? && d.id != v.id && d.kind == EVENT_DELETION && IsVanish(cfg, v)
    requires Welcome(cfg, st, d, now) && Welcome(cfg, st, v, now)
    ensures Step(cfg, Step(cfg, st, d, now).0, v, now).0.events == WithVanish(WithRequest(st.events, d), v)
    ensures d !in st.events && v !in st.events
  {
    RequestStep(cfg, st, d, now);
    StepCoherent(cfg, st, d, now);
    KindsDisjoint(v.kind);
    var st' := Step(cfg, st, d, now).0;
    hide Covers, Overreaches, IsVanishRequestFor;
    assert Refusal(st', v, now).None?;
    hide Step, Refusal;
    VanishStep(cfg, st', v, now);
  }

  lemma VanishThenRequest(cfg: Config, st: State, d: Event, v: Event, now: Timestamp)
    requires cfg.nip09 && cfg.capacity.None? && d.id != v.id && d.kind == EVENT_DELETION && IsVanish(cfg, v)
    requires Welcome(cfg, st, d, now) && Welcome(cfg, st, v, now)
    ensures var left := WithVanish(st.events, v);
            Step(cfg, Step(cfg, st, v, now).0, d, now).0.events
            == if d.author == v.author then left else WithRequest(left, d)
  {
    VanishStep(cfg, st, v, now);
    StepCoherent(cfg, st, v, now);
    KindsDisjoint(d.kind);
    var st' := Step(cfg, st, v, now).0;
    assert Refusal(st', d, now).Some? <==> d.author == v.author;
    hide Step, Refusal;
    if d.author == v.author {
      RefusedStep(cfg, st', d, now);
    } else {
      RequestStep(cfg, st', d, now);
    }
  }

  /** A deletion request in order and a request to vanish: somebody else's must not be named by its id. */
  lemma DeletionAndVanishAgreeIff(cfg: Config, st: State, d: Event, v: Event, now: Timestamp)
    requires cfg.nip09 && cfg.capacity.None? && d.id != v.id && d.kind == EVENT_DELETION && IsVanish(cfg, v)
    requires Welcome(cfg, st, d, now) && Welcome(cfg, st, v, now) && !Overreaches(st.events, d)
    ensures Step(cfg, Step(cfg, st, d, now).0, v, now).0.events == Step(cfg, Step(cfg, st, v, now).0, d, now).0.events
            <==> d.author == v.author || v.id !in EventIds(d.tags)
  {
    RequestThenVanish(cfg, st, d, v, now);
    VanishThenRequest(cfg, st, d, v, now);
    hide Step, Welcome, IsVanish, Overreaches, Covers;
    if d.author == v.author {
      OwnVanishRequest(st.events, d, v);
    } else {
      ReachWith(st.events, WithVanish(st.events, v), d, v);
      var first, second := WithVanish(WithRequest(st.events, d), v), WithRequest(WithVanish(st.events, v), d);
      assert d in first by { assert !WrappedFor(d, v.author); }
      assert d in second <==> v.id !in EventIds(d.tags);
      assert v in second;
    }
  }

  lemma OwnVanishRequest(events: set<Event>, d: Event, v: Event)
    requires d.author == v.author
    ensures WithVanish(WithRequest(events, d), v) == WithVanish(events, v)
  {
    hide WrappedFor, Covers, Overreaches;
    forall f | f in events && f.author != v.author
      ensures f in WithRequest(events, d)
    {
      CoversOnlyOwnHere(events, d, f);
    }
  }

  // ---- two events ----

  /** Two events that are no requests end the same in either order, whatever is stored. */
  lemma TwoEventsAgree(cfg: Config, st: State, a: Event, b: Event, now: Timestamp)
    requires cfg.capacity.None? && a.id != b.id && Welcome(cfg, st, a, now) && Welcome(cfg, st, b, now)
    requires Keepable(a) && !IsDeletion(cfg, a) && !IsVanish(cfg, a)
    requires Keepable(b) && !IsDeletion(cfg, b) && !IsVanish(cfg, b)
    ensures Step(cfg, Step(cfg, st, a, now).0, b, now).0 == Step(cfg, Step(cfg, st, b, now).0, a, now).0
  {
    TwoEvents(cfg, st, a, b, now);
    TwoEvents(cfg, st, b, a, now);
    TwoArrivals(cfg, st, a, b);
    hide Step, WithEvent;
  }

  lemma TwoEvents(cfg: Config, st: State, a: Event, b: Event, now: Timestamp)
    requires cfg.capacity.None? && a.id != b.id && Welcome(cfg, st, a, now) && Welcome(cfg, st, b, now)
    requires Keepable(a) && !IsDeletion(cfg, a) && !IsVanish(cfg, a)
    requires Keepable(b) && !IsDeletion(cfg, b) && !IsVanish(cfg, b)
    ensures Step(cfg, Step(cfg, st, a, now).0, b, now).0 == st.(events := WithEvent(WithEvent(st.events, a), b))
  {
    EventStep(cfg, st, a, now);
    StepCoherent(cfg, st, a, now);
    var st' := Step(cfg, st, a, now).0;
    assert Refusal(st', b, now).None?;
    hide Step, Refusal, WithEvent;
    EventStep(cfg, st', b, now);
  }

  lemma TwoArrivals(cfg: Config, st: State, a: Event, b: Event)
    requires Coherent(cfg, st) && a.id != b.id && forall f :: f in st.events ==> f.id != a.id && f.id != b.id
    ensures WithEvent(WithEvent(st.events, a), b) == WithEvent(WithEvent(st.events, b), a)
  {
    OnlyRival(cfg, st, a);
    assert a !in st.events && b !in st.events;
    hide WithEvent, Coherent, Identifier;
    if SameAddress(a, b) {
      SameAddressArrivals(st.events, a, b);
    } else {
      OtherAddressArrivals(st.events, a, b);
    }
  }

  lemma SameAddressArrivals(events: set<Event>, a: Event, b: Event)
    requires SameAddress(a, b) && a.id != b.id && a !in events && b !in events
    requires forall r, r' :: r in Rivals(events, a) && r' in Rivals(events, a) ==> r == r'
    ensures WithEvent(WithEvent(events, a), b) == WithEvent(WithEvent(events, b), a)
  {
    assert SameAddress(b, a) && forall f :: SameAddress(f, a) <==> SameAddress(f, b);
    hide SameAddress, WithEvent, Beaten;
    assert Rivals(events, a) == Rivals(events, b);
    SameAddressArrival(events, a, b);
    SameAddressArrival(events, b, a);
    hide Rivals;
  }

  lemma OtherAddressArrivals(events: set<Event>, a: Event, b: Event)
    requires !SameAddress(a, b) && a !in events && b !in events
    ensures WithEvent(WithEvent(events, a), b) == WithEvent(WithEvent(events, b), a)
  {
    assert !SameAddress(b, a) && forall f :: !(SameAddress(f, a) && SameAddress(f, b));
    hide SameAddress, Beaten;
    OtherAddressArrival(events, a, b);
    OtherAddressArrival(events, b, a);
    assert a !in Rivals(events, b) && b !in Rivals(events, a);
    hide Rivals;
  }

  /** Of two newcomers at one address, the first of all that meet there stays. */
  lemma SameAddressArrival(events: set<Event>, a: Event, b: Event)
    requires SameAddress(a, b) && a.id != b.id && a !in events && b !in events
    requires forall f :: SameAddress(f, a) <==> SameAddress(f, b)
    requires forall r, r' :: r in Rivals(events, a) && r' in Rivals(events, a) ==> r == r'
    ensures WithEvent(WithEvent(events, a), b) ==
            if Beaten(events, a) && Beaten(events, b) then events
            else events - Rivals(events, a) +
                 if Beaten(events, b) || (!Beaten(events, a) && Before(a, b)) then {a} else {b}
  {
    assert Rivals(events, a) == Rivals(events, b);
    assert SameAddress(a, a);
    hide SameAddress;
    if !Beaten(events, a) {
      var with := WithEvent(events, a);
      assert Rivals(with, b) == {a};
      assert Beaten(with, b) <==> Before(a, b);
    }
  }

  lemma OtherAddressArrival(events: set<Event>, a: Event, b: Event)
    requires !SameAddress(a, b) && Rivals(events, a) !! Rivals(events, b)
    ensures Beaten(WithEvent(events, a), b) <==> Beaten(events, b)
    ensures WithEvent(WithEvent(events, a), b) ==
            if Beaten(events, b) then WithEvent(events, a) else WithEvent(events, a) - Rivals(events, b) + {b}
  {
    hide SameAddress, Before;
    assert Rivals(WithEvent(events, a), b) == Rivals(events, b);
  }

  // ---- the same, starting from nothing ----

  lemma FromEmpty(cfg: Config, e: Event, d: Event, now: Timestamp)
    requires Pair(cfg, e, d, now)
    ensures Deliveries(cfg, [Deliver(e, now), Deliver(d, now)]).events ==
            (if Covers({e}, d, e) then {} else {e}) + if Overreaches({e}, d) then {} else {d}
    ensures Deliveries(cfg, [Deliver(d, now), Deliver(e, now)]).events ==
            (if Overreaches({}, d) then {} else {d}) + if DeletedEarly(d, e) then {} else {e}
  {
    DeliverTwo(cfg, e, d, now);
    DeliverTwo(cfg, d, e, now);
    NothingInTheWay(cfg, e, d, now);
    hide Welcome, Step, Deliveries, DeletedEarly, Pair, Covers, Overreaches, SameAddress, Before;
    EventThenRequest(cfg, EMPTY_STATE, e, d, now);
    RequestThenEvent(cfg, EMPTY_STATE, e, d, now);
    assert WithEvent({}, e) == {e};
    assert WithRequest({}, d) == if Overreaches({}, d) then {} else {d};
    assert Rivals(WithRequest({}, d), e) == {};
  }

  lemma NothingInTheWay(cfg: Config, e: Event, d: Event, now: Timestamp)
    requires Pair(cfg, e, d, now)
    ensures Welcome(cfg, EMPTY_STATE, e, now) && Welcome(cfg, EMPTY_STATE, d, now) && !SameAddress(d, e)
  {
    KindsDisjoint(d.kind);
  }

  /**
    Starting from nothing, the two orders end with the same events if and only if the request
    deletes the event by what it names exactly when its tombstones keep it out, and does not name
    the event of somebody else while being in order otherwise.
  */
  lemma OrdersFromEmptyAgreeIff(cfg: Config, e: Event, d: Event, now: Timestamp)
    requires Pair(cfg, e, d, now)
    ensures Deliveries(cfg, [Deliver(e, now), Deliver(d, now)]).events
            == Deliveries(cfg, [Deliver(d, now), Deliver(e, now)]).events
            <==> && (Covers({e}, d, e) <==> DeletedEarly(d, e))
                 && (e.author == d.author || e.id !in EventIds(d.tags) ||
                     OwnCoordinates(d.author, Coordinates(d.tags)) != Coordinates(d.tags))
  {
    FromEmpty(cfg, e, d, now);
    OwnIdsAlone(e, d);
    hide Covers, Deliveries, DeletedEarly, Pair, OwnIds, OwnCoordinates, EventIds, Coordinates;
    var x := if Covers({e}, d, e) then {} else {e};
    var y := if DeletedEarly(d, e) then {} else {e};
    var u := if Overreaches({e}, d) then {} else {d};
    var v := if Overreaches({}, d) then {} else {d};
    assert e in x + u <==> !Covers({e}, d, e);
    assert e in v + y <==> !DeletedEarly(d, e);
    assert d in x + u <==> !Overreaches({e}, d);
    assert d in v + y <==> !Overreaches({}, d);
  }

  /** The event is gone when it came first, and stored when it came second. */
  ghost predicate OnlyIfLate(cfg: Config, e: Event, d: Event, now: Timestamp) {
    && e !in Deliveries(cfg, [Deliver(e, now), Deliver(d, now)]).events
    && e in Deliveries(cfg, [Deliver(d, now), Deliver(e, now)]).events
  }

  /** A request that names the event by its id, and not by its coordinate, deletes it only if it is there already. */
  lemma NotDeletedEarly(cfg: Config, e: Event, d: Event, now: Timestamp)
    requires Pair(cfg, e, d, now) && e.author == d.author && e.createdAt <= d.createdAt
    requires e.id in EventIds(d.tags) && !DeletedEarly(d, e)
    ensures OnlyIfLate(cfg, e, d, now)
  {
    FromEmpty(cfg, e, d, now);
    CoversAlone(e, d);
  }

  /** So does one that names an addressable kind without an identifier. */
  lemma NotDeletedEarlyByKind(cfg: Config, e: Event, d: Event, now: Timestamp)
    requires Pair(cfg, e, d, now) && IsAddressable(e.kind) && e.createdAt <= d.createdAt
    requires Coordinate(e.kind, e.author, "") in OwnCoordinates(d.author, Coordinates(d.tags)) && !DeletedEarly(d, e)
    ensures OnlyIfLate(cfg, e, d, now)
  {
    FromEmpty(cfg, e, d, now);
    CoversAlone(e, d);
    assert Targets(Coordinate(e.kind, e.author, ""), e);
  }

  /** A request that names a replaceable event's coordinate, identifier and all, keeps it out but does not delete it. */
  lemma DeletedOnlyEarly(cfg: Config, e: Event, d: Event, now: Timestamp)
    requires Pair(cfg, e, d, now) && IsReplaceable(e.kind) && DeletedEarly(d, e)
    requires CoordinateOf(e).value.identifier != "" && e.id !in EventIds(d.tags)
    requires Coordinate(e.kind, e.author, "") !in OwnCoordinates(d.author, Coordinates(d.tags))
    ensures e in Deliveries(cfg, [Deliver(e, now), Deliver(d, now)]).events
    ensures e !in Deliveries(cfg, [Deliver(d, now), Deliver(e, now)]).events
  {
    KindsDisjoint(e.kind);
    FromEmpty(cfg, e, d, now);
    CoversAlone(e, d);
    forall c | c in OwnCoordinates(d.author, Coordinates(d.tags))
      ensures !Targets(c, e)
    {
      assert c.identifier == "" && c.kind == e.kind && c.author == e.author ==> c == Coordinate(e.kind, e.author, "");
    }
  }

  /** An event and a request for which the two orders part. */
  ghost predicate OrderShows(cfg: Config, e: Event, d: Event, now: Timestamp) {
    && Pair(cfg, e, d, now)
    && Deliveries(cfg, [Deliver(e, now), Deliver(d, now)]).events
       != Deliveries(cfg, [Deliver(d, now), Deliver(e, now)]).events
  }

  const WITH_DELETIONS := Config(true, false, None, None)

  function AddressRequest(c: Coordinate): Event {
    Event(2, "a", 2, EVENT_DELETION, [Tag("a", Some("address"), AddressRef(c))], "")
  }

  function NamedEvent(k: Kind): Event { Event(1, "a", 1, k, [Tag("d", Some("x"), Unread)], "") }

  lemma AddressRequestIs(c: Coordinate, k: Kind)
    requires c.author == "a" && (IsReplaceable(k) || IsAddressable(k))
    ensures var d, e := AddressRequest(c), NamedEvent(k);
            && Coordinates(d.tags) == [c] && OwnCoordinates("a", [c]) == [c] && EventIds(d.tags) == []
            && CoordinateOf(e) == Some(Coordinate(k, "a", "x")) && Identifier(e) == Some("x")
            && forall now :: Pair(WITH_DELETIONS, e, d, now)
  {
    var d, e := AddressRequest(c), NamedEvent(k);
    KindsDisjoint(k);
    NoOtherTags(e.tags[0], "expiration");
    NoOtherTags(d.tags[0], "expiration");
    OneCoordinate(d, c);
    assert FindTag(e.tags, "d") == Some(e.tags[0]);
  }

  /**
    The coordinates must be canonical: an addressable kind with an empty identifier
    deletes every event of the kind that came before it, and none that comes after.
  */
  lemma EmptyIdentifierDoesNotConverge(k: Kind, now: Timestamp)
    requires IsAddressable(k)
    ensures exists cfg: Config, e: Event, d: Event :: OrderShows(cfg, e, d, now) && OnlyIfLate(cfg, e, d, now)
  {
    var c := Coordinate(k, "a", "");
    AddressRequestIs(c, k);
    NotDeletedEarlyByKind(WITH_DELETIONS, NamedEvent(k), AddressRequest(c), now);
    hide Deliveries, Pair;
    assert OrderShows(WITH_DELETIONS, NamedEvent(k), AddressRequest(c), now);
  }

  /** Nor may a replaceable event carry an identifier: its coordinate keeps it out and does not delete it. */
  lemma ReplaceableIdentifierDoesNotConverge(k: Kind, now: Timestamp)
    requires IsReplaceable(k)
    ensures exists cfg: Config, e: Event, d: Event :: OrderShows(cfg, e, d, now) && !OnlyIfLate(cfg, e, d, now)
  {
    var c := Coordinate(k, "a", "x");
    AddressRequestIs(c, k);
    DeletedOnlyEarly(WITH_DELETIONS, NamedEvent(k), AddressRequest(c), now);
    hide Deliveries, Pair;
    assert OrderShows(WITH_DELETIONS, NamedEvent(k), AddressRequest(c), now);
  }

  /** Nor may a request name an event by its id: it deletes what is stored and lets in what comes after. */
  lemma DeletionByIdDoesNotConverge(now: Timestamp)
    ensures exists cfg: Config, e: Event, d: Event :: OrderShows(cfg, e, d, now) && OnlyIfLate(cfg, e, d, now)
  {
    var e := Event(1, "a", 1, 1, [], "");
    var d := Event(2, "a", 2, EVENT_DELETION, [Tag("e", Some("1"), EventRef(1))], "");
    NoOtherTags(d.tags[0], "expiration");
    OneId(d, 1);
    NotDeletedEarly(WITH_DELETIONS, e, d, now);
    hide Deliveries;
    assert OrderShows(WITH_DELETIONS, e, d, now);
  }

  lemma {:induction false} AllOwnIds(events: set<Event>, author: PublicKey, ids: seq<EventId>)
    requires forall id :: id in ids ==> !ForeignId(events, author, id)
    ensures OwnIds(events, author, ids) == ids
  {
    if ids != [] {
      AllOwnIds(events, author, ids[1..]);
    }
  }

  lemma OneId(d: Event, id: EventId)
    requires exists v :: d.tags == [Tag("e", Some(v), EventRef(id))]
    ensures EventIds(d.tags) == [id] && Coordinates(d.tags) == []
  {
    assert d.tags[1..] == [];
  }

  lemma NoOtherTags(t: Tag, name: string)
    requires t.name != name
    ensures FindTag([t], name) == None
  {
    assert [t][1..] == [];
  }

  lemma OneCoordinate(d: Event, c: Coordinate)
    requires exists v :: d.tags == [Tag("a", Some(v), AddressRef(c))] && c.author == d.author
    ensures Coordinates(d.tags) == [c] && OwnCoordinates(d.author, [c]) == [c] && EventIds(d.tags) == []
  {
    assert d.tags[1..] == [] && [c][1..] == [];
  }

  lemma DeliverTwo(cfg: Config, x: Event, y: Event, now: Timestamp)
    ensures Deliveries(cfg, [Deliver(x, now), Deliver(y, now)]) ==
            Step(cfg, Step(cfg, EMPTY_STATE, x, now).0, y, now).0
  {
    var ds := [Deliver(x, now), Deliver(y, now)];
    var one := [Deliver(x, now)];
    assert one[..|one| - 1] == [] && Deliveries(cfg, []) == EMPTY_STATE;
    assert Deliveries(cfg, one) == Apply(cfg, EMPTY_STATE, one[0]);
    assert ds[..|ds| - 1] == one;
  }
}
