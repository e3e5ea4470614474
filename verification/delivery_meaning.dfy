/**
  What one delivery to the in-memory store answers and leaves, spelled out on kinds, times,
  ids and tags: none of the predicates its specification is built from.
*/
module DeliveryMeaning {
  import opened Wrappers
  import opened Order
  import opened Events
  import opened Filters
  import opened MemoryQuery
  import opened MemorySpec
  import opened TagMeaning

  /** A stored version of the event is newer, or as old with an id that is no greater. */
  ghost predicate HasPrecedingVersion(events: set<Event>, e: Event) {
    exists f :: f in events && Versions(f, e)
                && (f.createdAt > e.createdAt || (f.createdAt == e.createdAt && f.id <= e.id))
  }

  lemma PrecedingVersionMeans(events: set<Event>, e: Event)
    ensures (exists f :: f in Rivals(events, e) && !Before(e, f)) <==> HasPrecedingVersion(events, e)
  {
    hide SameAddress, Versions;
    forall f
      ensures SameAddress(f, e) <==> Versions(f, e)
    {
      VersionsMean(f, e);
    }
    if f :| f in events && Versions(f, e)
            && (f.createdAt > e.createdAt || (f.createdAt == e.createdAt && f.id <= e.id)) {
      assert f in Rivals(events, e) && !Before(e, f);
    }
  }

  /** The answer to any delivery. */
  lemma AnswerMeans(cfg: Config, st: State, e: Event, now: Timestamp)
    ensures Step(cfg, st, e, now).1 ==
            if 20_000 <= e.kind < 30_000 then Rejected(Ephemeral)
            else if exists f :: f in st.events && f.id == e.id then Rejected(Duplicate)
            else if e.id in st.deletedIds then Rejected(Deleted)
            else if e.author in st.vanished then Rejected(Vanished)
            else if DeletedAtAddress(st.deletedAt, e) then Rejected(Deleted)
            else if ExpiredBefore(e, now) then Rejected(Expired)
            else if 30_000 <= e.kind < 40_000 && forall v :: !Identified(e, v) then Rejected(Other)
            else if HasPrecedingVersion(st.events, e) then Rejected(Replaced)
            else if cfg.nip09 && e.kind == 5 && NamesForeign(st.events, e.author, e.tags) then Rejected(InvalidDelete)
            else Success
  {
    DeletedAtAddressMeans(st.deletedAt, e);
    ExpiredMeans(e, now);
    IdentifierMeans(e);
    PrecedingVersionMeans(st.events, e);
    OverreachMeans(st.events, e);
    hide CoordinateDeleted, DeletedAtAddress, IsExpiredAt, ExpiredBefore, Identified, Identifier, Rivals, Before;
    hide HasPrecedingVersion, Overreaches, NamesForeign, Cleared, Admit;
  }

  /** An event nothing else turns away is expired if and only if its first expiration tag reads as an earlier time. */
  lemma ExpiredIff(cfg: Config, st: State, e: Event, now: Timestamp)
    requires Refusal(st, e, now) == None || Refusal(st, e, now) == Some(Expired)
    ensures Step(cfg, st, e, now).1 == Rejected(Expired) <==>
            exists pre, t, post :: e.tags == pre + [t] + post && t.name == "expiration"
              && (forall x :: x in pre ==> x.name != "expiration")
              && t.reading.ExpiresAt? && t.reading.time < now
  {
    ExpiredMeans(e, now);
    FirstExpiration(e, now);
    hide Cleared, Admit, IsAddressable, Identifier, Rivals, Overreaches, ExpiredBefore, IsExpiredAt, CoordinateDeleted;
  }

  lemma FirstExpiration(e: Event, now: Timestamp)
    ensures ExpiredBefore(e, now) <==>
            exists pre, t, post :: e.tags == pre + [t] + post && t.name == "expiration"
              && (forall x :: x in pre ==> x.name != "expiration")
              && t.reading.ExpiresAt? && t.reading.time < now
  {
    if ExpiredBefore(e, now) {
      var i :| FirstTagAt(e.tags, "expiration", i) && e.tags[i].reading.ExpiresAt? && e.tags[i].reading.time < now;
      var pre, post := e.tags[..i], e.tags[i + 1..];
      assert e.tags == pre + [e.tags[i]] + post;
      assert forall x :: x in pre ==> x.name != "expiration";
    }
    if pre, t, post :| e.tags == pre + [t] + post && t.name == "expiration"
                       && (forall x :: x in pre ==> x.name != "expiration")
                       && t.reading.ExpiresAt? && t.reading.time < now {
      assert forall j :: 0 <= j < |pre| ==> e.tags[j] == pre[j] && pre[j] in pre;
      assert FirstTagAt(e.tags, "expiration", |pre|);
    }
  }

  /** Rejected, an event changes nothing, unless it is a deletion request that names something foreign. */
  lemma RejectedChangesNothing(cfg: Config, st: State, e: Event, now: Timestamp)
    requires Step(cfg, st, e, now).1 != Success && Step(cfg, st, e, now).1 != Rejected(InvalidDelete)
    ensures Step(cfg, st, e, now).0 == st
  {
    hide Refusal, Rivals, Before, Overreaches, Identifier, Cleared, Admit;
  }

  /** Accepted without a limit, a replaceable or addressable event takes the place of its versions. */
  lemma VersionsGiveWay(cfg: Config, st: State, e: Event, now: Timestamp)
    requires cfg.capacity.None? && Step(cfg, st, e, now).1 == Success
    requires e.kind in {0, 3, 41} || 10_000 <= e.kind < 20_000 || 30_000 <= e.kind < 40_000
    ensures Step(cfg, st, e, now).0
            == st.(events := (set f | f in st.events && !Versions(f, e)) + {e})
  {
    forall f
      ensures SameAddress(f, e) <==> Versions(f, e)
    {
      VersionsMean(f, e);
    }
    hide Refusal, Before, Overreaches, Identifier, SameAddress, Versions, IsDeletion, IsVanish;
    assert st.events - Rivals(st.events, e) == set f | f in st.events && !Versions(f, e);
  }

  ghost predicate IdentifierReached(d: Event, f: Event) {
    exists v :: v != "" && Identified(f, v) && AddressedFirst(d.author, d.tags, Coordinate(f.kind, f.author, v))
  }

  /** The request names the stored event's id, or its address or its kind, before anything foreign. */
  ghost predicate Reached(events: set<Event>, d: Event, f: Event) {
    || NamedFirst(events, d.author, d.tags, f.id)
    || AddressedFirst(d.author, d.tags, Coordinate(f.kind, f.author, ""))
    || (30_000 <= f.kind < 40_000 && IdentifierReached(d, f))
  }

  lemma ReachedMeans(events: set<Event>, d: Event, f: Event)
    ensures Covers(events, d, f) <==> f.createdAt <= d.createdAt && Reached(events, d, f)
  {
    OwnIdsMean(events, d.author, d.tags, f.id);
    CoordinatesReach(d, f);
    hide OwnIds, NamedFirst, AddressedFirst, EventIds, CoversByCoordinate, IdentifierReached;
    assert CoversById(events, d, f) <==>
      f.createdAt <= d.createdAt && NamedFirst(events, d.author, d.tags, f.id);
  }

  lemma CoordinatesReach(d: Event, f: Event)
    ensures CoversByCoordinate(d, f) <==>
            && f.createdAt <= d.createdAt
            && (AddressedFirst(d.author, d.tags, Coordinate(f.kind, f.author, ""))
                || (30_000 <= f.kind < 40_000 && IdentifierReached(d, f)))
  {
    var own := OwnCoordinates(d.author, Coordinates(d.tags));
    forall c
      ensures c in own <==> AddressedFirst(d.author, d.tags, c)
      ensures Targets(c, f) <==>
              && c == Coordinate(f.kind, f.author, c.identifier)
              && (c.identifier == "" || (30_000 <= f.kind < 40_000 && Identified(f, c.identifier)))
    {
      OwnCoordinatesMean(d.author, d.tags, c);
      IdentifiedMeans(f, c.identifier);
    }
    hide OwnCoordinates, Identified, AddressedFirst, Targets, Coordinates;
    if c :| c in own && Targets(c, f) {
      assert AddressedFirst(d.author, d.tags, Coordinate(f.kind, f.author, c.identifier));
    }
    if AddressedFirst(d.author, d.tags, Coordinate(f.kind, f.author, "")) {
      assert Targets(Coordinate(f.kind, f.author, ""), f);
    }
    forall v | v != "" && Identified(f, v) && 30_000 <= f.kind < 40_000
               && AddressedFirst(d.author, d.tags, Coordinate(f.kind, f.author, v))
      ensures exists c :: c in own && Targets(c, f)
    {
      assert Targets(Coordinate(f.kind, f.author, v), f);
    }
  }

  /** A deletion time after the request: the request's own where it names the address and none on record is later. */
  predicate TimeAfter(before: map<Coordinate, Timestamp>, d: Event, c: Coordinate, named: bool, after: Timestamp) {
    if !named then c in before && after == before[c]
    else if c in before && before[c] > d.createdAt then after == before[c]
    else after == d.createdAt
  }

  /** What any deletion request that is not refused does to an unbounded store, in order or not. */
  lemma DeletionMeans(cfg: Config, st: State, d: Event, now: Timestamp)
    requires cfg.capacity.None? && cfg.nip09 && d.kind == 5
    requires Step(cfg, st, d, now).1 == Success || Step(cfg, st, d, now).1 == Rejected(InvalidDelete)
    ensures var after := Step(cfg, st, d, now).0;
            && after.events == (set f | f in st.events && !(f.createdAt <= d.createdAt && Reached(st.events, d, f)))
                 + (if Step(cfg, st, d, now).1 == Success then {d} else {})
            && after.deletedIds == st.deletedIds
                 + (set f | f in st.events && f.createdAt <= d.createdAt
                            && NamedFirst(st.events, d.author, d.tags, f.id) :: f.id)
            && (forall c :: c in after.deletedAt <==> c in st.deletedAt || AddressedFirst(d.author, d.tags, c))
            && (forall c :: c in after.deletedAt ==>
                  TimeAfter(st.deletedAt, d, c, AddressedFirst(d.author, d.tags, c), after.deletedAt[c]))
            && after.vanished == st.vanished
  {
    AcceptedRequest(cfg, st, d, now);
    AfterDeletionMeans(st, d);
    hide Step, AfterDeletion, NamedFirst, AddressedFirst, Reached, TimeAfter;
  }

  lemma AcceptedRequest(cfg: Config, st: State, d: Event, now: Timestamp)
    requires cfg.capacity.None? && cfg.nip09 && d.kind == 5
    requires Step(cfg, st, d, now).1 == Success || Step(cfg, st, d, now).1 == Rejected(InvalidDelete)
    ensures var after := AfterDeletion(st, d);
            Step(cfg, st, d, now).0 ==
            if Step(cfg, st, d, now).1 == Success then after.(events := after.events + {d}) else after
  {
    KindsDisjoint(d.kind);
    assert Refusal(st, d, now) != Some(InvalidDelete);
    hide Refusal, Rivals, Before, AfterDeletion, Identifier, Overreaches;
  }

  /** The removals and tombstones of a request. */
  lemma AfterDeletionMeans(st: State, d: Event)
    ensures var after := AfterDeletion(st, d);
            && after.events == (set f | f in st.events && !(f.createdAt <= d.createdAt && Reached(st.events, d, f)))
            && after.deletedIds == st.deletedIds
                 + (set f | f in st.events && f.createdAt <= d.createdAt
                            && NamedFirst(st.events, d.author, d.tags, f.id) :: f.id)
            && (forall c :: c in after.deletedAt <==> c in st.deletedAt || AddressedFirst(d.author, d.tags, c))
            && (forall c :: c in after.deletedAt ==>
                  TimeAfter(st.deletedAt, d, c, AddressedFirst(d.author, d.tags, c), after.deletedAt[c]))
            && after.vanished == st.vanished
  {
    forall f
      ensures Covers(st.events, d, f) <==> f.createdAt <= d.createdAt && Reached(st.events, d, f)
      ensures CoversById(st.events, d, f) <==>
              f.createdAt <= d.createdAt && NamedFirst(st.events, d.author, d.tags, f.id)
    {
      ReachedMeans(st.events, d, f);
      OwnIdsMean(st.events, d.author, d.tags, f.id);
    }
    forall c
      ensures c in OwnCoordinates(d.author, Coordinates(d.tags)) <==> AddressedFirst(d.author, d.tags, c)
    {
      OwnCoordinatesMean(d.author, d.tags, c);
    }
    hide Covers, CoversById, OwnCoordinates, Coordinates, NamedFirst, AddressedFirst, Reached;
  }

  lemma WrapsMeans(f: Event, key: PublicKey)
    ensures WrappedFor(f, key) <==> Wraps(f, key)
  {
    assert ['p'] == "p";
    if WrappedFor(f, key) {
      var t :| t in f.tags && t.name == ['p'] && t.content == Some(key);
      var i :| 0 <= i < |f.tags| && f.tags[i] == t;
    }
  }

  /** What an accepted request to vanish does, and a kind 62 event that does not ask this relay. */
  lemma VanishMeans(cfg: Config, st: State, v: Event, now: Timestamp)
    requires v.kind == 62 && Step(cfg, st, v, now).1 == Success && cfg.capacity.None?
    ensures var after := Step(cfg, st, v, now).0;
            after == if cfg.nip62 && AsksToVanish(v.tags, cfg.relay)
                     then st.(events := (set f | f in st.events && f.author != v.author && !Wraps(f, v.author)) + {v},
                              vanished := st.vanished + {v.author})
                     else st.(events := st.events + {v})
  {
    KindsDisjoint(v.kind);
    VanishRequestMeans(v.tags, cfg.relay);
    forall f
      ensures WrappedFor(f, v.author) <==> Wraps(f, v.author)
    {
      WrapsMeans(f, v.author);
    }
    hide Refusal, Rivals, Before, IsVanishRequestFor, AsksToVanish, WrappedFor, Wraps, Overreaches, Identifier;
  }

  /** Bounded or not: the author of a kind 62 event has vanished if and only if NIP-62 is on and it asks this relay. */
  lemma VanishedIff(cfg: Config, st: State, v: Event, now: Timestamp)
    requires v.kind == 62 && Step(cfg, st, v, now).1 == Success
    ensures var after := Step(cfg, st, v, now).0;
            && (v.author in after.vanished <==> cfg.nip62 && AsksToVanish(v.tags, cfg.relay))
            && (v.author in after.vanished ==> forall f :: f in after.events && f.author == v.author ==> f == v)
            && (v.author !in after.vanished ==> after.vanished == st.vanished && after.events <= st.events + {v})
            && (v.author !in after.vanished && cfg.capacity.None? ==> after.events == st.events + {v})
  {
    KindsDisjoint(v.kind);
    VanishRequestMeans(v.tags, cfg.relay);
    assert v.author !in st.vanished;
    assert Keep(cfg.capacity, Cleared(cfg, st, v).events + {v}) <= Cleared(cfg, st, v).events + {v};
    hide Refusal, Rivals, Before, IsVanishRequestFor, AsksToVanish, WrappedFor, Overreaches, Identifier, Keep;
  }

  /** Any other accepted event is added. */
  lemma OrdinaryMeans(cfg: Config, st: State, e: Event, now: Timestamp)
    requires Step(cfg, st, e, now).1 == Success && cfg.capacity.None?
    requires !(e.kind in {0, 3, 41} || 10_000 <= e.kind < 20_000 || 30_000 <= e.kind < 40_000)
    requires e.kind != 62 && !(cfg.nip09 && e.kind == 5)
    ensures Step(cfg, st, e, now).0 == st.(events := st.events + {e})
  {
    hide Refusal, Rivals, Before, Overreaches, Identifier;
  }

  /**
    With a limit, the store answers as it would without one, and keeps of what that would hold as
    many events as it may, each newer than every one left out, or as new with the lower id.
  */
  lemma LimitMeans(cfg: Config, st: State, e: Event, now: Timestamp)
    requires Coherent(cfg, st)
    ensures var unbounded := cfg.(capacity := None);
            var after, all := Step(cfg, st, e, now), Step(unbounded, st, e, now);
            && after.1 == all.1 && after.0 == all.0.(events := after.0.events) && after.0.events <= all.0.events
            && (after.1 != Success ==> after == all)
            && (after.1 == Success && cfg.capacity.Some? ==>
                  && |after.0.events| == (if |all.0.events| <= cfg.capacity.value then |all.0.events|
                                          else cfg.capacity.value)
                  && forall k, o :: k in after.0.events && o in all.0.events && o !in after.0.events ==>
                       k.createdAt > o.createdAt || (k.createdAt == o.createdAt && k.id < o.id))
  {
    var unbounded := cfg.(capacity := None);
    SameButForLimit(cfg, st, e, now);
    hide Step, Cleared, Keep, Refusal, IsAddressable, Identifier, SameAddress;
    if Step(cfg, st, e, now).1 == Success {
      AcceptedMeans(cfg, st, e, now);
      ClearedFits(cfg, st, e, now);
      KeptMeans(cfg, Cleared(cfg, st, e).events, e);
    }
  }

  lemma SameButForLimit(cfg: Config, st: State, e: Event, now: Timestamp)
    ensures var unbounded := cfg.(capacity := None);
            var after, all := Step(cfg, st, e, now), Step(unbounded, st, e, now);
            && after.1 == all.1 && (after.1 != Success ==> after == all)
            && (after.1 == Success ==>
                  after.0 == Admit(cfg, Cleared(cfg, st, e), e) && all.0 == Admit(unbounded, Cleared(cfg, st, e), e))
  {
    var unbounded := cfg.(capacity := None);
    hide Refusal, Rivals, Overreaches, Identifier, IsAddressable, Before, AfterDeletion, AfterVanish, Keep;
    assert Cleared(cfg, st, e) == Cleared(unbounded, st, e);
    hide Cleared, Admit;
  }

  lemma AcceptedMeans(cfg: Config, st: State, e: Event, now: Timestamp)
    requires Step(cfg, st, e, now).1 == Success
    ensures Refusal(st, e, now).None? && (IsAddressable(e.kind) ==> Identifier(e).Some?)
  {
    hide Cleared, Admit, Rivals, Overreaches, Refusal, IsAddressable, Identifier;
  }

  lemma KeptMeans(cfg: Config, events: set<Event>, e: Event)
    requires UniqueIds(events) && forall f :: f in events ==> f.id != e.id
    ensures var kept, all := Keep(cfg.capacity, events + {e}), events + {e};
            && kept <= all && Keep(None, all) == all
            && (cfg.capacity.Some? ==>
                  && |kept| == (if |all| <= cfg.capacity.value then |all| else cfg.capacity.value)
                  && forall k, o :: k in kept && o in all && o !in kept ==>
                       k.createdAt > o.createdAt || (k.createdAt == o.createdAt && k.id < o.id))
  {
    var all := events + {e};
    assert UniqueIds(all);
    hide FirstN, Keep;
    KeepFacts(cfg.capacity, all);
    KeepFacts(None, all);
    assert forall k, o :: k in all && o in all && k != o ==> k.id != o.id;
    hide UniqueIds;
    forall k, o | k in Keep(cfg.capacity, all) && o in all && o !in Keep(cfg.capacity, all)
      ensures k.createdAt > o.createdAt || (k.createdAt == o.createdAt && k.id < o.id)
    {
      assert !Before(o, k);
    }
    hide DownClosed;
  }
}
