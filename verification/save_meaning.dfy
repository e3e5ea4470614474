/**
  What one save in the SQLite store answers and leaves, spelled out on kinds, times, ids
  and tags. The tag table is the list of the stored events' tags throughout.
*/
module SaveMeaning {
  import opened Wrappers
  import opened Events
  import opened Filters
  import opened TagMeaning
  import SqlFilter
  import opened QueryMeaning
  import opened SqlStore
  import Spec = MemorySpec

  /** Some `d` tag of the event has this value. */
  ghost predicate HasIdentifierTag(f: Event, identifier: string) {
    exists i :: 0 <= i < |f.tags| && f.tags[i].name == "d" && f.tags[i].content == Some(identifier)
  }

  /** A row the newcomer may replace: of its author, kind and, if addressable, identifier, in some `d` tag. */
  ghost predicate Competes(f: Event, e: Event) {
    && f.author == e.author && f.kind == e.kind
    && (|| e.kind in {0, 3, 41} || 10_000 <= e.kind < 20_000
        || (30_000 <= e.kind < 40_000 && exists v :: Identified(e, v) && HasIdentifierTag(f, v)))
  }

  lemma RowMeans(t: Tables, f: Event, identifier: string)
    requires WellFormed(t) && f in t.events
    ensures HasIdentifierRow(t.tags, f, identifier) <==> HasIdentifierTag(f, identifier)
  {
    assert ['d'] == "d";
    RowIffTag(t.events, t.tags, f, 'd', identifier);
    if HasTag(f, 'd', identifier) {
      var x :| x in f.tags && x.name == ['d'] && x.content == Some(identifier);
      var i :| 0 <= i < |f.tags| && f.tags[i] == x;
    }
  }

  /** The row found is one the newcomer may replace, and none is found only if there is none. */
  lemma FoundMeans(t: Tables, e: Event, existing: Option<Event>)
    requires WellFormed(t)
    ensures FoundIn(t, e, existing) <==>
            match existing
            case None => forall f :: f in t.events ==> !Competes(f, e)
            case Some(f) => f in t.events && Competes(f, e)
  {
    IdentifierMeans(e);
    forall f, v | f in t.events
      ensures HasIdentifierRow(t.tags, f, v) <==> HasIdentifierTag(f, v)
    {
      RowMeans(t, f, v);
    }
    hide HasIdentifierRow, HasIdentifierTag, Identified, Identifier, WellFormed;
    forall f
      ensures f in Candidates(t, e) <==> f in t.events && Competes(f, e)
    {
    }
  }

  lemma ForeignMeans(t: Tables, d: Event)
    ensures Overreaches(t, d) <==> NamesForeign(t.events, d.author, d.tags)
  {
    OverreachMeans(t.events, d);
    AllOwnMeans(t.events, d.author, EventIds(d.tags), Coordinates(d.tags));
    assert forall id :: Foreign(t, d.author, id) <==> Spec.ForeignId(t.events, d.author, id);
    hide EventIds, Coordinates, NamesForeign, Spec.OwnIds, Spec.OwnCoordinates;
  }

  /** The answer to any save, given the row it found. */
  lemma SaveAnswerMeans(cfg: Config, t: Tables, e: Event, existing: Option<Event>)
    ensures Save(cfg, t, e, existing).1 ==
            if 20_000 <= e.kind < 30_000 then Spec.Rejected(Spec.Ephemeral)
            else if exists f :: f in t.events && f.id == e.id then Spec.Rejected(Spec.Duplicate)
            else if e.id in t.deletedIds then Spec.Rejected(Spec.Deleted)
            else if e.author in t.vanished then Spec.Rejected(Spec.Vanished)
            else if DeletedAtAddress(t.deletedAt, e) then Spec.Rejected(Spec.Deleted)
            else if existing.Some? && Wrapped(existing.value.createdAt) > Wrapped(e.createdAt)
              then Spec.Rejected(Spec.Replaced)
            else if existing.Some? && existing.value.createdAt == e.createdAt && existing.value.id < e.id
              then Spec.Rejected(Spec.Replaced)
            else if cfg.nip09 && e.kind == 5 && NamesForeign(t.events, e.author, e.tags)
              then Spec.Rejected(Spec.InvalidDelete)
            else if Wrapped(e.createdAt) <= 0 then Spec.Rejected(Spec.Duplicate)
            else Spec.Success
  {
    DeletedAtAddressMeans(t.deletedAt, e);
    ForeignMeans(t, e);
    hide Spec.CoordinateDeleted, DeletedAtAddress, Overreaches, NamesForeign, Cleared, Inserted;
  }

  /** Every rejection leaves the tables as they were. */
  lemma RejectedSaveChangesNothing(cfg: Config, t: Tables, e: Event, existing: Option<Event>)
    requires Save(cfg, t, e, existing).1 != Spec.Success
    ensures Save(cfg, t, e, existing).0 == t
  {
    hide Refusal, ReplacedBy, Overreaches, Insertable, Cleared, Inserted;
  }

  /** A saved event that is no request replaces the row found. */
  lemma SavedMeans(cfg: Config, t: Tables, e: Event, existing: Option<Event>)
    requires Save(cfg, t, e, existing).1 == Spec.Success
    requires !(cfg.nip09 && e.kind == 5) && e.kind != 62
    ensures var after := Save(cfg, t, e, existing).0;
            && after.events == (if existing.Some? then t.events - {existing.value} else t.events) + {e}
            && after.deletedIds == t.deletedIds && after.deletedAt == t.deletedAt && after.vanished == t.vanished
  {
    hide Refusal, ReplacedBy, Overreaches, Insertable;
  }

  /** A `d` tag of the event, or its being replaceable, puts it within reach of the coordinate. */
  ghost predicate AddressesRow(c: Coordinate, d: Event, f: Event) {
    && f.author == c.author && f.kind == c.kind && Wrapped(f.createdAt) <= Wrapped(d.createdAt)
    && (|| f.kind in {0, 3, 41} || 10_000 <= f.kind < 20_000
        || (30_000 <= f.kind < 40_000 && HasIdentifierTag(f, c.identifier)))
  }

  ghost predicate NamedInTags(d: Event, f: Event) {
    || (exists i :: 0 <= i < |d.tags| && NamesId(d.tags[i], f.id))
    || (exists i, c :: 0 <= i < |d.tags| && NamesAddress(d.tags[i], c) && AddressesRow(c, d, f))
  }

  lemma NamedInTagsMeans(t: Tables, d: Event, f: Event)
    requires WellFormed(t) && f in t.events
    ensures f in Deleted(t, d) <==> NamedInTags(d, f)
  {
    EventIdsMean(d.tags, f.id);
    forall c
      ensures c in Coordinates(d.tags) <==> exists i :: 0 <= i < |d.tags| && NamesAddress(d.tags[i], c)
      ensures Targets(t, c, StoredTime(d.createdAt), f) <==> AddressesRow(c, d, f)
    {
      CoordinatesMean(d.tags, c);
      RowMeans(t, f, c.identifier);
    }
    hide Coordinates, EventIds, NamesId, NamesAddress, Targets, AddressesRow, WellFormed;
    if c :| c in Coordinates(d.tags) && Targets(t, c, StoredTime(d.createdAt), f) {
      var i :| 0 <= i < |d.tags| && NamesAddress(d.tags[i], c);
      assert AddressesRow(c, d, f);
    }
  }

  /** What a saved deletion request does. */
  lemma SavedDeletionMeans(cfg: Config, t: Tables, d: Event)
    requires WellFormed(t) && cfg.nip09 && d.kind == 5 && Save(cfg, t, d, None).1 == Spec.Success
    ensures var after := Save(cfg, t, d, None).0;
            && after.events == (set f | f in t.events && !NamedInTags(d, f)) + {d}
            && after.deletedIds == t.deletedIds
                 + (set f | f in t.events && exists i :: 0 <= i < |d.tags| && NamesId(d.tags[i], f.id) :: f.id)
            && after.vanished == t.vanished
            && (forall c :: c in after.deletedAt <==>
                  c in t.deletedAt || exists i :: 0 <= i < |d.tags| && NamesAddress(d.tags[i], c))
            && (forall c :: c in after.deletedAt ==>
                  after.deletedAt[c] == if c in t.deletedAt then t.deletedAt[c] else Wrapped(d.createdAt))
  {
    hide Refusal, ReplacedBy, Overreaches, AfterDeletion;
    assert Save(cfg, t, d, None).0 == Inserted(AfterDeletion(t, d), d) && Insertable(d);
    RemovedMeans(t, d);
    hide Save, NamedInTags, NamesId, NamesAddress, WellFormed;
  }

  lemma RemovedMeans(t: Tables, d: Event)
    requires WellFormed(t) && Insertable(d)
    ensures var after := AfterDeletion(t, d);
            && after.events == (set f | f in t.events && !NamedInTags(d, f))
            && after.deletedIds == t.deletedIds
                 + (set f | f in t.events && exists i :: 0 <= i < |d.tags| && NamesId(d.tags[i], f.id) :: f.id)
            && after.vanished == t.vanished
            && (forall c :: c in after.deletedAt <==>
                  c in t.deletedAt || exists i :: 0 <= i < |d.tags| && NamesAddress(d.tags[i], c))
            && (forall c :: c in after.deletedAt ==>
                  after.deletedAt[c] == if c in t.deletedAt then t.deletedAt[c] else Wrapped(d.createdAt))
  {
    forall f | f in t.events
      ensures f in Deleted(t, d) <==> NamedInTags(d, f)
      ensures f.id in EventIds(d.tags) <==> exists i :: 0 <= i < |d.tags| && NamesId(d.tags[i], f.id)
    {
      NamedInTagsMeans(t, d, f);
      EventIdsMean(d.tags, f.id);
    }
    forall c
      ensures c in Coordinates(d.tags) <==> exists i :: 0 <= i < |d.tags| && NamesAddress(d.tags[i], c)
    {
      CoordinatesMean(d.tags, c);
    }
    hide Deleted, NamedInTags, EventIds, Coordinates, NamesId, NamesAddress, WellFormed;
  }

  lemma WrapRowMeans(t: Tables, f: Event, key: PublicKey)
    requires WellFormed(t) && f in t.events
    ensures f.kind == GIFT_WRAP && SqlFilter.TagRow(f.id, "p", key) in t.tags <==> Wraps(f, key)
  {
    assert ['p'] == "p";
    RowIffTag(t.events, t.tags, f, 'p', key);
    if HasTag(f, 'p', key) {
      var x :| x in f.tags && x.name == ['p'] && x.content == Some(key);
      var i :| 0 <= i < |f.tags| && f.tags[i] == x;
    }
  }

  /**
    The author of a saved kind 62 event has vanished if and only if NIP-62 is on and it asks this
    relay. Then it is all that is left of the author, and the gift wraps for the author are gone;
    otherwise every event stays.
  */
  lemma SavedVanishMeans(cfg: Config, t: Tables, v: Event)
    requires WellFormed(t) && v.kind == 62 && Save(cfg, t, v, None).1 == Spec.Success
    ensures var after := Save(cfg, t, v, None).0;
            && (v.author in after.vanished <==> cfg.nip62 && AsksToVanish(v.tags, cfg.relay))
            && after.deletedIds == t.deletedIds && after.deletedAt == t.deletedAt
            && (if v.author in after.vanished
                then && after.vanished == t.vanished + {v.author}
                     && after.events == (set f | f in t.events && f.author != v.author && !Wraps(f, v.author)) + {v}
                else after.vanished == t.vanished && after.events == t.events + {v})
  {
    VanishRequestMeans(v.tags, cfg.relay);
    assert v.author !in t.vanished;
    forall f | f in t.events
      ensures f.kind == GIFT_WRAP && SqlFilter.TagRow(f.id, "p", v.author) in t.tags <==> Wraps(f, v.author)
    {
      WrapRowMeans(t, f, v.author);
    }
    hide Refusal, ReplacedBy, Overreaches, Insertable, Wraps, IsVanishRequestFor, AsksToVanish, WellFormed;
  }
}
