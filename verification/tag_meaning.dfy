/**
  What the tags of an event say, spelled out on the list of tags: which one comes first,
  what it names, and what that makes of the event.
*/
module TagMeaning {
  import opened Wrappers
  import opened Events
  import Spec = MemorySpec

  /** The first tag of this name stands at `i`. */
  predicate FirstTagAt(tags: seq<Tag>, name: string, i: int) {
    0 <= i < |tags| && tags[i].name == name && forall j | 0 <= j < i :: tags[j].name != name
  }

  lemma {:induction false} FirstTagMeans(tags: seq<Tag>, name: string)
    ensures forall i :: FirstTagAt(tags, name, i) ==> FindTag(tags, name) == Some(tags[i])
    ensures FindTag(tags, name).Some? ==> exists i :: FirstTagAt(tags, name, i)
  {
    if tags != [] && tags[0].name != name {
      var rest := tags[1..];
      FirstTagMeans(rest, name);
      forall i | FirstTagAt(tags, name, i)
        ensures FindTag(tags, name) == Some(tags[i])
      {
        assert forall j :: 0 <= j < |rest| ==> rest[j] == tags[j + 1];
        assert FirstTagAt(rest, name, i - 1);
      }
      if i :| FirstTagAt(rest, name, i) {
        assert FirstTagAt(tags, name, i + 1);
      }
    } else if tags != [] {
      assert FirstTagAt(tags, name, 0);
    }
  }

  /** The first expiration tag reads as a time before `now`. */
  ghost predicate ExpiredBefore(e: Event, now: Timestamp) {
    exists i :: FirstTagAt(e.tags, "expiration", i) && e.tags[i].reading.ExpiresAt? && e.tags[i].reading.time < now
  }

  lemma ExpiredMeans(e: Event, now: Timestamp)
    ensures IsExpiredAt(e, now) <==> ExpiredBefore(e, now)
  {
    hide FirstTagAt;
    FirstTagMeans(e.tags, "expiration");
  }

  /** The first `d` tag has this value. */
  ghost predicate Identified(e: Event, identifier: string) {
    exists i :: FirstTagAt(e.tags, "d", i) && e.tags[i].content == Some(identifier)
  }

  lemma IdentifiedMeans(e: Event, identifier: string)
    ensures Identifier(e) == Some(identifier) <==> Identified(e, identifier)
  {
    hide FirstTagAt;
    FirstTagMeans(e.tags, "d");
  }

  lemma IdentifierMeans(e: Event)
    ensures Identifier(e).Some? <==> exists v :: Identified(e, v)
    ensures forall v :: Identifier(e) == Some(v) <==> Identified(e, v)
  {
    hide Identified;
    forall v
      ensures Identifier(e) == Some(v) <==> Identified(e, v)
    {
      IdentifiedMeans(e, v);
    }
    if Identifier(e).Some? {
      assert Identified(e, Identifier(e).value);
    }
  }

  /** Deletion requests and other events are kept or not by these coordinates; no identifier reads as an empty one. */
  ghost predicate AtAddress(e: Event, c: Coordinate) {
    && e.author == c.author && e.kind == c.kind
    && (e.kind in {0, 3, 41} || 10_000 <= e.kind < 20_000 || 30_000 <= e.kind < 40_000)
    && (Identified(e, c.identifier) || (c.identifier == "" && forall v :: !Identified(e, v)))
  }

  lemma AddressMeans(e: Event, c: Coordinate)
    ensures CoordinateOf(e) == Some(c) <==> AtAddress(e, c)
  {
    hide Identified, Identifier;
    IdentifierMeans(e);
  }

  /** Two versions of one replaceable event, or of one addressable event. */
  ghost predicate Versions(a: Event, b: Event) {
    && a.author == b.author && a.kind == b.kind
    && (|| a.kind in {0, 3, 41} || 10_000 <= a.kind < 20_000
        || (30_000 <= a.kind < 40_000 && exists v :: Identified(a, v) && Identified(b, v)))
  }

  lemma VersionsMean(a: Event, b: Event)
    ensures Spec.SameAddress(a, b) <==> Versions(a, b)
  {
    hide Identified, Identifier;
    IdentifierMeans(a);
    IdentifierMeans(b);
  }

  predicate NamesId(t: Tag, id: EventId) { t.name == "e" && t.content.Some? && t.reading == EventRef(id) }

  predicate NamesAddress(t: Tag, c: Coordinate) { t.name == "a" && t.content.Some? && t.reading == AddressRef(c) }

  /** A tag at or before `i` names an event of somebody else. */
  ghost predicate ForeignIdBy(events: set<Event>, author: PublicKey, tags: seq<Tag>, i: int) {
    exists j, f :: 0 <= j <= i && j < |tags| && f in events && f.author != author && NamesId(tags[j], f.id)
  }

  ghost predicate ForeignAddressBy(author: PublicKey, tags: seq<Tag>, i: int) {
    exists j, c :: 0 <= j <= i && j < |tags| && NamesAddress(tags[j], c) && c.author != author
  }

  /** A tag names the id, and none up to it a stored event of somebody else. */
  ghost predicate NamedFirst(events: set<Event>, author: PublicKey, tags: seq<Tag>, id: EventId) {
    exists i :: 0 <= i < |tags| && NamesId(tags[i], id) && !ForeignIdBy(events, author, tags, i)
  }

  ghost predicate AddressedFirst(author: PublicKey, tags: seq<Tag>, c: Coordinate) {
    exists i :: 0 <= i < |tags| && NamesAddress(tags[i], c) && !ForeignAddressBy(author, tags, i)
  }

  lemma ForeignIdLater(events: set<Event>, author: PublicKey, tags: seq<Tag>, i: nat)
    requires tags != []
    ensures ForeignIdBy(events, author, tags, i) <==>
            ForeignIdBy(events, author, tags, 0) || ForeignIdBy(events, author, tags[1..], i - 1)
  {
    if j, f :| 0 <= j <= i && j < |tags| && f in events && f.author != author && NamesId(tags[j], f.id) {
      if j > 0 {
        assert tags[1..][j - 1] == tags[j];
        assert ForeignIdBy(events, author, tags[1..], i - 1);
      } else {
        assert ForeignIdBy(events, author, tags, 0);
      }
    }
    if j, f :| 0 <= j <= i - 1 && j < |tags[1..]| && f in events && f.author != author && NamesId(tags[1..][j], f.id) {
      assert tags[1..][j] == tags[j + 1];
    }
  }

  lemma ForeignAddressLater(author: PublicKey, tags: seq<Tag>, i: nat)
    requires tags != []
    ensures ForeignAddressBy(author, tags, i) <==>
            ForeignAddressBy(author, tags, 0) || ForeignAddressBy(author, tags[1..], i - 1)
  {
    if j, c :| 0 <= j <= i && j < |tags| && NamesAddress(tags[j], c) && c.author != author {
      if j > 0 {
        assert tags[1..][j - 1] == tags[j];
        assert ForeignAddressBy(author, tags[1..], i - 1);
      } else {
        assert ForeignAddressBy(author, tags, 0);
      }
    }
    if j, c :| 0 <= j <= i - 1 && j < |tags[1..]| && NamesAddress(tags[1..][j], c) && c.author != author {
      assert tags[1..][j] == tags[j + 1];
    }
  }

  lemma NamedFirstStep(events: set<Event>, author: PublicKey, tags: seq<Tag>, id: EventId)
    requires tags != []
    ensures NamedFirst(events, author, tags, id) <==>
            !ForeignIdBy(events, author, tags, 0)
            && (NamesId(tags[0], id) || NamedFirst(events, author, tags[1..], id))
  {
    hide ForeignIdBy, NamesId;
    if i :| 0 <= i < |tags| && NamesId(tags[i], id) && !ForeignIdBy(events, author, tags, i) {
      ForeignIdLater(events, author, tags, i);
      if i > 0 {
        assert tags[1..][i - 1] == tags[i];
      }
    }
    if i :| 0 <= i < |tags[1..]| && NamesId(tags[1..][i], id) && !ForeignIdBy(events, author, tags[1..], i) {
      ForeignIdLater(events, author, tags, i + 1);
      assert tags[1..][i] == tags[i + 1];
    }
  }

  lemma AddressedFirstStep(author: PublicKey, tags: seq<Tag>, c: Coordinate)
    requires tags != []
    ensures AddressedFirst(author, tags, c) <==>
            !ForeignAddressBy(author, tags, 0) && (NamesAddress(tags[0], c) || AddressedFirst(author, tags[1..], c))
  {
    hide ForeignAddressBy, NamesAddress;
    if i :| 0 <= i < |tags| && NamesAddress(tags[i], c) && !ForeignAddressBy(author, tags, i) {
      ForeignAddressLater(author, tags, i);
      if i > 0 {
        assert tags[1..][i - 1] == tags[i];
      }
    }
    if i :| 0 <= i < |tags[1..]| && NamesAddress(tags[1..][i], c) && !ForeignAddressBy(author, tags[1..], i) {
      ForeignAddressLater(author, tags, i + 1);
      assert tags[1..][i] == tags[i + 1];
    }
  }

  /** The ids a request gets to. */
  lemma {:induction false} OwnIdsMean(events: set<Event>, author: PublicKey, tags: seq<Tag>, id: EventId)
    ensures id in Spec.OwnIds(events, author, EventIds(tags)) <==> NamedFirst(events, author, tags, id)
  {
    if tags != [] {
      OwnIdsMean(events, author, tags[1..], id);
      NamedFirstStep(events, author, tags, id);
      HeadId(tags);
      HeadForeign(events, author, tags);
      hide NamedFirst, ForeignIdBy;
    }
  }

  lemma HeadId(tags: seq<Tag>)
    requires tags != []
    ensures (forall id: EventId :: !NamesId(tags[0], id)) ==> EventIds(tags) == EventIds(tags[1..])
    ensures forall id: EventId :: NamesId(tags[0], id) ==>
      EventIds(tags)[..1] == [id] && EventIds(tags)[1..] == EventIds(tags[1..])
  {
    var t := tags[0];
    if t.name == "e" && t.content.Some? && t.reading.EventRef? {
      assert NamesId(t, t.reading.id);
    }
  }

  lemma HeadForeign(events: set<Event>, author: PublicKey, tags: seq<Tag>)
    requires tags != []
    ensures ForeignIdBy(events, author, tags, 0) <==>
            exists id: EventId :: NamesId(tags[0], id) && Spec.ForeignId(events, author, id)
  {
  }

  lemma {:induction false} OwnCoordinatesMean(author: PublicKey, tags: seq<Tag>, c: Coordinate)
    ensures c in Spec.OwnCoordinates(author, Coordinates(tags)) <==> AddressedFirst(author, tags, c)
  {
    if tags != [] {
      OwnCoordinatesMean(author, tags[1..], c);
      AddressedFirstStep(author, tags, c);
      HeadAddress(tags);
      assert ForeignAddressBy(author, tags, 0) <==> exists x :: NamesAddress(tags[0], x) && x.author != author;
      hide AddressedFirst, ForeignAddressBy;
    }
  }

  lemma HeadAddress(tags: seq<Tag>)
    requires tags != []
    ensures (forall c :: !NamesAddress(tags[0], c)) ==> Coordinates(tags) == Coordinates(tags[1..])
    ensures forall c :: NamesAddress(tags[0], c) ==>
      Coordinates(tags)[..1] == [c] && Coordinates(tags)[1..] == Coordinates(tags[1..])
  {
    var t := tags[0];
    if t.name == "a" && t.content.Some? && t.reading.AddressRef? {
      assert NamesAddress(t, t.reading.coordinate);
    }
  }

  lemma {:induction false} EventIdsMean(tags: seq<Tag>, id: EventId)
    ensures id in EventIds(tags) <==> exists i :: 0 <= i < |tags| && NamesId(tags[i], id)
  {
    if tags != [] {
      EventIdsMean(tags[1..], id);
      assert forall i :: 0 < i < |tags| ==> tags[1..][i - 1] == tags[i];
    }
  }

  lemma {:induction false} CoordinatesMean(tags: seq<Tag>, c: Coordinate)
    ensures c in Coordinates(tags) <==> exists i :: 0 <= i < |tags| && NamesAddress(tags[i], c)
  {
    if tags != [] {
      CoordinatesMean(tags[1..], c);
      assert forall i :: 0 < i < |tags| ==> tags[1..][i - 1] == tags[i];
    }
  }

  /** A tag names something that is not the author's. */
  ghost predicate NamesForeign(events: set<Event>, author: PublicKey, tags: seq<Tag>) {
    || (exists i, f :: 0 <= i < |tags| && f in events && f.author != author && NamesId(tags[i], f.id))
    || (exists i, c :: 0 <= i < |tags| && NamesAddress(tags[i], c) && c.author != author)
  }

  lemma OverreachMeans(events: set<Event>, d: Event)
    ensures Spec.Overreaches(events, d) <==> NamesForeign(events, d.author, d.tags)
  {
    var ids, cs := EventIds(d.tags), Coordinates(d.tags);
    Spec.OwnIdsPrefix(events, d.author, ids);
    Spec.OwnCoordinatesPrefix(d.author, cs);
    AllOwnMeans(events, d.author, ids, cs);
    forall id
      ensures id in ids <==> exists i :: 0 <= i < |d.tags| && NamesId(d.tags[i], id)
    {
      EventIdsMean(d.tags, id);
    }
    forall c
      ensures c in cs <==> exists i :: 0 <= i < |d.tags| && NamesAddress(d.tags[i], c)
    {
      CoordinatesMean(d.tags, c);
    }
    hide EventIds, Coordinates, Spec.OwnIds, Spec.OwnCoordinates, NamesId, NamesAddress;
    if id :| id in ids && Spec.ForeignId(events, d.author, id) {
      var f :| f in events && f.id == id && f.author != d.author;
      var i :| 0 <= i < |d.tags| && NamesId(d.tags[i], f.id);
      assert NamesForeign(events, d.author, d.tags);
    }
    if i, f :| 0 <= i < |d.tags| && f in events && f.author != d.author && NamesId(d.tags[i], f.id) {
      assert f.id in ids && Spec.ForeignId(events, d.author, f.id);
    }
  }

  lemma AllOwnMeans(events: set<Event>, author: PublicKey, ids: seq<EventId>, cs: seq<Coordinate>)
    ensures Spec.OwnIds(events, author, ids) == ids <==> forall id :: id in ids ==> !Spec.ForeignId(events, author, id)
    ensures Spec.OwnCoordinates(author, cs) == cs <==> forall c :: c in cs ==> c.author == author
  {
    Spec.OwnIdsPrefix(events, author, ids);
    Spec.OwnCoordinatesPrefix(author, cs);
    hide Spec.OwnIds, Spec.OwnCoordinates;
  }

  /** A request to vanish from the relay: a relay tag with a value that reads as all relays or as this one. */
  ghost predicate AsksToVanish(tags: seq<Tag>, relay: Option<string>) {
    exists i :: 0 <= i < |tags| && tags[i].name == "relay" && tags[i].content.Some?
                && (|| tags[i].reading == AllRelays
                    || exists url :: tags[i].reading == OneRelay(url) && relay == Some(url))
  }

  lemma VanishRequestMeans(tags: seq<Tag>, relay: Option<string>)
    ensures IsVanishRequestFor(tags, relay) <==> AsksToVanish(tags, relay)
  {
    if IsVanishRequestFor(tags, relay) {
      var t :| t in tags && t.name == "relay" && t.content.Some? &&
               (t.reading.AllRelays? || (t.reading.OneRelay? && relay == Some(t.reading.url)));
      var i :| 0 <= i < |tags| && tags[i] == t;
    }
  }

  /** An earlier deletion of the event's address, no older than the event, is on record. */
  ghost predicate DeletedAtAddress(deletedAt: map<Coordinate, int>, e: Event) {
    exists c :: c in deletedAt && AtAddress(e, c) && e.createdAt <= deletedAt[c]
  }

  lemma DeletedAtAddressMeans(deletedAt: map<Coordinate, int>, e: Event)
    ensures Spec.CoordinateDeleted(deletedAt, e) <==> DeletedAtAddress(deletedAt, e)
  {
    hide CoordinateOf, AtAddress;
    forall c
      ensures CoordinateOf(e) == Some(c) <==> AtAddress(e, c)
    {
      AddressMeans(e, c);
    }
    if CoordinateOf(e).Some? {
      assert AtAddress(e, CoordinateOf(e).value);
    }
  }

  /** The event is somebody's gift wrap for this key. */
  ghost predicate Wraps(f: Event, key: PublicKey) {
    f.kind == 1059 && exists i :: 0 <= i < |f.tags| && f.tags[i].name == "p" && f.tags[i].content == Some(key)
  }
}
