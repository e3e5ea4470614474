/**
  The SQLite store's save transaction. A transaction works on a copy of the tables;
  committing replaces the tables by the copy, and anything else drops it.
*/
module SqlStore {
  import opened Wrappers
  import opened Order
  import opened Events
  import opened Filters
  import opened SqlFilter
  import Spec = MemorySpec

  type Config = Spec.Config
  type Status = Spec.Status

  datatype Tables = Tables(
    events: set<Event>,
    tags: set<TagRow>,
    deletedIds: set<EventId>,
    deletedAt: map<Coordinate, int>,
    vanished: set<PublicKey>)

  /** The time as the column stores it. */
  function StoredTime(t: Timestamp): int { AsI64(t) }

  /** The rows the schema admits: ids are unique, times positive, tags listed. */
  ghost predicate WellFormed(t: Tables) {
    && TagsListed(t.events, t.tags)
    && (forall e :: e in t.events ==> SqlFilter.Recordable(e))
    && (forall c :: c in t.deletedAt ==> t.deletedAt[c] > 0)
  }

  /** `DELETE FROM events`, cascading to the tag table. */
  ghost function Without(t: Tables, gone: set<Event>): Tables {
    t.(events := t.events - gone,
       tags := set r | r in t.tags && !(exists e :: e in gone && e in t.events && e.id == r.eventId))
  }

  /** The tag rows of an event: its single-letter tags that have a value. */
  function TagRowsOf(e: Event): set<TagRow> {
    set t | t in e.tags && |t.name| == 1 && IsLetter(t.name[0]) && t.content.Some? ::
      TagRow(e.id, t.name, t.content.value)
  }

  // ---- what one save does ----

  predicate ReplacedBy(stored: Event, incoming: Event) {
    if StoredTime(stored.createdAt) > StoredTime(incoming.createdAt) then true
    else if StoredTime(stored.createdAt) == StoredTime(incoming.createdAt) then stored.id < incoming.id
    else false
  }

  ghost function Refusal(t: Tables, e: Event): Option<Spec.Reason> {
    if IsEphemeral(e.kind) then Some(Spec.Ephemeral)
    else if exists f :: f in t.events && f.id == e.id then Some(Spec.Duplicate)
    else if e.id in t.deletedIds then Some(Spec.Deleted)
    else if e.author in t.vanished then Some(Spec.Vanished)
    else if Spec.CoordinateDeleted(t.deletedAt, e) then Some(Spec.Deleted)
    else None
  }

  /** The stored event carries this value in some `d` tag. */
  predicate HasIdentifierRow(tags: set<TagRow>, e: Event, identifier: string) {
    TagRow(e.id, "d", identifier) in tags
  }

  /** The rows a replaceable or addressable newcomer may replace; the store looks at one of them. */
  function Candidates(t: Tables, e: Event): set<Event> {
    set f | f in t.events && f.author == e.author && f.kind == e.kind &&
            (IsReplaceable(e.kind) ||
             (IsAddressable(e.kind) && Identifier(e).Some? && HasIdentifierRow(t.tags, f, Identifier(e).value)))
  }

  ghost predicate Foreign(t: Tables, author: PublicKey, id: EventId) {
    exists f :: f in t.events && f.id == id && f.author != author
  }

  /** The request names a stored event or a coordinate that is not its author's. */
  ghost predicate Overreaches(t: Tables, d: Event) {
    || (exists id :: id in EventIds(d.tags) && Foreign(t, d.author, id))
    || (exists c :: c in Coordinates(d.tags) && c.author != d.author)
  }

  /** Replaceable coordinates reach every event of the author and kind, addressable ones those with the identifier. */
  predicate Targets(t: Tables, c: Coordinate, until: int, e: Event) {
    && e.author == c.author && e.kind == c.kind && StoredTime(e.createdAt) <= until
    && (IsReplaceable(c.kind) || (IsAddressable(c.kind) && HasIdentifierRow(t.tags, e, c.identifier)))
  }

  ghost function Deleted(t: Tables, d: Event): set<Event> {
    set e | e in t.events &&
      (e.id in EventIds(d.tags) || exists c :: c in Coordinates(d.tags) && Targets(t, c, StoredTime(d.createdAt), e))
  }

  /** `INSERT OR IGNORE`: a coordinate already listed keeps its time, and a time that is not positive is dropped. */
  function Mark(m: map<Coordinate, int>, cs: seq<Coordinate>, time: int): map<Coordinate, int> {
    if time <= 0 then m else map c | c in m.Keys + (set c | c in cs) :: if c in m then m[c] else time
  }

  ghost function AfterDeletion(t: Tables, d: Event): Tables {
    var left := Without(t, Deleted(t, d));
    left.(deletedIds := t.deletedIds + set e | e in t.events && e.id in EventIds(d.tags) :: e.id,
          deletedAt := Mark(t.deletedAt, Coordinates(d.tags), StoredTime(d.createdAt)))
  }

  ghost function AfterVanish(t: Tables, author: PublicKey): Tables {
    var left := Without(t, set e | e in t.events &&
                             (e.author == author || (e.kind == GIFT_WRAP && TagRow(e.id, "p", author) in t.tags)));
    left.(vanished := t.vanished + {author})
  }

  ghost function Inserted(t: Tables, e: Event): Tables {
    t.(events := t.events + {e}, tags := t.tags + TagRowsOf(e))
  }

  predicate Insertable(e: Event) { StoredTime(e.createdAt) > 0 }

  /** What the removals a save causes leave, the replaced row being `existing`. */
  ghost function Cleared(cfg: Config, t: Tables, e: Event, existing: Option<Event>): Tables {
    var t1 := if existing.Some? then Without(t, {existing.value}) else t;
    if Spec.IsDeletion(cfg, e) then AfterDeletion(t1, e)
    else if Spec.IsVanish(cfg, e) then AfterVanish(t1, e.author)
    else t1
  }

  /** The whole save, given the row `LIMIT 1` happened to find. */
  ghost function Save(cfg: Config, t: Tables, e: Event, existing: Option<Event>): (Tables, Status) {
    if Refusal(t, e).Some? then (t, Spec.Rejected(Refusal(t, e).value))
    else if existing.Some? && ReplacedBy(existing.value, e) then (t, Spec.Rejected(Spec.Replaced))
    else if Spec.IsDeletion(cfg, e) && Overreaches(t, e) then (t, Spec.Rejected(Spec.InvalidDelete))
    else if !Insertable(e) then (t, Spec.Rejected(Spec.Duplicate))
    else (Inserted(Cleared(cfg, t, e, existing), e), Spec.Success)
  }

  ghost predicate FoundIn(t: Tables, e: Event, existing: Option<Event>) {
    match existing
    case None => Candidates(t, e) == {}
    case Some(f) => f in Candidates(t, e)
  }

  // ---- table facts ----

  lemma TagRowsAreTags(e: Event)
    ensures forall r :: r in TagRowsOf(e) <==>
              r.eventId == e.id && exists c :: r.name == [c] && HasTag(e, c, r.value)
  {
    forall r | r in TagRowsOf(e)
      ensures r.eventId == e.id && exists c :: r.name == [c] && HasTag(e, c, r.value)
    {
      assert r.name == [r.name[0]];
      assert HasTag(e, r.name[0], r.value);
    }
    forall r: TagRow, c: char | r.eventId == e.id && r.name == [c] && HasTag(e, c, r.value)
      ensures r in TagRowsOf(e)
    {
      var t :| t in e.tags && t.name == [c] && t.content == Some(r.value);
      assert r == TagRow(e.id, t.name, t.content.value);
    }
  }

  lemma RowIffTag(events: set<Event>, tags: set<TagRow>, e: Event, c: char, v: string)
    requires TagsListed(events, tags) && e in events
    ensures TagRow(e.id, [c], v) in tags <==> HasTag(e, c, v)
  {
    if TagRow(e.id, [c], v) in tags {
      var f, d :| f in events && f.id == e.id && [c] == [d] && HasTag(f, d, v);
      assert [c][0] == [d][0] && f == e;
    }
    if HasTag(e, c, v) {
      var r := TagRow(e.id, [c], v);
      assert e in events && r.eventId == e.id && r.name == [c] && HasTag(e, c, r.value);
    }
  }

  lemma WithoutWellFormed(t: Tables, gone: set<Event>)
    requires WellFormed(t)
    ensures WellFormed(Without(t, gone))
  {
    var t' := Without(t, gone);
    forall r
      ensures r in t'.tags <==>
              exists e, c :: e in t'.events && r.eventId == e.id && r.name == [c] && HasTag(e, c, r.value)
    {
      if r in t'.tags {
        var e, c :| e in t.events && r.eventId == e.id && r.name == [c] && HasTag(e, c, r.value);
        assert e in t'.events;
      }
      if e, c :| e in t'.events && r.eventId == e.id && r.name == [c] && HasTag(e, c, r.value) {
        assert r in t.tags;
      }
    }
  }

  lemma InsertedWellFormed(t: Tables, e: Event)
    requires WellFormed(t) && Insertable(e) && forall f :: f in t.events ==> f.id != e.id
    ensures WellFormed(Inserted(t, e))
  {
    var t' := Inserted(t, e);
    TagRowsAreTags(e);
    forall r
      ensures r in t'.tags <==>
              exists f, c :: f in t'.events && r.eventId == f.id && r.name == [c] && HasTag(f, c, r.value)
    {
      if r in TagRowsOf(e) {
        var c :| r.name == [c] && HasTag(e, c, r.value);
        assert e in t'.events;
      } else if r in t.tags {
        var f, c :| f in t.events && r.eventId == f.id && r.name == [c] && HasTag(f, c, r.value);
        assert f in t'.events;
      }
    }
  }

  lemma ClearedFacts(cfg: Config, t: Tables, e: Event, existing: Option<Event>)
    requires WellFormed(t)
    ensures var t' := Cleared(cfg, t, e, existing); WellFormed(t') && t'.events <= t.events
  {
    var t1 := if existing.Some? then Without(t, {existing.value}) else t;
    if existing.Some? { WithoutWellFormed(t, {existing.value}); }
    if Spec.IsDeletion(cfg, e) {
      WithoutWellFormed(t1, Deleted(t1, e));
    } else if Spec.IsVanish(cfg, e) {
      WithoutWellFormed(t1, set f | f in t1.events &&
                              (f.author == e.author
                                || (f.kind == GIFT_WRAP && TagRow(f.id, "p", e.author) in t1.tags)));
    }
  }

  /** Saves keep the tables well formed. */
  lemma SaveWellFormed(cfg: Config, t: Tables, e: Event, existing: Option<Event>)
    requires WellFormed(t)
    ensures WellFormed(Save(cfg, t, e, existing).0)
  {
    if Save(cfg, t, e, existing).1 == Spec.Success {
      ClearedFacts(cfg, t, e, existing);
      InsertedWellFormed(Cleared(cfg, t, e, existing), e);
    }
  }

  // ---- invariants over runs ----

  /** Exactly one `d` tag, with a value. */
  ghost predicate OneIdentifierTag(e: Event) {
    Identifier(e).Some? && forall v :: HasTag(e, 'd', v) ==> Identifier(e) == Some(v)
  }

  ghost predicate OnePerAddress(t: Tables) {
    && (forall e :: e in t.events && IsAddressable(e.kind) ==> OneIdentifierTag(e))
    && (forall e, f :: e in t.events && f in t.events && Spec.SameAddress(e, f) ==> e == f)
  }

  lemma IdentifierIsTag(e: Event)
    requires Identifier(e).Some?
    ensures HasTag(e, 'd', Identifier(e).value)
  {
    var t := FindTag(e.tags, "d").value;
    assert t in e.tags && t.name == ['d'];
  }

  /** The candidates are exactly the events of the newcomer's address. */
  lemma CandidatesAreRivals(t: Tables, e: Event)
    requires WellFormed(t) && OnePerAddress(t)
    ensures Candidates(t, e) == Spec.Rivals(t.events, e)
  {
    KindsDisjoint(e.kind);
    forall f | f in t.events && f.author == e.author && f.kind == e.kind && IsAddressable(e.kind) && Identifier(e).Some?
      ensures HasIdentifierRow(t.tags, f, Identifier(e).value) <==> Identifier(f) == Identifier(e)
    {
      assert ['d'] == "d";
      RowIffTag(t.events, t.tags, f, 'd', Identifier(e).value);
      IdentifierIsTag(f);
    }
  }

  /** A save keeps at most one event per replaceable or addressable address. */
  lemma SaveKeepsOnePerAddress(cfg: Config, t: Tables, e: Event, existing: Option<Event>)
    requires WellFormed(t) && OnePerAddress(t) && FoundIn(t, e, existing)
    requires IsAddressable(e.kind) ==> OneIdentifierTag(e)
    ensures OnePerAddress(Save(cfg, t, e, existing).0)
  {
    if Save(cfg, t, e, existing).1 == Spec.Success {
      CandidatesAreRivals(t, e);
      ClearedFacts(cfg, t, e, existing);
      var t' := Cleared(cfg, t, e, existing);
      NoRivalLeft(cfg, t, e, existing);
      forall f | f in t'.events
        ensures !Spec.SameAddress(f, e) && !Spec.SameAddress(e, f)
      {
        assert Spec.SameAddress(e, f) ==> Spec.SameAddress(f, e);
      }
    }
  }

  lemma NoRivalLeft(cfg: Config, t: Tables, e: Event, existing: Option<Event>)
    requires OnePerAddress(t) && Candidates(t, e) == Spec.Rivals(t.events, e) && FoundIn(t, e, existing)
    ensures forall f :: f in Cleared(cfg, t, e, existing).events ==> !Spec.SameAddress(f, e)
  {
    forall f | f in t.events && Spec.SameAddress(f, e)
      ensures existing == Some(f)
    {
      assert f in Candidates(t, e);
      assert Spec.SameAddress(existing.value, f);
    }
  }

  /**
    Tombstones: no stored id is deleted, a vanished key keeps its request alone, and
    recorded deletion times are past.
  */
  ghost predicate TombstonesHold(t: Tables) {
    && (forall e :: e in t.events ==> e.id !in t.deletedIds)
    && (forall e :: e in t.events ==> !Spec.CoordinateDeleted(t.deletedAt, e))
    && (forall e :: e in t.events && e.author in t.vanished ==> e.kind == REQUEST_TO_VANISH)
    && (forall e, f :: e in t.events && f in t.events && e.author == f.author && e.author in t.vanished ==> e == f)
  }

  /** A deletion request removes what its coordinates, once recorded, forbid. */
  lemma DeletionRespected(t: Tables, d: Event, e: Event)
    requires WellFormed(t) && OnePerAddress(t) && Insertable(d) && TombstonesHold(t)
    requires e in t.events && Spec.CoordinateDeleted(AfterDeletion(t, d).deletedAt, e)
    ensures e in Deleted(t, d)
  {
    KindsDisjoint(e.kind);
    var c := CoordinateOf(e).value;
    assert c in Coordinates(d.tags);
    if IsAddressable(e.kind) {
      assert ['d'] == "d";
      IdentifierIsTag(e);
      RowIffTag(t.events, t.tags, e, 'd', Identifier(e).value);
    }
    assert Targets(t, c, StoredTime(d.createdAt), e);
  }

  lemma SubsetTombstonesHold(t: Tables, t': Tables)
    requires TombstonesHold(t) && t'.events <= t.events && t'.deletedAt == t.deletedAt
    requires t'.deletedIds == t.deletedIds && t'.vanished == t.vanished
    ensures TombstonesHold(t')
  {
  }

  lemma ClearedTombstonesHold(cfg: Config, t: Tables, e: Event, existing: Option<Event>)
    requires WellFormed(t) && OnePerAddress(t) && TombstonesHold(t) && Insertable(e)
    ensures TombstonesHold(Cleared(cfg, t, e, existing))
  {
    var t1 := if existing.Some? then Without(t, {existing.value}) else t;
    if existing.Some? { WithoutWellFormed(t, {existing.value}); }
    SubsetTombstonesHold(t, t1);
    if Spec.IsDeletion(cfg, e) {
      var t2 := AfterDeletion(t1, e);
      forall f | f in t2.events
        ensures f.id !in t2.deletedIds && !Spec.CoordinateDeleted(t2.deletedAt, f)
      {
        if Spec.CoordinateDeleted(t2.deletedAt, f) {
          DeletionRespected(t1, e, f);
        }
      }
    }
  }

  /** Saves respect the tombstones. */
  lemma SaveTombstonesHold(cfg: Config, t: Tables, e: Event, existing: Option<Event>)
    requires WellFormed(t) && OnePerAddress(t) && TombstonesHold(t)
    ensures TombstonesHold(Save(cfg, t, e, existing).0)
  {
    if Save(cfg, t, e, existing).1 == Spec.Success {
      KindsDisjoint(e.kind);
      ClearedTombstonesHold(cfg, t, e, existing);
      ClearedFacts(cfg, t, e, existing);
      AdmitTombstonesHold(cfg, t, e, existing);
    }
  }

  lemma AdmitTombstonesHold(cfg: Config, t: Tables, e: Event, existing: Option<Event>)
    requires Refusal(t, e).None? && TombstonesHold(Cleared(cfg, t, e, existing))
    ensures TombstonesHold(Inserted(Cleared(cfg, t, e, existing), e))
  {
    KindsDisjoint(e.kind);
    var t' := Cleared(cfg, t, e, existing);
    assert e.id !in t'.deletedIds;
    assert !Spec.CoordinateDeleted(t'.deletedAt, e);
    assert e.author in t'.vanished ==>
      e.kind == REQUEST_TO_VANISH && forall f :: f in t'.events ==> f.author != e.author;
  }

  /** The tables without the rows a filter selects. */
  ghost function AfterRemoval(t: Tables, f: Filter): Tables {
    Without(t, set e | e in t.events && Selected(f, e))
  }

  /** Wiping empties every table but that of the vanished keys. */
  function AfterWipe(t: Tables): Tables { Tables({}, {}, {}, map[], t.vanished) }

  datatype Op =
    | Saved(event: Event, existing: Option<Event>)
    | Removed(filter: Filter)
    | Wiped

  ghost function Apply(cfg: Config, t: Tables, op: Op): Tables {
    match op
    case Saved(e, existing) => Save(cfg, t, e, existing).0
    case Removed(f) => AfterRemoval(t, f)
    case Wiped => AfterWipe(t)
  }

  ghost function Run(cfg: Config, run: seq<Op>): Tables {
    if run == [] then Tables({}, {}, {}, map[], {})
    else Apply(cfg, Run(cfg, run[..|run| - 1]), run[|run| - 1])
  }

  /** Every save of the run found what the tables then held. */
  ghost predicate Faithful(cfg: Config, run: seq<Op>) {
    forall i :: 0 <= i < |run| && run[i].Saved? ==> FoundIn(Run(cfg, run[..i]), run[i].event, run[i].existing)
  }

  ghost predicate Consistent(t: Tables) { WellFormed(t) && OnePerAddress(t) && TombstonesHold(t) }

  /** Rows may always go. */
  lemma WithoutConsistent(t: Tables, gone: set<Event>)
    requires Consistent(t)
    ensures Consistent(Without(t, gone))
  {
    WithoutWellFormed(t, gone);
    SubsetTombstonesHold(t, Without(t, gone));
  }

  lemma SaveConsistent(cfg: Config, t: Tables, e: Event, existing: Option<Event>)
    requires Consistent(t) && FoundIn(t, e, existing) && (IsAddressable(e.kind) ==> OneIdentifierTag(e))
    ensures Consistent(Save(cfg, t, e, existing).0)
  {
    hide WellFormed, OnePerAddress, TombstonesHold, FoundIn, Save;
    SaveWellFormed(cfg, t, e, existing);
    SaveKeepsOnePerAddress(cfg, t, e, existing);
    SaveTombstonesHold(cfg, t, e, existing);
  }

  /**
    Over any run of saves, filtered deletes and wipes, the addressable events saved having one
    identifier, the tables stay consistent.
  */
  lemma {:induction false} RunsHold(cfg: Config, run: seq<Op>)
    requires Faithful(cfg, run)
    requires forall op :: op in run && op.Saved? && IsAddressable(op.event.kind) ==> OneIdentifierTag(op.event)
    ensures Consistent(Run(cfg, run))
  {
    if run != [] {
      var before, last := run[..|run| - 1], run[|run| - 1];
      assert Faithful(cfg, before) by {
        forall i | 0 <= i < |before| && before[i].Saved?
          ensures FoundIn(Run(cfg, before[..i]), before[i].event, before[i].existing)
        {
          assert before[..i] == run[..i];
        }
      }
      RunsHold(cfg, before);
      assert last in run;
      hide Consistent, FoundIn, Save, Without;
      var t := Run(cfg, before);
      match last {
        case Saved(e, existing) => SaveConsistent(cfg, t, e, existing);
        case Removed(f) => WithoutConsistent(t, set e | e in t.events && Selected(f, e));
        case Wiped => WipeConsistent(t);
      }
    }
  }

  lemma WipeConsistent(t: Tables)
    ensures Consistent(AfterWipe(t))
  {
  }

  /** A wiped store still turns vanished keys away, and nothing else that it stores at all. */
  lemma WipedRefusesIff(t: Tables, e: Event)
    ensures Refusal(AfterWipe(t), e)
            == if IsEphemeral(e.kind) then Some(Spec.Ephemeral)
               else if e.author in t.vanished then Some(Spec.Vanished)
               else None
  {
  }

  // ---- deletion times are recorded once ----

  /** The first deletion time recorded for a coordinate stays. */
  lemma RecordedTimesStay(cfg: Config, t: Tables, e: Event, existing: Option<Event>)
    ensures forall c :: c in t.deletedAt ==>
              c in Save(cfg, t, e, existing).0.deletedAt && Save(cfg, t, e, existing).0.deletedAt[c] == t.deletedAt[c]
  {
  }

  /** A deletion keeps an event of its coordinate away unless an earlier one, older than the event, is on record. */
  lemma DeletionSticksIff(t: Tables, d: Event, e: Event)
    requires CoordinateOf(e).Some? && CoordinateOf(e).value in Coordinates(d.tags)
    requires Insertable(d) && e.createdAt <= StoredTime(d.createdAt)
    ensures var c := CoordinateOf(e).value;
            Spec.CoordinateDeleted(AfterDeletion(t, d).deletedAt, e)
            <==> !(c in t.deletedAt && t.deletedAt[c] < e.createdAt)
  {
  }

  /** The request `d`, in order and not refused, names the coordinate of the stored event `e` and is no older. */
  ghost predicate DeletesStored(cfg: Config, t: Tables, d: Event, e: Event) {
    && WellFormed(t) && OnePerAddress(t) && e in t.events && e.id !in t.deletedIds
    && Spec.IsDeletion(cfg, d) && Refusal(t, d).None? && !Overreaches(t, d) && Insertable(d)
    && CoordinateOf(e).Some? && CoordinateOf(e).value in Coordinates(d.tags) && e.createdAt <= StoredTime(d.createdAt)
  }

  /** Such a request is saved, and takes the event and whatever else has its address away. */
  lemma StoredIsDeleted(cfg: Config, t: Tables, d: Event, e: Event)
    requires DeletesStored(cfg, t, d, e)
    ensures e.author == d.author && e.id != d.id
    ensures Save(cfg, t, d, None) == (Inserted(AfterDeletion(t, d), d), Spec.Success)
    ensures forall f :: f in Save(cfg, t, d, None).0.events ==> f.id != e.id && !Spec.SameAddress(f, e)
  {
    KindsDisjoint(e.kind);
    KindsDisjoint(d.kind);
    var c := CoordinateOf(e).value;
    assert c.author == d.author;
    if IsAddressable(e.kind) {
      assert ['d'] == "d";
      IdentifierIsTag(e);
      RowIffTag(t.events, t.tags, e, 'd', Identifier(e).value);
    }
    assert Targets(t, c, StoredTime(d.createdAt), e);
    assert e in Deleted(t, d);
    forall f | f in t.events && Spec.SameAddress(f, e)
      ensures f == e
    {
    }
  }

  /** Saved again, the event goes back in if and only if the request does not name its id and did not stick. */
  lemma SavedAgainIff(cfg: Config, t: Tables, d: Event, e: Event, existing: Option<Event>)
    requires DeletesStored(cfg, t, d, e) && FoundIn(Save(cfg, t, d, None).0, e, existing)
    ensures var t', c := Save(cfg, t, d, None).0, CoordinateOf(e).value;
            && e !in t'.events
            && (Save(cfg, t', e, existing).1 == Spec.Success
                <==> e.id !in EventIds(d.tags) && c in t.deletedAt && t.deletedAt[c] < e.createdAt)
  {
    KindsDisjoint(e.kind);
    KindsDisjoint(d.kind);
    var t' := Save(cfg, t, d, None).0;
    StoredIsDeleted(cfg, t, d, e);
    DeletionSticksIff(t, d, e);
    NoCandidateLeft(cfg, t, d, e);
    AfterSave(t, d);
    hide Save, AfterDeletion, Inserted, WellFormed, OnePerAddress, Candidates, Spec.CoordinateDeleted, Overreaches;
    SaveWithoutRival(cfg, t, t', d, e);
  }

  lemma AfterSave(t: Tables, d: Event)
    ensures var t' := Inserted(AfterDeletion(t, d), d);
            && t'.vanished == t.vanished && t'.deletedAt == AfterDeletion(t, d).deletedAt
            && t'.deletedIds == t.deletedIds + set e | e in t.events && e.id in EventIds(d.tags) :: e.id
  {
  }

  lemma NoCandidateLeft(cfg: Config, t: Tables, d: Event, e: Event)
    requires DeletesStored(cfg, t, d, e)
    ensures Candidates(Save(cfg, t, d, None).0, e) == {}
  {
    StoredIsDeleted(cfg, t, d, e);
    var t' := Save(cfg, t, d, None).0;
    SaveWellFormed(cfg, t, d, None);
    KindsDisjoint(d.kind);
    SaveKeepsOnePerAddress(cfg, t, d, None);
    CandidatesAreRivals(t', e);
  }

  /** With no rival around, a save is decided by the tombstones alone. */
  lemma SaveWithoutRival(cfg: Config, t: Tables, t': Tables, d: Event, e: Event)
    requires DeletesStored(cfg, t, d, e) && (forall f :: f in t'.events ==> f.id != e.id)
    requires t'.vanished == t.vanished && t'.deletedAt == AfterDeletion(t, d).deletedAt
    requires t'.deletedIds == t.deletedIds + set f | f in t.events && f.id in EventIds(d.tags) :: f.id
    ensures Save(cfg, t', e, None).1 == Spec.Success
            <==> e.id !in EventIds(d.tags) && !Spec.CoordinateDeleted(t'.deletedAt, e)
  {
    KindsDisjoint(e.kind);
    KindsDisjoint(d.kind);
    hide AfterDeletion, Inserted, Overreaches, OnePerAddress, Spec.CoordinateDeleted, Cleared;
    assert e.author == d.author by { StoredIsDeleted(cfg, t, d, e); }
    assert e.id in t'.deletedIds <==> e.id in EventIds(d.tags);
  }

  /**
    So a second, later deletion of a coordinate removes the event but does not keep it
    away: an event newer than the recorded time is saved again.
  */
  lemma LaterDeletionDoesNotStick(cfg: Config, t: Tables, d: Event, e: Event)
    requires DeletesStored(cfg, t, d, e) && e.id !in EventIds(d.tags)
    requires CoordinateOf(e).value in t.deletedAt && t.deletedAt[CoordinateOf(e).value] < e.createdAt
    ensures var t' := Save(cfg, t, d, None).0;
            && e !in t'.events
            && FoundIn(t', e, None)
            && Save(cfg, t', e, None).1 == Spec.Success
  {
    NoCandidateLeft(cfg, t, d, e);
    SavedAgainIff(cfg, t, d, e, None);
  }

  // ---- the transaction ----

  /** The working copy of a transaction. */
  class Transaction {
    var t: Tables

    constructor (t: Tables)
      ensures this.t == t
    {
      this.t := t;
    }

    /** Removes rows and their tag rows. */
    method Remove(gone: set<Event>)
      modifies this
      ensures t == Without(old(t), gone)
    {
      var ids := set e | e in gone && e in t.events :: e.id;
      var tags := set r | r in t.tags && r.eventId !in ids;
      assert tags == Without(t, gone).tags;
      t := t.(events := t.events - gone, tags := tags);
    }

    method FindExisting(e: Event) returns (existing: Option<Event>)
      ensures FoundIn(t, e, existing)
    {
      var rows := Candidates(t, e);
      if rows == {} { return None; }
      var f :| f in rows;
      return Some(f);
    }

    /** The `e` tags: each stored event they name is marked and removed, up to one that is somebody else's. */
    method DeleteByIds(d: Event) returns (invalid: bool)
      requires UniqueIds(t.events)
      modifies this
      ensures invalid <==> exists id :: id in EventIds(d.tags) && Foreign(old(t), d.author, id)
      ensures !invalid ==>
        t == Without(old(t), Named(old(t), EventIds(d.tags)))
             .(deletedIds := old(t).deletedIds + Ids(Named(old(t), EventIds(d.tags))))
    {
      hide Without, Foreign, EventIds;
      var start := t;
      var named := EventIds(d.tags);
      ghost var gone := Named(start, []);
      NothingNamed(start);
      for i := 0 to |named|
        invariant gone == Named(start, named[..i])
        invariant forall id :: id in named[..i] ==> !Foreign(start, d.author, id)
        invariant t == Without(start, gone).(deletedIds := start.deletedIds + Ids(gone))
      {
        var here := set e | e in t.events && e.id == named[i];
        assert named[..i + 1] == named[..i] + [named[i]];
        NamedNext(start, named[..i], named[i], d.author, here);
        if here != {} {
          var f :| f in here;
          if f.author != d.author {
            return true;
          }
          t := t.(deletedIds := t.deletedIds + {named[i]});
          WithoutTwice(start, gone, {f});
          Remove({f});
          gone := gone + {f};
        }
      }
      assert named[..|named|] == named;
      return false;
    }

    /** The stored events these ids name. */
    static function Named(t: Tables, ids: seq<EventId>): set<Event> { set e | e in t.events && e.id in ids }

    static function Ids(events: set<Event>): set<EventId> { set e | e in events :: e.id }

    static lemma NothingNamed(t: Tables)
      ensures Named(t, []) == {} && Without(t, {}) == t && t.deletedIds + Ids({}) == t.deletedIds
    {
      WithoutNothing(t);
    }

    /** The rows the next id finds, those of the ids before it being gone. */
    static lemma NamedNext(t: Tables, ids: seq<EventId>, id: EventId, author: PublicKey, here: set<Event>)
      requires UniqueIds(t.events) && forall i :: i in ids ==> !Foreign(t, author, i)
      requires here == set e | e in Without(t, Named(t, ids)).events && e.id == id
      ensures forall f :: f in here ==> here == {f} && f.id == id && f in t.events
      ensures forall f :: f in here ==> (f.author != author <==> Foreign(t, author, id))
      ensures forall f :: f in here ==>
        Named(t, ids + [id]) == Named(t, ids) + {f} && Ids(Named(t, ids) + {f}) == Ids(Named(t, ids)) + {id}
      ensures here == {} ==> Named(t, ids + [id]) == Named(t, ids) && !Foreign(t, author, id)
    {
      if f :| f in here {
        assert Named(t, ids + [id]) == Named(t, ids) + {f};
      }
      assert forall f :: f in t.events && f.id == id && f.author != author ==> f in here;
    }

    static lemma WithoutTwice(t: Tables, a: set<Event>, b: set<Event>)
      requires UniqueIds(t.events)
      ensures Without(Without(t, a), b) == Without(t, a + b)
      ensures forall ids :: Without(Without(t, a).(deletedIds := ids), b) == Without(t, a + b).(deletedIds := ids)
      ensures forall m :: Without(Without(t, a).(deletedAt := m), b) == Without(t, a + b).(deletedAt := m)
    {
    }

    /** The `a` tags: each coordinate is marked and its events removed, up to one that is somebody else's. */
    method DeleteByCoordinates(d: Event) returns (invalid: bool)
      requires UniqueIds(t.events)
      modifies this
      ensures invalid <==> exists c :: c in Coordinates(d.tags) && c.author != d.author
      ensures !invalid ==>
        t == Without(old(t), Reached(old(t), Coordinates(d.tags), StoredTime(d.createdAt)))
             .(deletedAt := Mark(old(t).deletedAt, Coordinates(d.tags), StoredTime(d.createdAt)))
    {
      hide Without, Mark, Targets, Reached;
      var start := t;
      var named := Coordinates(d.tags);
      ghost var gone: set<Event> := Reached(start, [], StoredTime(d.createdAt));
      NothingReached(start, StoredTime(d.createdAt));
      for i := 0 to |named|
        invariant gone == Reached(start, named[..i], StoredTime(d.createdAt))
        invariant forall c :: c in named[..i] ==> c.author == d.author
        invariant t == Without(start, gone).(deletedAt := Mark(start.deletedAt, named[..i], StoredTime(d.createdAt)))
      {
        var c := named[i];
        if c.author != d.author {
          return true;
        }
        MarkCoordinate(c, StoredTime(d.createdAt));
        MarkOneMore(start.deletedAt, named[..i], c, StoredTime(d.createdAt));
        var here := RemoveTargets(c, StoredTime(d.createdAt));
        OneMoreReached(start, named[..i], c, StoredTime(d.createdAt), t.deletedAt);
        WithoutTwice(start, gone, here);
        gone := gone + here;
        assert named[..i + 1] == named[..i] + [c];
      }
      assert named[..|named|] == named;
      return false;
    }

    method MarkCoordinate(c: Coordinate, time: int)
      modifies this
      ensures t == old(t).(deletedAt := MarkOne(old(t).deletedAt, c, time))
    {
      if c !in t.deletedAt && time > 0 {
        t := t.(deletedAt := t.deletedAt[c := time]);
      }
    }

    method RemoveTargets(c: Coordinate, until: int) returns (here: set<Event>)
      modifies this
      ensures here == set e | e in old(t).events && Targets(old(t), c, until, e)
      ensures t == Without(old(t), here)
    {
      here := {};
      if IsReplaceable(c.kind) || IsAddressable(c.kind) {
        here := set e | e in t.events && Targets(t, c, until, e);
      }
      WithoutNothing(t);
      Remove(here);
    }

    static lemma WithoutNothing(t: Tables)
      ensures Without(t, {}) == t
    {
      assert t.events - {} == t.events;
      assert Without(t, {}).tags == t.tags;
    }

    static function MarkOne(m: map<Coordinate, int>, c: Coordinate, time: int): map<Coordinate, int> {
      if c !in m && time > 0 then m[c := time] else m
    }

    static lemma MarkOneMore(m: map<Coordinate, int>, cs: seq<Coordinate>, c: Coordinate, time: int)
      ensures Mark(m, cs + [c], time) == MarkOne(Mark(m, cs, time), c, time)
    {
    }

    /** The stored events some coordinate among `cs` reaches. */
    static function Reached(t: Tables, cs: seq<Coordinate>, until: int): set<Event> {
      set e | e in t.events && exists c :: c in cs && Targets(t, c, until, e)
    }

    static lemma NothingReached(t: Tables, until: int)
      ensures Reached(t, [], until) == {} && Without(t, {}) == t
      ensures t.(deletedAt := Mark(t.deletedAt, [], until)) == t
    {
      WithoutNothing(t);
      assert Mark(t.deletedAt, [], until) == t.deletedAt;
    }

    static lemma RowsStay(t: Tables, gone: set<Event>, e: Event, identifier: string)
      requires UniqueIds(t.events) && e in t.events && e !in gone
      ensures HasIdentifierRow(Without(t, gone).tags, e, identifier) <==> HasIdentifierRow(t.tags, e, identifier)
    {
    }

    static lemma OneMoreReached(t: Tables, cs: seq<Coordinate>, c: Coordinate, until: int, m: map<Coordinate, int>)
      requires UniqueIds(t.events)
      ensures var left := Without(t, Reached(t, cs, until)).(deletedAt := m);
              Reached(t, cs + [c], until) ==
              Reached(t, cs, until) + set e | e in left.events && Targets(left, c, until, e)
    {
      var gone := Reached(t, cs, until);
      var left := Without(t, gone).(deletedAt := m);
      forall e | e in t.events && e !in gone
        ensures Targets(left, c, until, e) <==> Targets(t, c, until, e)
      {
        RowsStay(t, gone, e, c.identifier);
      }
      forall e | e in t.events
        ensures e in Reached(t, cs + [c], until) <==> e in gone || Targets(t, c, until, e)
      {
        assert c in cs + [c];
        if x :| x in cs && Targets(t, x, until, e) {
          assert x in cs + [c];
        }
      }
    }

    /** A deletion request as a whole; the transaction is void when it is invalid. */
    method HandleDeletionEvent(d: Event) returns (invalid: bool)
      requires UniqueIds(t.events)
      modifies this
      ensures invalid <==> Overreaches(old(t), d)
      ensures !invalid ==> t == AfterDeletion(old(t), d)
    {
      ghost var start := t;
      ghost var byId := set e | e in t.events && e.id in EventIds(d.tags);
      invalid := DeleteByIds(d);
      if invalid { return; }
      ghost var mid := t;
      invalid := DeleteByCoordinates(d);
      DeletionInTwo(start, d, mid, t, byId);
    }

    static lemma DeletionInTwo(t: Tables, d: Event, mid: Tables, end: Tables, byId: set<Event>)
      requires UniqueIds(t.events) && byId == set e | e in t.events && e.id in EventIds(d.tags)
      requires mid == Without(t, byId).(deletedIds := t.deletedIds + set e | e in t.events
               && e.id in EventIds(d.tags) :: e.id)
      ensures end == Without(mid, Reached(mid, Coordinates(d.tags), StoredTime(d.createdAt)))
                     .(deletedAt := Mark(mid.deletedAt, Coordinates(d.tags), StoredTime(d.createdAt)))
              ==> end == AfterDeletion(t, d)
    {
      var cs, until := Coordinates(d.tags), StoredTime(d.createdAt);
      forall e | e in t.events && e !in byId
        ensures forall c :: Targets(mid, c, until, e) <==> Targets(t, c, until, e)
      {
        forall c: Coordinate
          ensures Targets(mid, c, until, e) <==> Targets(t, c, until, e)
        {
          RowsStay(t, byId, e, c.identifier);
        }
      }
      assert byId + Reached(mid, cs, until) == Deleted(t, d);
      WithoutTwice(t, byId, Reached(mid, cs, until));
    }

    method HandleRequestToVanish(author: PublicKey)
      requires UniqueIds(t.events)
      modifies this
      ensures t == AfterVanish(old(t), author)
    {
      ghost var start := t;
      t := t.(vanished := t.vanished + {author});
      var authored := set e | e in t.events && e.author == author;
      Remove(authored);
      var wraps := set e | e in t.events && e.kind == GIFT_WRAP && TagRow(e.id, "p", author) in t.tags;
      WithoutTwice(start, authored, wraps);
      assert authored + wraps == set e | e in start.events &&
        (e.author == author || (e.kind == GIFT_WRAP && TagRow(e.id, "p", author) in start.tags));
      Remove(wraps);
    }

    /** `INSERT OR IGNORE`: no row when the id is taken or the time not positive. */
    method InsertEvent(e: Event) returns (inserted: bool)
      modifies this
      ensures inserted <==> Insertable(e) && forall f :: f in old(t).events ==> f.id != e.id
      ensures t == if inserted then Inserted(old(t), e) else old(t)
    {
      inserted := Insertable(e) && forall f | f in t.events :: f.id != e.id;
      if inserted {
        t := t.(events := t.events + {e});
        InsertTags(e);
      }
    }

    static ghost predicate ComesFrom(e: Event, tags: seq<Tag>, r: TagRow) {
      exists x :: x in tags && |x.name| == 1 && IsLetter(x.name[0]) && x.content.Some? &&
                  r == TagRow(e.id, x.name, x.content.value)
    }

    method InsertTags(e: Event)
      modifies this
      ensures t == old(t).(tags := old(t).tags + TagRowsOf(e))
    {
      for i := 0 to |e.tags|
        invariant t == old(t).(tags := t.tags)
        invariant forall r :: r in t.tags <==> (r in old(t).tags || ComesFrom(e, e.tags[..i], r))
      {
        var x := e.tags[i];
        if |x.name| == 1 && IsLetter(x.name[0]) && x.content.Some? {
          t := t.(tags := t.tags + {TagRow(e.id, x.name, x.content.value)});
        }
        assert e.tags[..i + 1] == e.tags[..i] + [x];
      }
      assert e.tags[..|e.tags|] == e.tags;
      assert t.tags == old(t).tags + TagRowsOf(e);
    }
  }

  class SqliteStore {
    const cfg: Config
    var committed: Tables

    constructor (cfg: Config)
      ensures this.cfg == cfg && committed == Tables({}, {}, {}, map[], {})
    {
      this.cfg, committed := cfg, Tables({}, {}, {}, map[], {});
    }

    method Refuse(e: Event) returns (r: Option<Spec.Reason>)
      ensures r == Refusal(committed, e)
    {
      if IsEphemeral(e.kind) { return Some(Spec.Ephemeral); }
      if exists f | f in committed.events :: f.id == e.id { return Some(Spec.Duplicate); }
      if e.id in committed.deletedIds { return Some(Spec.Deleted); }
      if e.author in committed.vanished { return Some(Spec.Vanished); }
      if Spec.CoordinateDeleted(committed.deletedAt, e) { return Some(Spec.Deleted); }
      return None;
    }

    lemma SaveAll(t: Tables, e: Event)
      requires WellFormed(t)
      ensures forall existing :: WellFormed(Save(cfg, t, e, existing).0)
      ensures UniqueIds(t.events)
    {
      forall existing
        ensures WellFormed(Save(cfg, t, e, existing).0)
      {
        SaveWellFormed(cfg, t, e, existing);
      }
    }

    static lemma StillUnique(t: Tables, t': Tables)
      requires WellFormed(t)
      ensures t'.events <= t.events ==> UniqueIds(t'.events)
      ensures forall gone :: Without(t, gone).events <= t.events
    {
    }

    static lemma NotADeletion(t: Tables, e: Event)
      requires e.kind == EVENT_DELETION
      ensures Candidates(t, e) == {}
    {
      KindsDisjoint(e.kind);
    }

    static lemma NewId(cfg: Config, t: Tables, e: Event, existing: Option<Event>)
      requires WellFormed(t) && Refusal(t, e).None?
      ensures forall f :: f in Cleared(cfg, t, e, existing).events ==> f.id != e.id
    {
      ClearedFacts(cfg, t, e, existing);
    }

    /** One save: all of it or, whatever the transaction had done by then, nothing of it. */
    method SaveEvent(e: Event) returns (status: Status, ghost existing: Option<Event>)
      requires WellFormed(committed)
      modifies this
      ensures WellFormed(committed)
      ensures FoundIn(old(committed), e, existing)
      ensures (committed, status) == Save(cfg, old(committed), e, existing)
      ensures status != Spec.Success ==> committed == old(committed)
    {
      ghost var before := committed;
      SaveAll(before, e);
      hide WellFormed, Without, AfterDeletion, AfterVanish, Inserted, Spec.CoordinateDeleted, Overreaches, Candidates;
      var tx := new Transaction(committed);
      var found := tx.FindExisting(e);
      existing := found;
      var refusal := Refuse(e);
      if refusal.Some? {
        return Spec.Rejected(refusal.value), existing;
      }
      if found.Some? {
        if ReplacedBy(found.value, e) {
          return Spec.Rejected(Spec.Replaced), existing;
        }
        tx.Remove({found.value});
      }
      StillUnique(committed, tx.t);
      if Spec.IsDeletion(cfg, e) {
        NotADeletion(committed, e);
        var invalid := tx.HandleDeletionEvent(e);
        if invalid {
          return Spec.Rejected(Spec.InvalidDelete), existing;
        }
      }
      if Spec.IsVanish(cfg, e) {
        tx.HandleRequestToVanish(e.author);
      }
      assert tx.t == Cleared(cfg, committed, e, existing);
      NewId(cfg, committed, e, existing);
      var inserted := tx.InsertEvent(e);
      if !inserted {
        return Spec.Rejected(Spec.Duplicate), existing;
      }
      committed := tx.t;
      status := Spec.Success;
      assert Save(cfg, before, e, existing) == (committed, status);
    }

    /** A filtered delete: the compiled statement, evaluated over the tables, removes what the filter selects. */
    method DeleteMatching(f: Filter)
      requires WellFormed(committed) && (f.limit.Some? ==> f.limit.value < 2 * I64_LIMIT)
      modifies this
      ensures WellFormed(committed) && committed == AfterRemoval(old(committed), f)
    {
      hide Without, Selected, Rows, ParseQuery, CompiledFor;
      var q;
      ghost var query;
      q, query := BuildFilter(f, Delete);
      var parsed := ParseQuery(q.sql, q.params);
      RowsAreSelected(committed.events, committed.tags, f, Delete, query);
      var rows := Rows(committed.events, committed.tags, parsed.value);
      WithoutWellFormed(committed, rows);
      var tx := new Transaction(committed);
      tx.Remove(rows);
      committed := tx.t;
    }

    method Wipe()
      modifies this
      ensures committed == AfterWipe(old(committed))
    {
      committed := Tables({}, {}, {}, map[], committed.vanished);
    }
  }
}
