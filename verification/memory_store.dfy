/**
  The in-memory store itself: the events, the id map, three secondary indexes and
  the tombstones, updated in place. Every operation is tied to `MemorySpec`.
*/
module Memory {
  import opened Wrappers
  import opened Order
  import opened Events
  import opened Filters
  import opened MemoryQuery
  import opened MemorySpec
  import opened TagMeaning

  datatype KindAuthor = KindAuthor(kind: Kind, author: PublicKey)

  function KeyOf(e: Event): Coordinate
    requires Identifier(e).Some?
  {
    Coordinate(e.kind, e.author, Identifier(e).value)
  }

  // ---- the indexes as values ----

  function Lookup<K, V>(m: map<K, V>, k: K): Option<V> {
    if k in m then Some(m[k]) else None
  }

  function Bucket<K>(m: map<K, set<Event>>, k: K): set<Event> {
    if k in m then m[k] else {}
  }

  function OfAuthor(events: set<Event>, a: PublicKey): set<Event> {
    set e | e in events && e.author == a
  }

  function OfKindAuthor(events: set<Event>, k: KindAuthor): set<Event> {
    set e | e in events && KindAuthor(e.kind, e.author) == k
  }

  /** Looking an id up finds exactly the stored event of that id. */
  ghost predicate IdsIndexed(events: set<Event>, ids: map<EventId, Event>) {
    forall id, e :: Lookup(ids, id) == Some(e) <==> e in events && e.id == id
  }

  /** The buckets are exactly the stored events parted by author. */
  ghost predicate AuthorsIndexed(events: set<Event>, byAuthor: map<PublicKey, set<Event>>) {
    forall a :: Bucket(byAuthor, a) == OfAuthor(events, a)
  }

  /** The buckets are exactly the stored events parted by kind and author. */
  ghost predicate KindAuthorsIndexed(events: set<Event>, byKindAuthor: map<KindAuthor, set<Event>>) {
    forall k :: Bucket(byKindAuthor, k) == OfKindAuthor(events, k)
  }

  /** Looking an address up finds exactly the stored addressable event that has it. */
  ghost predicate AddressesIndexed(events: set<Event>, byAddress: map<Coordinate, Event>) {
    forall a, e :: Lookup(byAddress, a) == Some(e) <==> e in events && HasAddress(e, a)
  }

  function DropFrom<K>(m: map<K, set<Event>>, k: K, e: Event): map<K, set<Event>> {
    if k in m then m[k := m[k] - {e}] else m
  }

  function AddTo<K>(m: map<K, set<Event>>, k: K, e: Event): map<K, set<Event>> {
    m[k := (if k in m then m[k] else {}) + {e}]
  }

  lemma DropId(events: set<Event>, ids: map<EventId, Event>, e: Event)
    requires e in events && IdsIndexed(events, ids)
    ensures IdsIndexed(events - {e}, ids - {e.id})
  {
    forall id, f
      ensures Lookup(ids - {e.id}, id) == Some(f) <==> f in events - {e} && f.id == id
    {
      assert Lookup(ids, id) == Some(f) <==> f in events && f.id == id;
      assert Lookup(ids, e.id) == Some(e);
    }
  }

  lemma AddId(events: set<Event>, ids: map<EventId, Event>, e: Event)
    requires IdsIndexed(events, ids) && forall f :: f in events ==> f.id != e.id
    ensures IdsIndexed(events + {e}, ids[e.id := e])
  {
    var ids' := ids[e.id := e];
    forall id, f
      ensures Lookup(ids', id) == Some(f) <==> f in events + {e} && f.id == id
    {
      assert Lookup(ids, id) == Some(f) <==> f in events && f.id == id;
    }
  }

  lemma DropAuthor(events: set<Event>, byAuthor: map<PublicKey, set<Event>>, e: Event)
    requires AuthorsIndexed(events, byAuthor)
    ensures AuthorsIndexed(events - {e}, DropFrom(byAuthor, e.author, e))
  {
    forall a
      ensures Bucket(DropFrom(byAuthor, e.author, e), a) == OfAuthor(events - {e}, a)
    {
      assert Bucket(byAuthor, a) == OfAuthor(events, a);
    }
  }

  lemma AddAuthor(events: set<Event>, byAuthor: map<PublicKey, set<Event>>, e: Event)
    requires AuthorsIndexed(events, byAuthor)
    ensures AuthorsIndexed(events + {e}, AddTo(byAuthor, e.author, e))
  {
    forall a
      ensures Bucket(AddTo(byAuthor, e.author, e), a) == OfAuthor(events + {e}, a)
    {
      assert Bucket(byAuthor, a) == OfAuthor(events, a);
    }
  }

  lemma DropKindAuthor(events: set<Event>, byKindAuthor: map<KindAuthor, set<Event>>, e: Event)
    requires KindAuthorsIndexed(events, byKindAuthor)
    ensures KindAuthorsIndexed(events - {e}, DropFrom(byKindAuthor, KindAuthor(e.kind, e.author), e))
  {
    forall k
      ensures Bucket(DropFrom(byKindAuthor, KindAuthor(e.kind, e.author), e), k) == OfKindAuthor(events - {e}, k)
    {
      assert Bucket(byKindAuthor, k) == OfKindAuthor(events, k);
    }
  }

  lemma AddKindAuthor(events: set<Event>, byKindAuthor: map<KindAuthor, set<Event>>, e: Event)
    requires KindAuthorsIndexed(events, byKindAuthor)
    ensures KindAuthorsIndexed(events + {e}, AddTo(byKindAuthor, KindAuthor(e.kind, e.author), e))
  {
    forall k
      ensures Bucket(AddTo(byKindAuthor, KindAuthor(e.kind, e.author), e), k) == OfKindAuthor(events + {e}, k)
    {
      assert Bucket(byKindAuthor, k) == OfKindAuthor(events, k);
    }
  }

  /** A replaceable newcomer replaces its whole bucket: nothing else may be in it. */
  lemma ReplaceKindAuthor(events: set<Event>, byKindAuthor: map<KindAuthor, set<Event>>, e: Event)
    requires KindAuthorsIndexed(events, byKindAuthor)
    requires forall f :: f in events ==> KindAuthor(f.kind, f.author) != KindAuthor(e.kind, e.author)
    ensures KindAuthorsIndexed(events + {e}, byKindAuthor[KindAuthor(e.kind, e.author) := {e}])
  {
    forall k
      ensures Bucket(byKindAuthor[KindAuthor(e.kind, e.author) := {e}], k) == OfKindAuthor(events + {e}, k)
    {
      assert Bucket(byKindAuthor, k) == OfKindAuthor(events, k);
    }
  }

  lemma DropAddress(events: set<Event>, byAddress: map<Coordinate, Event>, e: Event)
    requires e in events && AddressesIndexed(events, byAddress)
    ensures IsAddressable(e.kind) && Identifier(e).Some? ==> AddressesIndexed(events - {e}, byAddress - {KeyOf(e)})
    ensures !(IsAddressable(e.kind) && Identifier(e).Some?) ==> AddressesIndexed(events - {e}, byAddress)
  {
    var gone := if IsAddressable(e.kind) && Identifier(e).Some? then {KeyOf(e)} else {};
    forall a, f
      ensures Lookup(byAddress - gone, a) == Some(f) <==> f in events - {e} && HasAddress(f, a)
    {
      assert Lookup(byAddress, a) == Some(f) <==> f in events && HasAddress(f, a);
      assert Lookup(byAddress, a) == Some(e) <==> HasAddress(e, a);
    }
    assert byAddress - {} == byAddress;
  }

  lemma AddAddress(events: set<Event>, byAddress: map<Coordinate, Event>, e: Event)
    requires AddressesIndexed(events, byAddress)
    requires forall f :: f in events ==> !SameAddress(f, e)
    requires IsAddressable(e.kind) ==> Identifier(e).Some?
    ensures IsAddressable(e.kind) ==> AddressesIndexed(events + {e}, byAddress[KeyOf(e) := e])
    ensures !IsAddressable(e.kind) ==> AddressesIndexed(events + {e}, byAddress)
  {
    var m := if IsAddressable(e.kind) then byAddress[KeyOf(e) := e] else byAddress;
    forall a, f
      ensures Lookup(m, a) == Some(f) <==> f in events + {e} && HasAddress(f, a)
    {
      assert Lookup(byAddress, a) == Some(f) <==> f in events && HasAddress(f, a);
    }
  }

  lemma RaiseOneMore(m: map<Coordinate, Timestamp>, cs: seq<Coordinate>, c: Coordinate, t: Timestamp)
    ensures Raise(m, cs + [c], t) == Raise(m, cs, t)[c := Later(Raise(m, cs, t), c, t)]
  {
  }

  /** The first `n` of a full set and a newcomer: without the greatest, whichever that is. */
  lemma FullSetKeeps(events: set<Event>, n: nat, e: Event, last: Event)
    requires UniqueIds(events + {e}) && e !in events && |events| == n && IsGreatest(Before, events, last)
    ensures FirstN(Before, events + {e}, n) == if Before(e, last) then events + {e} - {last} else events
  {
    hide FirstN;
    EventsOrdered(events + {e});
    var kept := if Before(e, last) then events + {e} - {last} else events;
    assert |events + {e}| == n + 1;
    assert |kept| == n;
    FirstNUnique(Before, events + {e}, n, kept);
  }

  /** In a full set the newcomer displaces the greatest element, or is refused when it would be the greatest. */
  method CapInsert(events: set<Event>, capacity: Option<nat>, e: Event)
    returns (events': set<Event>, inserted: bool, pop: Option<Event>)
    requires UniqueIds(events + {e}) && e !in events
    requires capacity.Some? ==> capacity.value > 0 && |events| <= capacity.value
    ensures events' == Keep(capacity, events + {e})
    ensures inserted <==> e in events'
    ensures pop.Some? ==> inserted && pop.value in events && pop.value != e && events' == events + {e} - {pop.value}
    ensures pop.None? ==> events' == if inserted then events + {e} else events
  {
    hide FirstN;
    KeepFacts(capacity, events + {e});
    if capacity.Some? && |events| >= capacity.value {
      EventsOrdered(events);
      ghost var g := GreatestExists(Before, events);
      var last :| last in events && forall f | f in events :: f == last || Before(f, last);
      FullSetKeeps(events, capacity.value, e, last);
      if Before(e, last) {
        events' := events + {e} - {last};
        inserted, pop := true, Some(last);
      } else {
        events', inserted, pop := events, false, None;
      }
    } else {
      events', inserted, pop := events + {e}, true, None;
    }
  }

  class MemoryStore {
    const cfg: Config
    var events: set<Event>
    var ids: map<EventId, Event>
    var byAuthor: map<PublicKey, set<Event>>
    var byKindAuthor: map<KindAuthor, set<Event>>
    var byAddress: map<Coordinate, Event>
    var deletedIds: set<EventId>
    var deletedAt: map<Coordinate, Timestamp>
    var vanished: set<PublicKey>

    ghost function Contents(): State
      reads this
    {
      State(events, deletedIds, deletedAt, vanished)
    }

    /** All four indexes describe exactly the stored events. */
    ghost predicate Indexed()
      reads this
    {
      && IdsIndexed(events, ids)
      && AuthorsIndexed(events, byAuthor)
      && KindAuthorsIndexed(events, byKindAuthor)
      && AddressesIndexed(events, byAddress)
    }

    ghost predicate Valid()
      reads this
    {
      cfg.Valid() && Indexed() && Coherent(cfg, Contents())
    }

    constructor (cfg: Config)
      requires cfg.Valid()
      ensures Valid() && Contents() == EMPTY_STATE && this.cfg == cfg
    {
      this.cfg := cfg;
      events, ids, byAuthor, byKindAuthor, byAddress := {}, map[], map[], map[], map[];
      deletedIds, deletedAt, vanished := {}, map[], {};
    }

    // ---- queries ----

    method MakePlan(f: Filter) returns (p: Plan)
      ensures p == PlanOf(f)
    {
      if Single(f.authors) && Unconstrained(f.ids) && f.search.None? {
        ghost var onlyAuthor := Only(f.authors);
        var author :| author in f.authors.value;
        if Unconstrained(f.kinds) && f.genericTags == map[] {
          return ByAuthor(author, f.since, f.until);
        }
        if Single(f.kinds) {
          ghost var onlyKind := Only(f.kinds);
          var kind :| kind in f.kinds.value;
          if f.genericTags == map[] {
            return ByKindAndAuthor(kind, author, f.since, f.until);
          }
          if NamesIdentifier(f) && IsAddressable(kind) {
            ghost var least := LeastText(f.genericTags['d']);
            var d :| d in f.genericTags['d'] && forall t | t in f.genericTags['d'] :: t == d || LexLess(d, t);
            LexOrdered(f.genericTags['d']);
            return ByAddress(Coordinate(kind, author, d), f.since, f.until);
          }
        }
      }
      return ByScan(f);
    }

    function Visible(e: Event, since: Option<Timestamp>, until: Option<Timestamp>): bool
      reads this
    {
      e.id !in deletedIds && InWindow(since, until, e)
    }

    function QueryByAuthor(author: PublicKey, since: Option<Timestamp>, until: Option<Timestamp>): (r: set<Event>)
      requires AuthorsIndexed(events, byAuthor)
      reads this
      ensures forall e :: e in r <==> e in events && e.author == author && Visible(e, since, until)
    {
      assert Bucket(byAuthor, author) == OfAuthor(events, author);
      if author in byAuthor then set e | e in byAuthor[author] && Visible(e, since, until) else {}
    }

    function QueryByKindAndAuthor(k: KindAuthor, since: Option<Timestamp>, until: Option<Timestamp>): (r: set<Event>)
      requires KindAuthorsIndexed(events, byKindAuthor)
      reads this
      ensures forall e :: e in r <==>
                e in events && KindAuthor(e.kind, e.author) == k && Visible(e, since, until)
    {
      assert Bucket(byKindAuthor, k) == OfKindAuthor(events, k);
      if k in byKindAuthor then set e | e in byKindAuthor[k] && Visible(e, since, until) else {}
    }

    function QueryByAddress(a: Coordinate, since: Option<Timestamp>, until: Option<Timestamp>): (r: Option<Event>)
      requires AddressesIndexed(events, byAddress)
      reads this
      ensures r.Some? ==> r.value in events && HasAddress(r.value, a) && Visible(r.value, since, until)
      ensures r.None? ==> forall e :: e in events && HasAddress(e, a) ==> !Visible(e, since, until)
      ensures r.Some? ==> forall e :: e in events && HasAddress(e, a) ==> e == r.value
    {
      assert forall e :: Lookup(byAddress, a) == Some(e) <==> e in events && HasAddress(e, a);
      if !IsAddressable(a.kind) then None
      else match Lookup(byAddress, a)
        case None => None
        case Some(e) => if Visible(e, since, until) then Some(e) else None
    }

    /** Collects what an ascending iteration over `source` yields, up to the limit. */
    method Collect(source: set<Event>, limit: Option<nat>) returns (r: set<Event>)
      requires UniqueIds(source)
      ensures r == Take(source, limit)
    {
      hide FirstN, DownClosed, Before, StrictTotal;
      if limit.None? { return source; }
      EventsOrdered(source);
      var rest := source;
      r := {};
      NothingTaken(source);
      while rest != {} && |r| < limit.value
        invariant r <= source && rest == source - r
        invariant DownClosed(Before, source, r)
        invariant |r| <= limit.value
        decreases |rest|
      {
        LeastRemains(source, rest);
        var e :| e in rest && forall f | f in rest :: f == e || Before(e, f);
        LeastOfRest(Before, source, r, e);
        r, rest := r + {e}, rest - {e};
      }
      assert rest == {} ==> r == source;
      TakenAreFirst(Before, source, r, limit.value);
    }

    static lemma NothingTaken(source: set<Event>)
      ensures DownClosed(Before, source, {})
    {
    }

    static lemma LeastRemains(source: set<Event>, rest: set<Event>)
      requires StrictTotal(Before, source) && rest <= source && rest != {}
      ensures exists e :: e in rest && forall f :: f in rest ==> f == e || Before(e, f)
    {
      var least := LeastExists(Before, rest);
    }

    method InternalQuery(f: Filter) returns (r: set<Event>)
      requires Valid()
      ensures r == Query(f, events)
    {
      if f == EMPTY_FILTER { return events; }
      if EmptyWindow(f) { return {}; }
      var p := MakePlan(f);
      var found: set<Event>;
      match p {
        case ByAuthor(a, s, u) => found := QueryByAuthor(a, s, u);
        case ByKindAndAuthor(k, a, s, u) => found := QueryByKindAndAuthor(KindAuthor(k, a), s, u);
        case ByAddress(a, s, u) =>
          match QueryByAddress(a, s, u) {
            case Some(e) => found := {e};
            case None => found := {};
          }
        case ByScan(g) => found := set e | e in events && e.id !in deletedIds && Matches(g, e);
      }
      assert found == PlanResult(PlanOf(f), events);
      r := Collect(found, f.limit);
    }

    method Count(f: Filter) returns (n: nat)
      requires Valid()
      ensures n == |Query(f, events)|
    {
      var found := InternalQuery(f);
      n := |found|;
    }

    method EventById(id: EventId) returns (r: Option<Event>)
      requires Valid()
      ensures r.Some? ==> r.value in events && r.value.id == id
      ensures r.None? ==> forall e :: e in events ==> e.id != id
    {
      r := Lookup(ids, id);
      assert forall e :: r == Some(e) <==> e in events && e.id == id;
    }

    /** The ids and times of the unexpired events a query returns, newest first. */
    method NegentropyItems(f: Filter, now: Timestamp) returns (items: seq<(EventId, Timestamp)>)
      requires Valid()
      ensures forall i, j :: 0 <= i < j < |items| ==> EarlierItem(items[i], items[j])
      ensures forall e :: e in Query(f, events) && !ExpiredBefore(e, now) ==> (e.id, e.createdAt) in items
      ensures forall x :: x in items ==>
        exists e :: e in Query(f, events) && !ExpiredBefore(e, now) && x == (e.id, e.createdAt)
    {
      forall e
        ensures IsExpiredAt(e, now) <==> ExpiredBefore(e, now)
      {
        ExpiredMeans(e, now);
      }
      hide ExpiredBefore;
      hide IdsIndexed, AuthorsIndexed, KindAuthorsIndexed, AddressesIndexed, Query, IsExpiredAt;
      var found := InternalQuery(f);
      assert UniqueIds(found) by { QueryIsSubset(f, events); }
      var ordered := Ascending(found);
      items := ItemsOf(ordered, now);
      UnexpiredAre(ordered, now);
      UnexpiredOrdered(ordered, now);
      assert forall e :: e in ordered <==> e in found;
    }

    /** Ids and times of the unexpired events, in the given order. */
    static function Unexpired(ordered: seq<Event>, now: Timestamp): seq<(EventId, Timestamp)> {
      if ordered == [] then []
      else
        var last := ordered[|ordered| - 1];
        Unexpired(ordered[..|ordered| - 1], now) + if IsExpiredAt(last, now) then [] else [(last.id, last.createdAt)]
    }

    static predicate EarlierItem(x: (EventId, Timestamp), y: (EventId, Timestamp)) {
      x.1 > y.1 || (x.1 == y.1 && x.0 < y.0)
    }

    static lemma {:induction false} UnexpiredAre(ordered: seq<Event>, now: Timestamp)
      ensures forall e :: e in ordered && !IsExpiredAt(e, now) ==> (e.id, e.createdAt) in Unexpired(ordered, now)
      ensures forall x :: x in Unexpired(ordered, now) ==>
        exists e :: e in ordered && !IsExpiredAt(e, now) && x == (e.id, e.createdAt)
    {
      hide IsExpiredAt;
      if ordered != [] {
        var init, last := ordered[..|ordered| - 1], ordered[|ordered| - 1];
        UnexpiredAre(init, now);
        assert ordered == init + [last];
        forall x | x in Unexpired(ordered, now)
          ensures exists e :: e in ordered && !IsExpiredAt(e, now) && x == (e.id, e.createdAt)
        {
          if x in Unexpired(init, now) {
            var e :| e in init && !IsExpiredAt(e, now) && x == (e.id, e.createdAt);
            assert e in ordered;
          } else {
            assert last in ordered;
          }
        }
      }
    }

    static lemma {:induction false} UnexpiredOrdered(ordered: seq<Event>, now: Timestamp)
      requires forall i, j :: 0 <= i < j < |ordered| ==> Before(ordered[i], ordered[j])
      ensures forall i, j :: 0 <= i < j < |Unexpired(ordered, now)| ==>
        EarlierItem(Unexpired(ordered, now)[i], Unexpired(ordered, now)[j])
    {
      hide IsExpiredAt;
      if ordered != [] {
        var init, last := ordered[..|ordered| - 1], ordered[|ordered| - 1];
        UnexpiredOrdered(init, now);
        UnexpiredAre(init, now);
        var items := Unexpired(init, now);
        forall i | 0 <= i < |items|
          ensures EarlierItem(items[i], (last.id, last.createdAt))
        {
          assert items[i] in items;
          var e :| e in init && !IsExpiredAt(e, now) && items[i] == (e.id, e.createdAt);
          var k :| 0 <= k < |init| && init[k] == e;
          assert Before(ordered[k], last);
        }
      }
    }

    static method ItemsOf(ordered: seq<Event>, now: Timestamp) returns (items: seq<(EventId, Timestamp)>)
      ensures items == Unexpired(ordered, now)
    {
      items := [];
      for k := 0 to |ordered|
        invariant items == Unexpired(ordered[..k], now)
      {
        assert ordered[..k + 1][..k] == ordered[..k];
        if !IsExpiredAt(ordered[k], now) {
          items := items + [(ordered[k].id, ordered[k].createdAt)];
        }
      }
      assert ordered[..|ordered|] == ordered;
    }

    /** The elements in the order an ascending iteration visits them. */
    static method Ascending(s: set<Event>) returns (r: seq<Event>)
      requires UniqueIds(s)
      ensures forall e :: e in r <==> e in s
      ensures forall i, j :: 0 <= i < j < |r| ==> Before(r[i], r[j])
    {
      var rest := s;
      r := [];
      while rest != {}
        invariant rest <= s
        invariant forall e :: e in r <==> e in s - rest
        invariant forall i, j :: 0 <= i < j < |r| ==> Before(r[i], r[j])
        invariant forall i, e :: 0 <= i < |r| && e in rest ==> Before(r[i], e)
        decreases |rest|
      {
        EventsOrdered(rest);
        LeastRemains(rest, rest);
        var e :| e in rest && forall g | g in rest :: g == e || Before(e, g);
        rest := rest - {e};
        r := r + [e];
      }
    }

    // ---- removals ----

    /** Takes an event, already gone from `events`, out of every index. */
    method DiscardEvent(e: Event, ghost before: set<Event>)
      requires e in before && events == before - {e}
      requires IdsIndexed(before, ids) && AuthorsIndexed(before, byAuthor)
      requires KindAuthorsIndexed(before, byKindAuthor) && AddressesIndexed(before, byAddress)
      modifies this`ids, this`byAuthor, this`byKindAuthor, this`byAddress
      ensures Indexed()
    {
      hide IdsIndexed, AuthorsIndexed, KindAuthorsIndexed, AddressesIndexed;
      DropId(before, ids, e);
      ids := ids - {e.id};
      DropAuthor(before, byAuthor, e);
      byAuthor := DropFrom(byAuthor, e.author, e);
      DropAddress(before, byAddress, e);
      if IsAddressable(e.kind) {
        if Identifier(e).Some? {
          byAddress := byAddress - {KeyOf(e)};
        }
      }
      DropKindAuthor(before, byKindAuthor, e);
      byKindAuthor := DropFrom(byKindAuthor, KindAuthor(e.kind, e.author), e);
    }

    method DiscardId(id: EventId)
      requires Indexed()
      modifies this`events, this`ids, this`byAuthor, this`byKindAuthor, this`byAddress
      ensures Indexed()
      ensures events == set e | e in old(events) && e.id != id
    {
      ghost var before := events;
      assert forall e :: Lookup(ids, id) == Some(e) <==> e in before && e.id == id;
      hide IdsIndexed, AuthorsIndexed, KindAuthorsIndexed, AddressesIndexed;
      match Lookup(ids, id) {
        case Some(e) =>
          events := events - {e};
          DiscardEvent(e, before);
        case None =>
      }
    }

    method DiscardEvents(discard: set<EventId>)
      requires Indexed()
      modifies this`events, this`ids, this`byAuthor, this`byKindAuthor, this`byAddress
      ensures Indexed()
      ensures events == set e | e in old(events) && e.id !in discard
    {
      hide IdsIndexed, AuthorsIndexed, KindAuthorsIndexed, AddressesIndexed;
      var todo := discard;
      while todo != {}
        invariant todo <= discard
        invariant Indexed()
        invariant events <= old(events)
        invariant forall e :: e in old(events) ==> (e in events <==> e.id !in discard || e.id in todo)
      {
        var id :| id in todo;
        todo := todo - {id};
        DiscardId(id);
      }
    }

    method Clear()
      requires Valid()
      modifies this
      ensures Valid() && Contents() == EMPTY_STATE
    {
      events, ids, byAuthor, byKindAuthor, byAddress := {}, map[], map[], map[], map[];
      deletedIds, deletedAt, vanished := {}, map[], {};
    }

    method DeleteMatching(f: Filter)
      requires Valid()
      modifies this
      ensures Valid() && Contents() == MemorySpec.Delete(old(Contents()), f)
    {
      hide IdsIndexed, AuthorsIndexed, KindAuthorsIndexed, AddressesIndexed, Coherent, Query, UniqueIds;
      CoherentUnique(cfg, Contents());
      DeleteCoherent(cfg, Contents(), f);
      if f == EMPTY_FILTER {
        Clear();
      } else {
        var found := InternalQuery(f);
        assert Query(f, events) <= events by { QueryIsSubset(f, events); }
        ghost var stored := events;
        var discard := set e | e in found :: e.id;
        DiscardEvents(discard);
        ById(stored, found);
        assert events == stored - found;
      }
    }

    static lemma CoherentUnique(cfg: Config, st: State)
      requires Coherent(cfg, st)
      ensures UniqueIds(st.events)
    {
    }

    /** With unique ids, the events named by the ids of some are those. */
    static lemma ById(stored: set<Event>, found: set<Event>)
      requires UniqueIds(stored) && found <= stored
      ensures (set e | e in stored && e.id !in (set f | f in found :: f.id)) == stored - found
    {
    }

    // ---- deliveries ----

    /** The `e` tags of a deletion request, up to the first one that names somebody else's event. */
    method DeleteByIds(d: Event) returns (discard: set<EventId>, ok: bool)
      requires IdsIndexed(events, ids)
      modifies this`deletedIds
      ensures discard == CoveredIds(events, d)
      ensures deletedIds == old(deletedIds) + discard
      ensures ok <==> OwnIds(events, d.author, EventIds(d.tags)) == EventIds(d.tags)
    {
      hide IdsIndexed, CoveredIds, Hits;
      var rest := EventIds(d.tags);
      ghost var stored, done: seq<EventId> := events, [];
      discard, ok := {}, true;
      NoHits(ids, d.createdAt);
      while rest != []
        invariant ok && done + rest == EventIds(d.tags)
        invariant forall id :: id in done ==> !ForeignId(stored, d.author, id)
        invariant discard == Hits(ids, done, d.createdAt)
        invariant deletedIds == old(deletedIds) + discard
      {
        var id := rest[0];
        ForeignIsLookedUp(stored, ids, d.author, id);
        OneMoreHit(ids, done, id, d.createdAt);
        match Lookup(ids, id) {
          case Some(e) =>
            if e.author != d.author {
              ok := false;
              break;
            }
            if e.createdAt <= d.createdAt {
              discard := discard + {e.id};
              deletedIds := deletedIds + {e.id};
            }
          case None =>
        }
        done := done + [id];
        rest := rest[1..];
      }
      OwnIdsAre(stored, d.author, done, rest);
      HitsAreCovered(stored, ids, d, done);
    }

    /** The ids among `named` that are looked up to an event no newer than `t`. */
    static function Hits(ids: map<EventId, Event>, named: seq<EventId>, t: Timestamp): set<EventId> {
      set id | id in named && Lookup(ids, id).Some? && Lookup(ids, id).value.createdAt <= t
    }

    static lemma NoHits(ids: map<EventId, Event>, t: Timestamp)
      ensures Hits(ids, [], t) == {}
    {
    }

    static lemma OneMoreHit(ids: map<EventId, Event>, named: seq<EventId>, id: EventId, t: Timestamp)
      ensures Hits(ids, named + [id], t) ==
              Hits(ids, named, t) + if Lookup(ids, id).Some? && Lookup(ids, id).value.createdAt <= t then {id} else {}
    {
    }

    static lemma {:induction false} OwnIdsAre(events: set<Event>, author: PublicKey, done: seq<EventId>,
      rest: seq<EventId>)
      requires forall id :: id in done ==> !ForeignId(events, author, id)
      requires rest != [] ==> ForeignId(events, author, rest[0])
      ensures OwnIds(events, author, done + rest) == done
    {
      if done == [] {
        assert done + rest == rest;
      } else {
        assert (done + rest)[1..] == done[1..] + rest;
        OwnIdsAre(events, author, done[1..], rest);
      }
    }

    static lemma HitsAreCovered(events: set<Event>, ids: map<EventId, Event>, d: Event, own: seq<EventId>)
      requires IdsIndexed(events, ids)
      requires own == OwnIds(events, d.author, EventIds(d.tags))
      ensures Hits(ids, own, d.createdAt) == CoveredIds(events, d)
    {
      forall id | id in Hits(ids, own, d.createdAt)
        ensures id in CoveredIds(events, d)
      {
        var e := Lookup(ids, id).value;
        assert e in events && e.id == id && CoversById(events, d, e);
      }
      forall e | e in events && CoversById(events, d, e)
        ensures e.id in Hits(ids, own, d.createdAt)
      {
        assert Lookup(ids, e.id) == Some(e);
      }
    }

    static lemma ForeignIsLookedUp(events: set<Event>, ids: map<EventId, Event>, author: PublicKey, id: EventId)
      requires IdsIndexed(events, ids)
      ensures ForeignId(events, author, id) <==> Lookup(ids, id).Some? && Lookup(ids, id).value.author != author
      ensures Lookup(ids, id).Some? ==> Lookup(ids, id).value.id == id
    {
      assert forall e :: Lookup(ids, id) == Some(e) <==> e in events && e.id == id;
    }

    /** The `a` tags of a deletion request, up to the first one that names somebody else's coordinate. */
    method DeleteByCoordinates(d: Event, soFar: set<EventId>) returns (discard: set<EventId>, ok: bool)
      requires Indexed() && UniqueIds(events)
      requires forall f :: f in events && f.id in deletedIds ==> f.id in soFar
      modifies this`deletedAt
      ensures forall f :: f in events ==> (f.id in discard <==> f.id in soFar || CoversByCoordinate(d, f))
      ensures deletedAt == Raise(old(deletedAt), OwnCoordinates(d.author, Coordinates(d.tags)), d.createdAt)
      ensures ok <==> OwnCoordinates(d.author, Coordinates(d.tags)) == Coordinates(d.tags)
    {
      hide IdsIndexed, AuthorsIndexed, KindAuthorsIndexed, AddressesIndexed, Raise, Later, Reached, Targets;
      var rest := Coordinates(d.tags);
      ghost var done: seq<Coordinate> := [];
      discard, ok := soFar, true;
      NothingReached(events, d.createdAt);
      RaiseNothing(deletedAt, d.createdAt);
      while rest != []
        invariant ok && done + rest == Coordinates(d.tags)
        invariant forall c :: c in done ==> c.author == d.author
        invariant discard == soFar + Reached(events, done, d.createdAt, deletedIds)
        invariant deletedAt == Raise(old(deletedAt), done, d.createdAt)
      {
        var c := rest[0];
        if c.author != d.author {
          ok := false;
          break;
        }
        RaiseOneMore(old(deletedAt), done, c, d.createdAt);
        OneMoreReached(events, done, c, d.createdAt, deletedIds);
        MarkDeleted(c, d.createdAt);
        var reached := ReachedBy(c, d.createdAt);
        discard := discard + set f | f in reached :: f.id;
        done := done + [c];
        rest := rest[1..];
      }
      OwnCoordinatesAre(d.author, done, rest);
      ReachedAreCovered(events, d, done, soFar, deletedIds);
    }

    /** The ids of the stored events that some coordinate among `cs` reaches. */
    static function Reached(events: set<Event>, cs: seq<Coordinate>, t: Timestamp, but: set<EventId>): set<EventId> {
      set c, f | c in cs && f in events && Targets(c, f) && f.createdAt <= t && f.id !in but :: f.id
    }

    static lemma NothingReached(events: set<Event>, t: Timestamp)
      ensures forall but :: Reached(events, [], t, but) == {}
    {
    }

    static lemma RaiseNothing(m: map<Coordinate, Timestamp>, t: Timestamp)
      ensures Raise(m, [], t) == m
    {
    }

    static lemma OneMoreReached(events: set<Event>, cs: seq<Coordinate>, c: Coordinate, t: Timestamp, but: set<EventId>)
      ensures Reached(events, cs + [c], t, but) == Reached(events, cs, t, but) +
              set f | f in events && Targets(c, f) && f.createdAt <= t && f.id !in but :: f.id
    {
    }

    static lemma {:induction false} OwnCoordinatesAre(author: PublicKey, done: seq<Coordinate>, rest: seq<Coordinate>)
      requires forall c :: c in done ==> c.author == author
      requires rest != [] ==> rest[0].author != author
      ensures OwnCoordinates(author, done + rest) == done
    {
      if done == [] {
        assert done + rest == rest;
      } else {
        assert (done + rest)[1..] == done[1..] + rest;
        OwnCoordinatesAre(author, done[1..], rest);
      }
    }

    static lemma ReachedAreCovered(events: set<Event>, d: Event, own: seq<Coordinate>, soFar: set<EventId>,
      but: set<EventId>)
      requires UniqueIds(events)
      requires own == OwnCoordinates(d.author, Coordinates(d.tags))
      requires forall f :: f in events && f.id in but ==> f.id in soFar
      ensures forall f :: f in events ==>
        (f.id in soFar + Reached(events, own, d.createdAt, but) <==> f.id in soFar || CoversByCoordinate(d, f))
    {
    }

    method MarkDeleted(c: Coordinate, t: Timestamp)
      modifies this`deletedAt
      ensures deletedAt == old(deletedAt)[c := Later(old(deletedAt), c, t)]
    {
      if c in deletedAt {
        if t > deletedAt[c] {
          deletedAt := deletedAt[c := t];
        }
      } else {
        deletedAt := deletedAt[c := t];
      }
    }

    method ReachedBy(c: Coordinate, until: Timestamp) returns (reached: set<Event>)
      requires Indexed()
      ensures reached == set f | f in events && Targets(c, f) && f.createdAt <= until && f.id !in deletedIds
    {
      if c.identifier != "" {
        match QueryByAddress(c, None, Some(until)) {
          case Some(e) => reached := {e};
          case None => reached := {};
        }
      } else {
        reached := QueryByKindAndAuthor(KindAuthor(c.kind, c.author), None, Some(until));
      }
    }

    method HandleRequestToVanish(author: PublicKey)
      requires Valid()
      modifies this
      ensures Valid() && Contents() == AfterVanish(old(Contents()), author)
    {
      hide IdsIndexed, AuthorsIndexed, KindAuthorsIndexed, AddressesIndexed, Coherent, MemorySpec.Delete, AfterVanish;
      VanishInTwo(cfg, Contents(), author);
      vanished := vanished + {author};
      DeleteMatching(ByAuthorFilter(author));
      DeleteMatching(WrapsFilter(author));
    }

    static function ByAuthorFilter(author: PublicKey): Filter { EMPTY_FILTER.(authors := Some({author})) }

    static function WrapsFilter(author: PublicKey): Filter {
      EMPTY_FILTER.(kinds := Some({GIFT_WRAP}), genericTags := map['p' := {author}])
    }

    /** The two filtered deletions of a request to vanish, one after the other. */
    static lemma VanishInTwo(cfg: Config, st: State, author: PublicKey)
      requires Coherent(cfg, st)
      ensures var marked := st.(vanished := st.vanished + {author});
              && Coherent(cfg, marked)
              && MemorySpec.Delete(MemorySpec.Delete(marked, ByAuthorFilter(author)), WrapsFilter(author))
                 == AfterVanish(st, author)
    {
      hide Query, ByAuthorFilter, WrapsFilter, WrappedFor, SameAddress, Identifier;
      var left := set e | e in st.events && e.author != author;
      VanishFilters(author, st.events);
      assert MemorySpec.Delete(st.(vanished := st.vanished + {author}), ByAuthorFilter(author)).events == left;
      assert UniqueIds(left);
      VanishFilters(author, left);
      assert left - (set e | e in left && WrappedFor(e, author)) == AfterVanish(st, author).events;
    }

    static lemma VanishFilters(author: PublicKey, s: set<Event>)
      requires UniqueIds(s)
      ensures ByAuthorFilter(author) != EMPTY_FILTER
      ensures Query(ByAuthorFilter(author), s) == set e | e in s && e.author == author
      ensures WrapsFilter(author) != EMPTY_FILTER
      ensures Query(WrapsFilter(author), s) == set e | e in s && WrappedFor(e, author)
    {
      var authored := ByAuthorFilter(author);
      PlannerAgrees(authored, s);
      assert forall e :: Matches(authored, e) <==> e.author == author;
      var wraps := WrapsFilter(author);
      PlannerAgrees(wraps, s);
      forall e
        ensures Matches(wraps, e) <==> WrappedFor(e, author)
      {
        assert wraps.genericTags['p'] == {author};
        if TagsMatch(wraps, e) {
          assert 'p' in wraps.genericTags;
          var v :| v in wraps.genericTags['p'] && HasTag(e, 'p', v);
        }
        assert TagsMatch(wraps, e) <==> HasTag(e, 'p', author);
      }
    }

    /** Enters an event that nothing stored competes with into every index. */
    method AddToIndexes(e: Event, ghost before: set<Event>)
      requires IdsIndexed(before, ids) && AuthorsIndexed(before, byAuthor)
      requires KindAuthorsIndexed(before, byKindAuthor) && AddressesIndexed(before, byAddress)
      requires forall f :: f in before ==> f.id != e.id && !SameAddress(f, e)
      requires IsAddressable(e.kind) ==> Identifier(e).Some?
      modifies this`ids, this`byAuthor, this`byKindAuthor, this`byAddress
      ensures IdsIndexed(before + {e}, ids) && AuthorsIndexed(before + {e}, byAuthor)
      ensures KindAuthorsIndexed(before + {e}, byKindAuthor) && AddressesIndexed(before + {e}, byAddress)
    {
      hide IdsIndexed, AuthorsIndexed, KindAuthorsIndexed, AddressesIndexed;
      AddId(before, ids, e);
      ids := ids[e.id := e];
      AddAuthor(before, byAuthor, e);
      byAuthor := AddTo(byAuthor, e.author, e);
      AddAddress(before, byAddress, e);
      if IsAddressable(e.kind) {
        if Identifier(e).Some? {
          byAddress := byAddress[KeyOf(e) := e];
        }
      }
      if IsReplaceable(e.kind) {
        ReplaceKindAuthor(before, byKindAuthor, e);
        byKindAuthor := byKindAuthor[KindAuthor(e.kind, e.author) := {e}];
      } else {
        AddKindAuthor(before, byKindAuthor, e);
        byKindAuthor := AddTo(byKindAuthor, KindAuthor(e.kind, e.author), e);
      }
    }

    static lemma InsertFacts(cfg: Config, st: State, e: Event)
      requires Coherent(cfg, st) && Fits(st, e)
      ensures UniqueIds(st.events + {e}) && e !in st.events
      ensures forall f :: f in st.events ==> f.id != e.id && !SameAddress(f, e)
      ensures cfg.capacity.Some? ==> |st.events| <= cfg.capacity.value
      ensures IsAddressable(e.kind) ==> Identifier(e).Some?
      ensures Coherent(cfg, Admit(cfg, st, e))
    {
      AdmitCoherent(cfg, st, e);
    }

    /** Puts the event into the set and every index, and takes out what the capacity pushes out. */
    method InsertEvent(e: Event)
      requires Valid() && Fits(Contents(), e)
      modifies this`events, this`ids, this`byAuthor, this`byKindAuthor, this`byAddress
      ensures Valid() && Contents() == Admit(cfg, old(Contents()), e)
    {
      hide IdsIndexed, AuthorsIndexed, KindAuthorsIndexed, AddressesIndexed, Coherent, UniqueIds, Keep, Fits,
        SameAddress, Identifier;
      InsertFacts(cfg, Contents(), e);
      ghost var before := events;
      var inserted, pop;
      events, inserted, pop := CapInsert(events, cfg.capacity, e);
      Reindex(e, before, inserted, pop);
    }

    /** Brings the indexes from the set as it was to the set as it is after `CapInsert`. */
    method Reindex(e: Event, ghost before: set<Event>, inserted: bool, pop: Option<Event>)
      requires IdsIndexed(before, ids) && AuthorsIndexed(before, byAuthor)
      requires KindAuthorsIndexed(before, byKindAuthor) && AddressesIndexed(before, byAddress)
      requires forall f :: f in before ==> f.id != e.id && !SameAddress(f, e)
      requires IsAddressable(e.kind) ==> Identifier(e).Some?
      requires pop.Some? ==> inserted && pop.value in before && pop.value != e && events == before + {e} - {pop.value}
      requires pop.None? ==> events == if inserted then before + {e} else before
      modifies this`ids, this`byAuthor, this`byKindAuthor, this`byAddress
      ensures Indexed()
    {
      hide AuthorsIndexed, KindAuthorsIndexed, AddressesIndexed, IdsIndexed, UniqueIds, SameAddress, Identifier;
      if inserted {
        AddToIndexes(e, before);
      }
      if pop.Some? {
        DiscardEvent(pop.value, before + {e});
      }
    }

    /** The replacement rules: which stored event gives way, or why the newcomer is turned away. */
    method FindRivals(e: Event) returns (discard: set<EventId>, status: Status)
      requires Valid() && (IsReplaceable(e.kind) || IsAddressable(e.kind))
      requires !CoordinateDeleted(deletedAt, e)
      requires forall f :: f in events ==> f.id != e.id
      ensures IsAddressable(e.kind) && Identifier(e).None? <==> status == Rejected(Other)
      ensures status == Rejected(Replaced) <==> exists f :: f in Rivals(events, e) && !Before(e, f)
      ensures status == Success ==> discard == set f | f in Rivals(events, e) :: f.id
      ensures status != Success ==> discard == {} && (status == Rejected(Other) || status == Rejected(Replaced))
    {
      KindsDisjoint(e.kind);
      discard, status := {}, Success;
      if IsReplaceable(e.kind) {
        var rivals := QueryByKindAndAuthor(KindAuthor(e.kind, e.author), None, None);
        assert rivals == Rivals(events, e);
        var todo := rivals;
        while todo != {}
          invariant todo <= rivals
          invariant todo == rivals ==> discard == {} && status == Success
          invariant todo != rivals ==> todo == {}
          invariant todo != rivals && (exists f :: f in rivals && !Before(e, f))
                    ==> status == Rejected(Replaced) && discard == {}
          invariant todo != rivals && !(exists f :: f in rivals && !Before(e, f))
                    ==> status == Success && discard == set f | f in rivals :: f.id
        {
          var f :| f in todo;
          assert rivals == {f};
          todo := todo - {f};
          if HasBeenReplaced(f, e) || f.id == e.id {
            status := Rejected(Replaced);
          } else {
            discard := discard + {f.id};
          }
        }
      } else {
        match Identifier(e) {
          case None => status := Rejected(Other);
          case Some(identifier) =>
            var c := Coordinate(e.kind, e.author, identifier);
            if HasCoordinateBeenDeleted(c, e.createdAt) {
              status := Rejected(Deleted);
            } else {
              match QueryByAddress(c, None, None) {
                case None =>
                  assert Rivals(events, e) == {};
                case Some(f) =>
                  assert Rivals(events, e) == {f};
                  if HasBeenReplaced(f, e) || f.id == e.id {
                    status := Rejected(Replaced);
                  } else {
                    discard := {f.id};
                  }
              }
            }
        }
      }
    }

    function HasCoordinateBeenDeleted(c: Coordinate, t: Timestamp): bool
      reads this
    {
      c in deletedAt && deletedAt[c] >= t
    }

    /** One delivery: exactly what the specification says, indexes included. */
    method IndexEvent(e: Event, now: Timestamp) returns (status: Status)
      requires Valid()
      modifies this
      ensures Valid()
      ensures (Contents(), status) == Step(cfg, old(Contents()), e, now)
    {
      hide Coherent, AuthorsIndexed, KindAuthorsIndexed, AddressesIndexed;
      if IsEphemeral(e.kind) { return Rejected(Ephemeral); }
      assert forall f :: Lookup(ids, e.id) == Some(f) <==> f in events && f.id == e.id;
      if Lookup(ids, e.id).Some? { return Rejected(Duplicate); }
      if e.id in deletedIds { return Rejected(Deleted); }
      if e.author in vanished { return Rejected(Vanished); }
      if CoordinateDeleted(deletedAt, e) { return Rejected(Deleted); }
      if IsExpiredAt(e, now) { return Rejected(Expired); }
      ghost var st := Contents();
      assert Refusal(st, e, now).None?;
      status := MakeRoom(e, now);
      if status == Success {
        InsertEvent(e);
      }
    }

    /** What the arrival of an event removes, before the event itself goes in. */
    method MakeRoom(e: Event, ghost now: Timestamp) returns (status: Status)
      requires Valid() && Refusal(Contents(), e, now).None?
      modifies this
      ensures Valid()
      ensures status == Step(cfg, old(Contents()), e, now).1
      ensures status == Success || status == Rejected(InvalidDelete) ==>
        Contents() == Cleared(cfg, old(Contents()), e)
      ensures status == Success ==> Fits(Contents(), e)
      ensures status != Success && status != Rejected(InvalidDelete) ==> Contents() == old(Contents())
    {
      hide IdsIndexed, AuthorsIndexed, KindAuthorsIndexed, AddressesIndexed, Coherent, Fits, Identifier, Refusal;
      ghost var st := Contents();
      KindsDisjoint(e.kind);
      if IsReplaceable(e.kind) || IsAddressable(e.kind) {
        status := ApplyReplacement(e, now);
      } else {
        ClearedFits(cfg, st, e, now);
        assert Rivals(st.events, e) == {};
        if IsDeletion(cfg, e) {
          status := ApplyDeletion(e);
        } else {
          if IsVanish(cfg, e) {
            HandleRequestToVanish(e.author);
          }
          status := Success;
        }
      }
    }

    method ApplyReplacement(e: Event, ghost now: Timestamp) returns (status: Status)
      requires Valid() && Refusal(Contents(), e, now).None?
      requires IsReplaceable(e.kind) || IsAddressable(e.kind)
      modifies this
      ensures Valid()
      ensures status == Step(cfg, old(Contents()), e, now).1 && status != Rejected(InvalidDelete)
      ensures status == Success ==> Contents() == Cleared(cfg, old(Contents()), e) && Fits(Contents(), e)
      ensures status != Success ==> Contents() == old(Contents())
    {
      hide IdsIndexed, AuthorsIndexed, KindAuthorsIndexed, AddressesIndexed, Coherent, UniqueIds, Fits, Identifier;
      hide Refusal, IsReplaceable, IsAddressable, SameAddress, Step, Rivals, CoordinateDeleted;
      ghost var st := Contents();
      NotRefused(cfg, st, e, now);
      var discard;
      discard, status := FindRivals(e);
      ReplacementStatus(cfg, st, e, now, status);
      DiscardEvents(discard);
      if status == Success {
        RivalsById(st.events, e, discard);
      } else {
        assert events == st.events;
      }
    }

    static lemma NotRefused(cfg: Config, st: State, e: Event, now: Timestamp)
      requires Coherent(cfg, st) && Refusal(st, e, now).None?
      ensures !CoordinateDeleted(st.deletedAt, e) && UniqueIds(st.events)
      ensures forall f :: f in st.events ==> f.id != e.id
    {
    }

    static lemma ReplacementStatus(cfg: Config, st: State, e: Event, now: Timestamp, status: Status)
      requires Coherent(cfg, st) && Refusal(st, e, now).None?
      requires IsReplaceable(e.kind) || IsAddressable(e.kind)
      requires IsAddressable(e.kind) && Identifier(e).None? <==> status == Rejected(Other)
      requires status == Rejected(Replaced) <==> exists f :: f in Rivals(st.events, e) && !Before(e, f)
      requires status == Success || status == Rejected(Other) || status == Rejected(Replaced)
      ensures status == Step(cfg, st, e, now).1
      ensures status == Success ==> Coherent(cfg, Cleared(cfg, st, e)) && Fits(Cleared(cfg, st, e), e)
    {
      KindsDisjoint(e.kind);
      if status == Success {
        ClearedFits(cfg, st, e, now);
      }
    }

    static lemma RivalsById(events: set<Event>, e: Event, discard: set<EventId>)
      requires UniqueIds(events) && discard == set f | f in Rivals(events, e) :: f.id
      requires IsReplaceable(e.kind) || IsAddressable(e.kind)
      ensures forall cfg: Config, st: State :: st.events == events ==>
        Cleared(cfg, st, e) == st.(events := set f | f in events && f.id !in discard)
    {
    }

    method ApplyDeletion(d: Event) returns (status: Status)
      requires Valid()
      modifies this`deletedIds, this`deletedAt
      modifies this`events, this`ids, this`byAuthor, this`byKindAuthor, this`byAddress
      ensures Indexed() && Contents() == AfterDeletion(old(Contents()), d)
      ensures status == if Overreaches(old(events), d) then Rejected(InvalidDelete) else Success
    {
      ghost var stored := events;
      var byId, ownIds := DeleteByIds(d);
      var discard, ownCoordinates := DeleteByCoordinates(d, byId);
      status := if !ownIds || !ownCoordinates then Rejected(InvalidDelete) else Success;
      forall f | f in stored
        ensures f.id in byId <==> CoversById(stored, d, f)
      {
        if f.id in byId {
          var g :| g in stored && CoversById(stored, d, g) && g.id == f.id;
        }
      }
      DiscardEvents(discard);
      assert events == AfterDeletion(old(Contents()), d).events;
    }

    static lemma QueryIsSubset(f: Filter, s: set<Event>)
      ensures Query(f, s) <= s
    {
    }
  }
}
