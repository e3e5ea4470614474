/**
  The query planner of the in-memory store: which index answers a filter, and what
  the plan returns. The answers are stated on the set of stored events alone.
*/
module MemoryQuery {
  import opened Wrappers
  import opened Order
  import opened Events
  import opened Filters

  lemma LeastTextExists(s: set<string>)
    requires s != {}
    ensures exists t :: IsLeast(LexLess, s, t)
  {
    LexOrdered(s);
    var t := LeastExists(LexLess, s);
  }

  ghost function LeastText(s: set<string>): (t: string)
    requires s != {}
    ensures IsLeast(LexLess, s, t)
  {
    LeastTextExists(s);
    var t :| IsLeast(LexLess, s, t);
    t
  }

  // ---- plans ----

  datatype Plan =
    | ByAuthor(author: PublicKey, since: Option<Timestamp>, until: Option<Timestamp>)
    | ByKindAndAuthor(kind: Kind, author: PublicKey, since: Option<Timestamp>, until: Option<Timestamp>)
    | ByAddress(address: Coordinate, since: Option<Timestamp>, until: Option<Timestamp>)
    | ByScan(filter: Filter)

  predicate Unconstrained<T>(choices: Option<set<T>>) { choices.None? || |choices.value| == 0 }

  predicate Single<T>(choices: Option<set<T>>) { choices.Some? && |choices.value| == 1 }

  ghost function Only<T>(choices: Option<set<T>>): (x: T)
    requires Single(choices)
    ensures choices == Some({x})
  {
    var x :| x in choices.value;
    assert choices.value == {x} by {
      SubsetCard({x}, choices.value);
    }
    x
  }

  /** The filter names at least one value of the `d` tag. */
  predicate NamesIdentifier(f: Filter) {
    'd' in f.genericTags && f.genericTags['d'] != {}
  }

  ghost function PlanOf(f: Filter): Plan {
    if !Single(f.authors) || !Unconstrained(f.ids) || f.search.Some? then ByScan(f)
    else if Unconstrained(f.kinds) && f.genericTags == map[] then
      ByAuthor(Only(f.authors), f.since, f.until)
    else if Single(f.kinds) && f.genericTags == map[] then
      ByKindAndAuthor(Only(f.kinds), Only(f.authors), f.since, f.until)
    else if Single(f.kinds) && NamesIdentifier(f) && IsAddressable(Only(f.kinds)) then
      ByAddress(Coordinate(Only(f.kinds), Only(f.authors), LeastText(f.genericTags['d'])), f.since, f.until)
    else ByScan(f)
  }

  /** The event's key in the address index. */
  predicate HasAddress(e: Event, a: Coordinate) {
    IsAddressable(e.kind) && e.kind == a.kind && e.author == a.author && Identifier(e) == Some(a.identifier)
  }

  ghost function PlanResult(p: Plan, events: set<Event>): set<Event> {
    match p
    case ByAuthor(a, s, u) => set e | e in events && e.author == a && InWindow(s, u, e)
    case ByKindAndAuthor(k, a, s, u) => set e | e in events && e.kind == k && e.author == a && InWindow(s, u, e)
    case ByAddress(a, s, u) => set e | e in events && HasAddress(e, a) && InWindow(s, u, e)
    case ByScan(f) => Matching(f, events)
  }

  predicate EmptyWindow(f: Filter) { f.since.Some? && f.until.Some? && f.since.value > f.until.value }

  ghost function Query(f: Filter, events: set<Event>): set<Event> {
    if f == EMPTY_FILTER then events
    else if EmptyWindow(f) then {}
    else Take(PlanResult(PlanOf(f), events), f.limit)
  }

  // ---- the planner against the plain scan ----

  /** Every `d` tag of the event that has a value has the value of the first one. */
  predicate OneIdentifier(e: Event) {
    forall t | t in e.tags && t.name == "d" && t.content.Some? :: t.content == Identifier(e)
  }

  ghost predicate OneIdentifierEach(events: set<Event>) {
    forall e :: e in events && IsAddressable(e.kind) ==> OneIdentifier(e)
  }

  /** The generic tags of the filter are exactly one value of the `d` tag. */
  predicate ExactlyOneIdentifier(f: Filter) {
    f.genericTags.Keys == {'d'} && |f.genericTags['d']| == 1
  }

  lemma AddressMatchesTag(f: Filter, e: Event)
    requires ExactlyOneIdentifier(f) && OneIdentifier(e)
    ensures TagsMatch(f, e) <==> Identifier(e) == Some(LeastText(f.genericTags['d']))
  {
    var v := LeastText(f.genericTags['d']);
    SubsetCard({v}, f.genericTags['d']);
    assert f.genericTags['d'] == {v};
    assert ['d'] == "d";
    assert HasTag(e, 'd', v) <==> Identifier(e) == Some(v);
  }

  /** Whichever index is chosen, the planner returns what the plain scan returns. */
  lemma PlannerAgrees(f: Filter, events: set<Event>)
    requires UniqueIds(events)
    requires PlanOf(f).ByAddress? ==> ExactlyOneIdentifier(f) && OneIdentifierEach(events)
    ensures Query(f, events) == Scan(f, events)
  {
    if f == EMPTY_FILTER {
      assert Matching(f, events) == events;
    } else if EmptyWindow(f) {
      assert Matching(f, events) == {};
      EventsOrdered({});
      assert Take({}, f.limit) == {};
    } else {
      forall e | e in events
        ensures e in PlanResult(PlanOf(f), events) <==> Matches(f, e)
      {
        if PlanOf(f).ByAddress? && IsAddressable(e.kind) {
          AddressMatchesTag(f, e);
        }
      }
      assert PlanResult(PlanOf(f), events) == Matching(f, events);
    }
  }

  function Tagged(k: Kind, a: PublicKey, t: Timestamp, identifier: string): Event {
    Event(0, a, t, k, [Tag("d", Some(identifier), Unread)], "")
  }

  /** An instant the filter admits. */
  function Instant(f: Filter): (t: Timestamp)
    requires !EmptyWindow(f)
    ensures (f.since.Some? ==> f.since.value <= t) && (f.until.Some? ==> t <= f.until.value)
  {
    if f.since.Some? then f.since.value else if f.until.Some? then f.until.value else 0
  }

  lemma SingletonTake(e: Event, limit: Option<nat>)
    requires limit != Some(0)
    ensures Take({e}, limit) == {e}
    ensures Take({}, limit) == {}
  {
    EventsOrdered({e});
    EventsOrdered({});
    if limit.Some? {
      FirstNAll(Before, {e}, limit.value);
      FirstNAll(Before, {}, limit.value);
    }
  }

  /** A store on which the address plan and the plain scan disagree. */
  ghost function Disagreement(f: Filter): Event
    requires PlanOf(f).ByAddress? && !EmptyWindow(f)
  {
    var a := PlanOf(f).address;
    if f.genericTags.Keys != {'d'} then Tagged(a.kind, a.author, Instant(f), a.identifier)
    else if exists v :: v in f.genericTags['d'] && v != a.identifier then
      var v :| v in f.genericTags['d'] && v != a.identifier;
      Tagged(a.kind, a.author, Instant(f), v)
    else Tagged(a.kind, a.author, Instant(f), a.identifier)
  }

  lemma AddressPlanDisagrees(f: Filter)
    requires PlanOf(f).ByAddress? && !EmptyWindow(f) && f.limit != Some(0) && !ExactlyOneIdentifier(f)
    ensures OneIdentifier(Disagreement(f))
    ensures Query(f, {Disagreement(f)}) != Scan(f, {Disagreement(f)})
  {
    var e := Disagreement(f);
    var a := PlanOf(f).address;
    SingletonTake(e, f.limit);
    assert e.tags[0].name == "d" && FindTag(e.tags, "d") == Some(e.tags[0]);
    if f.genericTags.Keys != {'d'} {
      var c :| c in f.genericTags && c != 'd';
      assert forall v :: !HasTag(e, c, v) by {
        assert [c][0] != "d"[0];
      }
      assert !TagsMatch(f, e);
      assert PlanResult(PlanOf(f), {e}) == {e};
      assert Matching(f, {e}) == {};
    } else {
      assert |f.genericTags['d'] - {a.identifier}| == |f.genericTags['d']| - 1;
      var w :| w in f.genericTags['d'] - {a.identifier};
      var v := e.tags[0].content.value;
      assert v in f.genericTags['d'] && v != a.identifier;
      assert ['d'] == "d";
      assert HasTag(e, 'd', v);
      assert Matches(f, e);
      assert PlanResult(PlanOf(f), {e}) == {};
      assert Matching(f, {e}) == {e};
    }
  }

  /**
    The address plan looks at one `d` value and no other tag. So it agrees with the
    plain scan on every store of events with one identifier exactly when that one
    value is all the filter's tags ask for.
  */
  lemma AddressPlanAgreesIff(f: Filter)
    requires PlanOf(f).ByAddress? && !EmptyWindow(f) && f.limit != Some(0)
    ensures (forall events: set<Event> | UniqueIds(events) && OneIdentifierEach(events) ::
               Query(f, events) == Scan(f, events))
            <==> ExactlyOneIdentifier(f)
  {
    if ExactlyOneIdentifier(f) {
      forall events: set<Event> | UniqueIds(events) && OneIdentifierEach(events)
        ensures Query(f, events) == Scan(f, events)
      {
        PlannerAgrees(f, events);
      }
    } else {
      AddressPlanDisagrees(f);
      var s := {Disagreement(f)};
      assert UniqueIds(s) && OneIdentifierEach(s);
    }
  }

  /** The filter that asks for an event's author and kind and for one value of the `d` tag. */
  function AddressFilter(e: Event, v: string): Filter {
    EMPTY_FILTER.(authors := Some({e.author}), kinds := Some({e.kind}), genericTags := map['d' := {v}])
  }

  lemma AddressFilterPlan(e: Event, v: string)
    requires IsAddressable(e.kind)
    ensures var f := AddressFilter(e, v);
            PlanOf(f) == ByAddress(Coordinate(e.kind, e.author, v), None, None) && ExactlyOneIdentifier(f)
  {
    var f := AddressFilter(e, v);
    assert Only(f.authors) in {e.author} && Only(f.kinds) in {e.kind};
    assert 'd' in f.genericTags && f.genericTags['d'] == {v} && LeastText({v}) in {v};
    assert v in f.genericTags['d'];
  }

  /** A value of the `d` tag that is not the first one matches the event and does not find it. */
  lemma OtherIdentifierIsMissed(e: Event, v: string)
    requires IsAddressable(e.kind) && HasTag(e, 'd', v) && Identifier(e) != Some(v)
    ensures Scan(AddressFilter(e, v), {e}) == {e} && Query(AddressFilter(e, v), {e}) == {}
  {
    var f := AddressFilter(e, v);
    AddressFilterPlan(e, v);
    assert Matches(f, e);
    assert Matching(f, {e}) == {e};
    assert PlanResult(PlanOf(f), {e}) == {};
  }

  /**
    The index is keyed by the first `d` tag. So an event is answered as the plain scan
    answers it, whatever address is asked for, exactly when no later `d` tag has
    another value.
  */
  lemma IndexAgreesIff(e: Event)
    requires IsAddressable(e.kind)
    ensures (forall f | PlanOf(f).ByAddress? && ExactlyOneIdentifier(f) :: Query(f, {e}) == Scan(f, {e}))
            <==> OneIdentifier(e)
  {
    if OneIdentifier(e) {
      forall f | PlanOf(f).ByAddress? && ExactlyOneIdentifier(f)
        ensures Query(f, {e}) == Scan(f, {e})
      {
        PlannerAgrees(f, {e});
      }
    } else {
      var t :| t in e.tags && t.name == "d" && t.content.Some? && t.content != Identifier(e);
      var v := t.content.value;
      assert ['d'] == "d";
      assert HasTag(e, 'd', v);
      OtherIdentifierIsMissed(e, v);
      AddressFilterPlan(e, v);
    }
  }

  /** With a second `d` tag the index, keyed by the first one, misses a matching event. */
  lemma SecondIdentifierIsMissed(f: Filter, first: string)
    requires PlanOf(f).ByAddress? && ExactlyOneIdentifier(f) && !EmptyWindow(f) && f.limit != Some(0)
    requires first != PlanOf(f).address.identifier
    ensures exists e :: Scan(f, {e}) == {e} && Query(f, {e}) == {}
  {
    var a := PlanOf(f).address;
    var e := Event(0, a.author, Instant(f), a.kind,
                   [Tag("d", Some(first), Unread), Tag("d", Some(a.identifier), Unread)], "");
    assert FindTag(e.tags, "d") == Some(e.tags[0]);
    assert e.tags[1] in e.tags && ['d'] == "d";
    assert HasTag(e, 'd', a.identifier);
    assert f.genericTags['d'] == {a.identifier} by {
      SubsetCard({a.identifier}, f.genericTags['d']);
    }
    assert Matches(f, e);
    assert Matching(f, {e}) == {e};
    assert PlanResult(PlanOf(f), {e}) == {};
    SingletonTake(e, f.limit);
    assert Scan(f, {e}) == {e} && Query(f, {e}) == {};
  }
}
