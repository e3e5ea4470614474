/** Queries under a limit: which events a newest-first listing keeps when times tie at the cut. */
module SqlLimit {
  import opened Wrappers
  import opened Order
  import opened Events
  import opened Filters
  import opened SqlFilter

  const EVENTS_QUERY_LIMIT: nat := 10_000

  /** The store's own limit for a filter that has none. */
  function WithLimit(f: Filter, limit: nat): Filter {
    if f.limit.Some? then f else f.(limit := Some(limit))
  }

  function ElementsOf(rows: seq<Event>): set<Event> { set e | e in rows }

  /** The rows up to the limit. */
  function Cut(all: seq<Event>, limit: Option<nat>): seq<Event> {
    if limit.Some? && limit.value < |all| then all[..limit.value] else all
  }

  /** However the rows are listed newest first, the cut keeps just the wanted ones. */
  ghost predicate EveryCutIs(s: set<Event>, limit: Option<nat>, wanted: set<Event>) {
    forall all :: NewestFirst(all) && ElementsOf(all) == s ==> ElementsOf(Cut(all, limit)) == wanted
  }

  /** A query may return the cuts of its rows, listed by time in any way, and nothing else. */
  lemma ReturnsCuts(events: set<Event>, tags: set<TagRow>, q: Query, wanted: set<Event>)
    requires q.verb == Select || q.verb == Negentropy
    ensures (forall result :: MayReturn(events, tags, q, result) ==> ElementsOf(result) == wanted)
            <==> EveryCutIs(Rows(events, tags, q), Limit(q), wanted)
  {
    hide NewestFirst, Rows, Limit;
    forall all | NewestFirst(all) && ElementsOf(all) == Rows(events, tags, q)
      ensures MayReturn(events, tags, q, Cut(all, Limit(q)))
    {
    }
  }

  /** Every chosen event is newer than every one left out. */
  ghost predicate NewerThanRest(chosen: set<Event>, s: set<Event>) {
    forall e, o :: e in chosen && o in s && o !in chosen ==> e.createdAt > o.createdAt
  }

  ghost predicate NoTieAtCut(s: set<Event>, n: nat) { NewerThanRest(FirstN(Before, s, n), s) }

  /** How many of the rows a limit lets through. */
  function SizeUnder(limit: Option<nat>, size: nat): nat { if limit.Some? then Min(limit.value, size) else size }

  /** The wanted events fill the limit, and are newer than the rest of the rows. */
  ghost predicate Leads(wanted: set<Event>, s: set<Event>, limit: Option<nat>) {
    wanted <= s && |wanted| == SizeUnder(limit, |s|) && NewerThanRest(wanted, s)
  }

  lemma CutSize(all: seq<Event>, limit: Option<nat>)
    requires NewestFirst(all)
    ensures |ElementsOf(Cut(all, limit))| == SizeUnder(limit, |ElementsOf(all)|)
    ensures ElementsOf(Cut(all, limit)) <= ElementsOf(all)
  {
    NewestFirstSize(all);
    NewestFirstSize(Cut(all, limit));
  }

  /** What is cut off is no newer than what is kept. */
  lemma CutOff(all: seq<Event>, limit: Option<nat>)
    requires NewestFirst(all)
    ensures var kept := ElementsOf(Cut(all, limit));
            forall x, y :: x in kept && y in ElementsOf(all) && y !in kept ==> x.createdAt >= y.createdAt
  {
  }

  /** Of two selections of one size, neither leaving out anything as new as what it keeps, one is the other. */
  lemma SameSelection(s: set<Event>, a: set<Event>, b: set<Event>)
    requires a <= s && b <= s && |a| == |b|
    requires NewerThanRest(a, s)
    requires forall x, y :: x in b && y in s && y !in b ==> x.createdAt >= y.createdAt
    ensures a == b
  {
    assert forall x, y :: x in a && x !in b && y in b ==> y in a;
    if a <= b {
      SubsetCard(a, b);
    } else {
      SubsetCard(b, a);
    }
  }

  /** A selection of `n` that leaves out nothing newer comes first in some listing. */
  lemma ListedInFront(s: set<Event>, front: set<Event>, limit: Option<nat>) returns (all: seq<Event>)
    requires UniqueIds(s) && front <= s && |front| == SizeUnder(limit, |s|)
    requires forall x, y :: x in front && y in s - front ==> x.createdAt >= y.createdAt
    ensures NewestFirst(all) && ElementsOf(all) == s && ElementsOf(Cut(all, limit)) == front
  {
    var a := SomeOrderExists(front);
    var b := SomeOrderExists(s - front);
    hide NewestFirst;
    NewestFirstSize(a);
    NewestFirstSize(b);
    assert ElementsOf(a) == front && ElementsOf(b) == s - front;
    NewestFirstConcat(a, b);
    all := a + b;
    assert ElementsOf(all) == s;
    assert |s| == |front| + |s - front|;
    assert Cut(all, limit) == a;
  }

  lemma NewestFirstConcat(a: seq<Event>, b: seq<Event>)
    requires NewestFirst(a) && NewestFirst(b)
    requires forall x, y :: x in a && y in b ==> x != y && x.createdAt >= y.createdAt
    ensures NewestFirst(a + b)
  {
    forall i, j | 0 <= i < j < |a + b|
      ensures (a + b)[i] != (a + b)[j] && (a + b)[i].createdAt >= (a + b)[j].createdAt
    {
      if i < |a| <= j {
        assert (a + b)[i] in a && (a + b)[j] in b;
      }
    }
  }

  /** Swapping a tied pair keeps the newer part in front. */
  lemma SwappedAlike(s: set<Event>, front: set<Event>, e: Event, o: Event)
    requires front <= s && forall x, y :: x in front && y in s && y !in front ==> x.createdAt >= y.createdAt
    requires e in front && o in s && o !in front && e.createdAt <= o.createdAt
    ensures |front - {e} + {o}| == |front|
    ensures forall x, y :: x in front - {e} + {o} && y in s - (front - {e} + {o}) ==> x.createdAt >= y.createdAt
  {
    assert e.createdAt == o.createdAt;
  }

  lemma LeadingIsCut(s: set<Event>, limit: Option<nat>, wanted: set<Event>, all: seq<Event>)
    requires Leads(wanted, s, limit) && NewestFirst(all) && ElementsOf(all) == s
    ensures ElementsOf(Cut(all, limit)) == wanted
  {
    hide NewestFirst, NewerThanRest;
    CutSize(all, limit);
    CutOff(all, limit);
    SameSelection(s, wanted, ElementsOf(Cut(all, limit)));
  }

  /** If no listing cuts to anything else, the wanted events are newer than the rest. */
  lemma CutIsNewer(s: set<Event>, limit: Option<nat>, wanted: set<Event>)
    requires UniqueIds(s) && EveryCutIs(s, limit, wanted) && wanted <= s && |wanted| == SizeUnder(limit, |s|)
    requires forall x, y :: x in wanted && y in s && y !in wanted ==> x.createdAt >= y.createdAt
    ensures NewerThanRest(wanted, s)
  {
    hide NewestFirst, ElementsOf, Cut, UniqueIds;
    forall e, o | e in wanted && o in s && o !in wanted
      ensures e.createdAt > o.createdAt
    {
      if e.createdAt <= o.createdAt {
        SwappedAlike(s, wanted, e, o);
        var all := ListedInFront(s, wanted - {e} + {o}, limit);
        assert false;
      }
    }
  }

  /** Every listing by time is cut to the wanted events if and only if they fill the limit and no tie is cut. */
  lemma EveryCutIsIff(s: set<Event>, limit: Option<nat>, wanted: set<Event>)
    requires UniqueIds(s)
    ensures EveryCutIs(s, limit, wanted) <==> Leads(wanted, s, limit)
  {
    var some := SomeOrderExists(s);
    assert ElementsOf(some) == s;
    hide NewestFirst, ElementsOf, Cut, UniqueIds, NewerThanRest;
    if EveryCutIs(s, limit, wanted) {
      CutSize(some, limit);
      CutOff(some, limit);
      CutIsNewer(s, limit, wanted);
    }
    if Leads(wanted, s, limit) {
      forall all | NewestFirst(all) && ElementsOf(all) == s
        ensures ElementsOf(Cut(all, limit)) == wanted
      {
        LeadingIsCut(s, limit, wanted, all);
      }
    }
  }

  /** Every listing by time, cut after `n`, gives the first `n` if and only if no tie straddles the cut. */
  lemma CutsAgreeIff(s: set<Event>, n: nat)
    requires UniqueIds(s)
    ensures EveryCutIs(s, Some(n), FirstN(Before, s, n)) <==> NoTieAtCut(s, n)
  {
    EventsOrdered(s);
    FirstNSize(Before, s, n);
    EveryCutIsIff(s, Some(n), FirstN(Before, s, n));
    assert FirstN(Before, s, n) <= s;
    hide EveryCutIs, NewerThanRest, FirstN;
  }

  /** A limit at or past the signed range is no limit to the table. */
  function LimitOf(f: Filter): Option<nat> {
    if f.limit.Some? && f.limit.value < I64_LIMIT then f.limit else None
  }

  lemma TakeSize(s: set<Event>, limit: Option<nat>)
    requires UniqueIds(s)
    ensures Take(s, limit) <= s && |Take(s, limit)| == SizeUnder(limit, |s|)
    ensures Take(s, limit) == s <==> limit.None? || |s| <= limit.value
  {
    EventsOrdered(s);
    if limit.Some? {
      FirstNSize(Before, s, limit.value);
      SubsetCard(Take(s, limit), s);
    }
  }

  /**
    Cut at the limit the store sets, every listing of the matches gives what the filter's own
    limit asks for just when nothing is cut off, or the limit is the filter's and fits, and no
    time is on both sides of the cut.
  */
  lemma LimitedAnswersIff(s: set<Event>, f: Filter)
    requires UniqueIds(s)
    ensures var g := WithLimit(f, EVENTS_QUERY_LIMIT); var n := g.limit.value;
            EveryCutIs(s, LimitOf(g), Take(s, f.limit))
            <==> |s| <= n || (f.limit.Some? && n < I64_LIMIT && NoTieAtCut(s, n))
  {
    var g := WithLimit(f, EVENTS_QUERY_LIMIT);
    EveryCutIsIff(s, LimitOf(g), Take(s, f.limit));
    TakeSize(s, f.limit);
    hide EveryCutIs, FirstN;
  }

  /**
    With rows among them that the filter does not match, the matches asked for have to fill the
    limit and to be newer than all the other rows.
  */
  lemma LimitedAnswersAmongIff(matches: set<Event>, others: set<Event>, f: Filter)
    requires UniqueIds(matches + others) && matches !! others && others != {}
    ensures var g := WithLimit(f, EVENTS_QUERY_LIMIT); var n := g.limit.value;
            EveryCutIs(matches + others, LimitOf(g), Take(matches, f.limit))
            <==> && n <= |matches| && n < I64_LIMIT && (f.limit.None? ==> |matches| == n)
                 && NewerThanRest(Take(matches, f.limit), matches + others)
  {
    var g := WithLimit(f, EVENTS_QUERY_LIMIT);
    EveryCutIsIff(matches + others, LimitOf(g), Take(matches, f.limit));
    TakeSize(matches, f.limit);
    hide EveryCutIs, FirstN, NewerThanRest;
    assert |matches + others| == |matches| + |others|;
  }
}
