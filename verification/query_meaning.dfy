/**
  What both stores find, spelled out on the fields of filter and event: characters,
  numbers and tags, none of the predicates the stores are built from.
*/
module QueryMeaning {
  import opened Wrappers
  import opened Order
  import opened Events
  import opened Filters
  import opened MemoryQuery
  import opened SqlFilter

  // ---- texts ----

  /** The same character, or the two cases of one ASCII letter. */
  predicate SameLetter(a: char, b: char) {
    || a == b
    || ('A' <= a <= 'Z' && b as int == a as int + 32)
    || ('A' <= b <= 'Z' && a as int == b as int + 32)
  }

  ghost predicate SpelledAlike(m: string, q: string) {
    |m| == |q| && forall j :: 0 <= j < |q| ==> SameLetter(m[j], q[j])
  }

  /** The text is something, then `q` up to the case of letters, then something. */
  ghost predicate HasInside(text: string, q: string) {
    exists a, m, b :: text == a + m + b && SpelledAlike(m, q)
  }

  lemma LettersAlike(a: char, b: char)
    ensures ToLower(a) == ToLower(b) <==> SameLetter(a, b)
  {
  }

  lemma OccursMeans(text: string, q: string, i: nat)
    requires i + |q| <= |text|
    ensures OccursAt(q, text, i) <==> SpelledAlike(text[i..i + |q|], q)
  {
    hide ToLower, SameLetter;
    forall j | 0 <= j < |q|
      ensures ToLower(text[i + j]) == ToLower(q[j]) <==> SameLetter(text[i..i + |q|][j], q[j])
    {
      LettersAlike(text[i + j], q[j]);
    }
  }

  /** A text is found anywhere in another, whatever the case of its letters. */
  lemma ContainsMeans(text: string, q: string)
    ensures Contains(text, q) <==> HasInside(text, q)
  {
    hide OccursAt, SpelledAlike;
    if Contains(text, q) {
      var i :| 0 <= i <= |text| - |q| && OccursAt(q, text, i);
      OccursMeans(text, q, i);
      assert text == text[..i] + text[i..i + |q|] + text[i + |q|..];
    }
    if HasInside(text, q) {
      var a, m, b :| text == a + m + b && SpelledAlike(m, q);
      assert |m| == |q| by { LengthAlike(m, q); }
      assert text[|a|..|a| + |q|] == m;
      OccursMeans(text, q, |a|);
    }
  }

  lemma LengthAlike(m: string, q: string)
    requires SpelledAlike(m, q)
    ensures |m| == |q|
  {
  }

  // ---- what a filter asks for ----

  /** Some tag of this one-letter name has one of the values. */
  ghost predicate CarriesOneOf(e: Event, c: char, values: set<string>) {
    && ('a' <= c <= 'z' || 'A' <= c <= 'Z')
    && exists i :: 0 <= i < |e.tags| && e.tags[i].name == [c] && e.tags[i].content.Some?
                   && e.tags[i].content.value in values
  }

  ghost predicate AskedFor(f: Filter, e: Event) {
    && (f.ids.Some? && f.ids.value != {} ==> e.id in f.ids.value)
    && (f.authors.Some? && f.authors.value != {} ==> e.author in f.authors.value)
    && (f.kinds.Some? && f.kinds.value != {} ==> e.kind in f.kinds.value)
    && (f.since.Some? ==> f.since.value <= e.createdAt)
    && (f.until.Some? ==> e.createdAt <= f.until.value)
    && (forall c :: c in f.genericTags ==> CarriesOneOf(e, c, f.genericTags[c]))
    && (f.search.Some? ==> HasInside(e.content, f.search.value))
  }

  lemma CarriesMeans(e: Event, c: char, values: set<string>)
    ensures CarriesOneOf(e, c, values) <==> exists v :: v in values && HasTag(e, c, v)
  {
    if v :| v in values && HasTag(e, c, v) {
      var t :| t in e.tags && t.name == [c] && t.content == Some(v);
      var i :| 0 <= i < |e.tags| && e.tags[i] == t;
    }
  }

  lemma MatchesMeans(f: Filter, e: Event)
    ensures Matches(f, e) <==> AskedFor(f, e)
  {
    hide Contains, HasInside, HasTag, CarriesOneOf;
    forall c | c in f.genericTags
      ensures CarriesOneOf(e, c, f.genericTags[c]) <==> exists v :: v in f.genericTags[c] && HasTag(e, c, v)
    {
      CarriesMeans(e, c, f.genericTags[c]);
    }
    if f.search.Some? {
      ContainsMeans(e.content, f.search.value);
    }
  }

  ghost function AllAskedFor(f: Filter, events: set<Event>): set<Event> { set e | e in events && AskedFor(f, e) }

  /**
    What a query of the in-memory store returns: of the events the filter asks for as many as
    its limit allows, and every one of them newer than each one left out, or as new with the
    lower id.
  */
  lemma QueryMeans(f: Filter, events: set<Event>)
    requires UniqueIds(events)
    requires PlanOf(f).ByAddress? ==> ExactlyOneIdentifier(f) && OneIdentifierEach(events)
    ensures var found, all := MemoryQuery.Query(f, events), AllAskedFor(f, events);
            && found <= all
            && |found| == (if f.limit.Some? && f.limit.value < |all| then f.limit.value else |all|)
            && forall e, o :: e in found && o in all && o !in found ==>
                 e.createdAt > o.createdAt || (e.createdAt == o.createdAt && e.id < o.id)
  {
    hide MemoryQuery.Query, PlanOf, AskedFor, Matches, FirstN;
    PlannerAgrees(f, events);
    forall e
      ensures Matches(f, e) <==> AskedFor(f, e)
    {
      MatchesMeans(f, e);
    }
    var all := AllAskedFor(f, events);
    assert all == Matching(f, events);
    assert UniqueIds(all);
    EventsOrdered(all);
    if f.limit.Some? {
      FirstNSize(Before, all, f.limit.value);
      FirstNDownClosed(Before, all, f.limit.value);
      FirstIsSubset(all, f.limit.value);
    }
  }

  lemma FirstIsSubset(s: set<Event>, n: nat)
    ensures FirstN(Before, s, n) <= s
  {
  }

  // ---- what the compiled statement selects ----

  /** The number read as a signed one of 64 bits. */
  function Wrapped(n: nat): int {
    if n >= 9_223_372_036_854_775_808 then n - 18_446_744_073_709_551_616 else n
  }

  /** The text is in the content, or in the value of a title, description, subject or name tag. */
  ghost predicate SearchedIn(e: Event, q: string) {
    || HasInside(e.content, q)
    || exists i :: 0 <= i < |e.tags| && e.tags[i].content.Some? && HasInside(e.tags[i].content.value, q)
         && (e.tags[i].name == "title" || e.tags[i].name == "description"
             || e.tags[i].name == "subject" || e.tags[i].name == "name")
  }

  /** Tags without values are skipped, but with any tag asked for the event needs some one-letter tag. */
  ghost predicate StatementAsksFor(f: Filter, e: Event) {
    && (f.ids.Some? && f.ids.value != {} ==> e.id in f.ids.value)
    && (f.authors.Some? && f.authors.value != {} ==> e.author in f.authors.value)
    && (f.kinds.Some? && f.kinds.value != {} ==> e.kind in f.kinds.value)
    && (f.since.Some? ==> Wrapped(f.since.value) <= e.createdAt)
    && (f.until.Some? ==> e.createdAt <= Wrapped(f.until.value))
    && (forall c :: c in f.genericTags && f.genericTags[c] != {} ==> CarriesOneOf(e, c, f.genericTags[c]))
    && (f.search.Some? ==> f.search.value != "" && SearchedIn(e, f.search.value))
    && (f.genericTags != map[] ==>
          exists i, c :: 0 <= i < |e.tags| && e.tags[i].name == [c] && e.tags[i].content.Some?
                         && ('a' <= c <= 'z' || 'A' <= c <= 'Z'))
  }

  lemma TagContainsMeans(q: string, e: Event)
    ensures TagContains(q, e) <==>
            exists i :: 0 <= i < |e.tags| && e.tags[i].content.Some? && HasInside(e.tags[i].content.value, q)
              && (e.tags[i].name == "title" || e.tags[i].name == "description"
                  || e.tags[i].name == "subject" || e.tags[i].name == "name")
  {
    hide Contains, HasInside;
    forall text
      ensures Contains(text, q) <==> HasInside(text, q)
    {
      ContainsMeans(text, q);
    }
    if TagContains(q, e) {
      var t :| t in e.tags && t.name in SEARCHED_TAGS && t.content.Some? && Contains(t.content.value, q);
      var i :| 0 <= i < |e.tags| && e.tags[i] == t;
    }
  }

  lemma SomeTagMeans(e: Event)
    ensures HasSomeTag(e) <==>
            exists i, c :: 0 <= i < |e.tags| && e.tags[i].name == [c] && e.tags[i].content.Some?
                           && ('a' <= c <= 'z' || 'A' <= c <= 'Z')
  {
    if HasSomeTag(e) {
      var c, v :| HasTag(e, c, v);
      var t :| t in e.tags && t.name == [c] && t.content == Some(v);
      var i :| 0 <= i < |e.tags| && e.tags[i] == t;
    }
    forall i, c | 0 <= i < |e.tags| && e.tags[i].name == [c] && e.tags[i].content.Some?
                  && ('a' <= c <= 'z' || 'A' <= c <= 'Z')
      ensures HasSomeTag(e)
    {
      assert HasTag(e, c, e.tags[i].content.value);
    }
  }

  lemma SelectedMeans(f: Filter, e: Event)
    ensures Selected(f, e) <==> StatementAsksFor(f, e)
  {
    hide Contains, HasInside, HasTag, CarriesOneOf, TagContains, HasSomeTag;
    SomeTagMeans(e);
    forall c | c in f.genericTags
      ensures CarriesOneOf(e, c, f.genericTags[c]) <==> exists v :: v in f.genericTags[c] && HasTag(e, c, v)
    {
      CarriesMeans(e, c, f.genericTags[c]);
    }
    if f.search.Some? {
      ContainsMeans(e.content, f.search.value);
      TagContainsMeans(f.search.value, e);
    }
  }

  /** What a compiled query selects from the tables, before any limit. */
  lemma RowsMean(events: set<Event>, tags: set<TagRow>, f: Filter, verb: Verb, q: SqlFilter.Query)
    requires TagsListed(events, tags) && CompiledFor(f, verb, q)
    ensures Rows(events, tags, q) == set e | e in events && StatementAsksFor(f, e)
  {
    hide StatementAsksFor, Selected, Rows, CompiledFor, TagsListed;
    RowsAreSelected(events, tags, f, verb, q);
    forall e
      ensures Selected(f, e) <==> StatementAsksFor(f, e)
    {
      SelectedMeans(f, e);
    }
  }

  // ---- a search, alone ----

  /** A filter with a search text alone, in both stores: the text is found wherever it stands. */
  lemma SearchMeans(q: string, e: Event)
    requires q != ""
    ensures var f := EMPTY_FILTER.(search := Some(q));
            && (e in MemoryQuery.Query(f, {e}) <==>
                exists a, m, b :: e.content == a + m + b && SpelledAlike(m, q))
            && (Selected(f, e) <==> SearchedIn(e, q))
  {
    var f := EMPTY_FILTER.(search := Some(q));
    QueryMeans(f, {e});
    SelectedMeans(f, e);
    hide MemoryQuery.Query, Selected;
    if AskedFor(f, e) {
      assert AllAskedFor(f, {e}) == {e};
      SubsetCard(MemoryQuery.Query(f, {e}), {e});
    }
  }
}
