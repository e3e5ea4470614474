/** Filters and the events they match (NIP-01, and NIP-50 for the search text). */
module Filters {
  import opened Wrappers
  import opened Events
  import opened Order

  datatype Filter = Filter(
    ids: Option<set<EventId>>,
    authors: Option<set<PublicKey>>,
    kinds: Option<set<Kind>>,
    search: Option<string>,
    since: Option<Timestamp>,
    until: Option<Timestamp>,
    limit: Option<nat>,
    genericTags: map<char, set<string>>)

  const EMPTY_FILTER := Filter(None, None, None, None, None, None, None, map[])

  /** A set of choices constrains nothing when it is missing or empty. */
  predicate Admits<T(==)>(choices: Option<set<T>>, x: T) {
    choices.None? || choices.value == {} || x in choices.value
  }

  predicate IsLetter(c: char) { 'a' <= c <= 'z' || 'A' <= c <= 'Z' }

  /** Does some single-letter tag `c` of the event have the value `v`? */
  predicate HasTag(e: Event, c: char, v: string) {
    IsLetter(c) && exists t :: t in e.tags && t.name == [c] && t.content == Some(v)
  }

  predicate TagsMatch(f: Filter, e: Event) {
    forall c | c in f.genericTags :: exists v | v in f.genericTags[c] :: HasTag(e, c, v)
  }

  function ToLower(c: char): char {
    if 'A' <= c <= 'Z' then c - 'A' + 'a' else c
  }

  /** ASCII case-insensitive occurrence of `q` in `text` at position `i`. */
  predicate OccursAt(q: string, text: string, i: nat)
    requires i + |q| <= |text|
  {
    forall j | 0 <= j < |q| :: ToLower(text[i + j]) == ToLower(q[j])
  }

  predicate Contains(text: string, q: string) { exists i | 0 <= i <= |text| - |q| :: OccursAt(q, text, i) }

  predicate ContentMatches(q: string, e: Event) { Contains(e.content, q) }

  predicate InWindow(since: Option<Timestamp>, until: Option<Timestamp>, e: Event) {
    && (since.Some? ==> since.value <= e.createdAt)
    && (until.Some? ==> e.createdAt <= until.value)
  }

  /** Everything a filter asks for except the search text. */
  predicate MatchesBase(f: Filter, e: Event) {
    && Admits(f.ids, e.id)
    && Admits(f.authors, e.author)
    && Admits(f.kinds, e.kind)
    && InWindow(f.since, f.until, e)
    && TagsMatch(f, e)
  }

  predicate Matches(f: Filter, e: Event) {
    MatchesBase(f, e) && (f.search.Some? ==> ContentMatches(f.search.value, e))
  }

  ghost function Matching(f: Filter, events: set<Event>): set<Event> {
    set e | e in events && Matches(f, e)
  }

  ghost function Take(s: set<Event>, limit: Option<nat>): set<Event> {
    if limit.None? then s else FirstN(Before, s, limit.value)
  }

  /** The plain scan: the first `limit` matching events, newest first. */
  ghost function Scan(f: Filter, events: set<Event>): set<Event> {
    Take(Matching(f, events), f.limit)
  }

  lemma EventsOrdered(s: set<Event>)
    requires UniqueIds(s)
    ensures StrictTotal(Before, s)
  {
  }
}
