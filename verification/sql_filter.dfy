/**
  The filter compiler of the SQLite store: a filter becomes SQL text, here the list
  of fragments pushed onto the buffer, and a list of positional parameters.
  `ParseQuery` reads the text back, the k-th `?` taking the k-th parameter.
*/
module SqlFilter {
  import opened Wrappers
  import opened Order
  import opened Events
  import opened Filters

  const I64_LIMIT := 0x8000_0000_0000_0000

  /** The cast of an unsigned 64-bit number to a signed one. */
  function AsI64(n: nat): int { if n < I64_LIMIT then n else n - 2 * I64_LIMIT }

  datatype Value = IdBlob(id: EventId) | KeyBlob(key: PublicKey) | Integer(n: int) | TextValue(text: string)

  datatype Column = IdColumn | PubkeyColumn | KindColumn

  /** The pieces of SQL text the compiler pushes. `Hole` is a `?`; some pieces contain holes of their own. */
  datatype Sql =
    | SelectAll | NegentropyAll | CountAll | DeleteAll | OrderByTime
    | SelectDistinct | NegentropyDistinct | CountDistinct | DeleteIdIn
    | FromEvents | JoinTags | WhereTrue | OrderByEventTime | LimitHole
    | AndIn(column: Column) | Hole | Comma | Close
    | AndSinceHole | AndUntilHole | AndFalse
    | AndContentHole | OrTagsHole | AndTagNameHoleIn | CloseTwice

  datatype Verb = Select | Negentropy | Count | Delete

  datatype Clause =
    | In(column: Column, values: seq<Value>)
    | AtLeast(time: Value)
    | AtMost(time: Value)
    | Never
    | Search(content: Value, tags: Value)
    | TagIn(name: Value, values: seq<Value>)

  datatype Query =
    | Whole(verb: Verb)
    | Filtered(verb: Verb, join: bool, clauses: seq<Clause>, limit: Option<Value>)

  // ---- reading the text back ----

  /** A list `?, ?, ..., ?` and the closing piece. */
  function ParseList(sql: seq<Sql>, params: seq<Value>, close: Sql): (r: Option<(seq<Value>, seq<Sql>, seq<Value>)>)
    ensures r.Some? ==> |r.value.1| < |sql|
  {
    if |sql| < 2 || sql[0] != Hole || params == [] then None
    else if sql[1] == close then Some(([params[0]], sql[2..], params[1..]))
    else if sql[1] != Comma then None
    else match ParseList(sql[2..], params[1..], close)
      case None => None
      case Some((vs, rest, ps)) => Some(([params[0]] + vs, rest, ps))
  }

  type Parsed = Option<(seq<Clause>, seq<Sql>, seq<Value>)>

  function Prepend(cs: seq<Clause>, r: Parsed): Parsed {
    match r
    case None => None
    case Some((ds, rest, ps)) => Some((cs + ds, rest, ps))
  }

  /** The conditions, up to the first piece that is not one. */
  function ParseConditions(sql: seq<Sql>, params: seq<Value>): Parsed
    decreases |sql|
  {
    if sql == [] then Some(([], sql, params))
    else match sql[0]
      case AndIn(column) =>
        (match ParseList(sql[1..], params, Close)
         case None => None
         case Some((vs, rest, ps)) => Prepend([In(column, vs)], ParseConditions(rest, ps)))
      case AndSinceHole =>
        if params == [] then None else Prepend([AtLeast(params[0])], ParseConditions(sql[1..], params[1..]))
      case AndUntilHole =>
        if params == [] then None else Prepend([AtMost(params[0])], ParseConditions(sql[1..], params[1..]))
      case AndFalse => Prepend([Never], ParseConditions(sql[1..], params))
      case AndContentHole =>
        if |params| < 2 || |sql| < 2 || sql[1] != OrTagsHole then None
        else Prepend([Search(params[0], params[1])], ParseConditions(sql[2..], params[2..]))
      case AndTagNameHoleIn =>
        if params == [] then None
        else
          (match ParseList(sql[1..], params[1..], CloseTwice)
           case None => None
           case Some((vs, rest, ps)) => Prepend([TagIn(params[0], vs)], ParseConditions(rest, ps)))
      case _ => Some(([], sql, params))
  }

  function VerbOf(s: Sql): Option<Verb> {
    match s
    case SelectDistinct => Some(Select)
    case NegentropyDistinct => Some(Negentropy)
    case CountDistinct => Some(Count)
    case DeleteIdIn => Some(Delete)
    case _ => None
  }

  /** `[INNER JOIN ...] WHERE 1=1 <conditions>` and whatever ends the statement. */
  function ParseBody(verb: Verb, sql: seq<Sql>, params: seq<Value>): Option<Query> {
    var join := sql != [] && sql[0] == JoinTags;
    var body := if join then sql[1..] else sql;
    if body == [] || body[0] != WhereTrue then None
    else match ParseConditions(body[1..], params)
      case None => None
      case Some((cs, tail, ps)) =>
        if verb == Delete then
          if tail == [Close] && ps == [] then Some(Filtered(verb, join, cs, None)) else None
        else if tail == [OrderByEventTime] && ps == [] then Some(Filtered(verb, join, cs, None))
        else if tail == [OrderByEventTime, LimitHole] && |ps| == 1 then Some(Filtered(verb, join, cs, Some(ps[0])))
        else None
  }

  function ParseQuery(sql: seq<Sql>, params: seq<Value>): Option<Query> {
    if sql == [SelectAll, OrderByTime] && params == [] then Some(Whole(Select))
    else if sql == [NegentropyAll, OrderByTime] && params == [] then Some(Whole(Negentropy))
    else if sql == [CountAll, OrderByTime] && params == [] then Some(Whole(Count))
    else if sql == [DeleteAll] && params == [] then Some(Whole(Delete))
    else if sql == [] || VerbOf(sql[0]).None? then None
    else if sql[0] == DeleteIdIn then ParseBody(Delete, sql[1..], params)
    else if |sql| < 2 || sql[1] != FromEvents then None
    else ParseBody(VerbOf(sql[0]).value, sql[2..], params)
  }

  /** Wherever this text and these parameters stand, they read as these clauses and use up exactly the parameters. */
  ghost predicate Reads(sql: seq<Sql>, params: seq<Value>, cs: seq<Clause>) {
    forall rest: seq<Sql>, ps: seq<Value> ::
      ParseConditions(sql + rest, params + ps) == Prepend(cs, ParseConditions(rest, ps))
  }

  lemma ReadsNothing()
    ensures Reads([], [], [])
  {
    forall rest: seq<Sql>, ps: seq<Value>
      ensures ParseConditions([] + rest, [] + ps) == Prepend([], ParseConditions(rest, ps))
    {
      assert [] + rest == rest && [] + ps == ps;
      PrependNothing(ParseConditions(rest, ps));
    }
  }

  lemma PrependNothing(r: Parsed)
    ensures Prepend([], r) == r
  {
    if r.Some? {
      assert [] + r.value.0 == r.value.0;
    }
  }

  lemma PrependTwice(a: seq<Clause>, b: seq<Clause>, r: Parsed)
    ensures Prepend(a, Prepend(b, r)) == Prepend(a + b, r)
  {
    if r.Some? {
      assert a + (b + r.value.0) == a + b + r.value.0;
    }
  }

  lemma ReadsInTurn(s1: seq<Sql>, p1: seq<Value>, c1: seq<Clause>, s2: seq<Sql>, p2: seq<Value>, c2: seq<Clause>)
    requires Reads(s1, p1, c1) && Reads(s2, p2, c2)
    ensures Reads(s1 + s2, p1 + p2, c1 + c2)
  {
    forall rest: seq<Sql>, ps: seq<Value>
      ensures ParseConditions(s1 + s2 + rest, p1 + p2 + ps) == Prepend(c1 + c2, ParseConditions(rest, ps))
    {
      hide ParseConditions, Prepend;
      assert s1 + s2 + rest == s1 + (s2 + rest) && p1 + p2 + ps == p1 + (p2 + ps);
      PrependTwice(c1, c2, ParseConditions(rest, ps));
    }
  }

  /** The text of a list of `n` holes. */
  function Holes(n: nat, close: Sql): seq<Sql>
    requires n > 0
  {
    if n == 1 then [Hole, close] else [Hole, Comma] + Holes(n - 1, close)
  }

  lemma LastInList(v: Value, close: Sql, rest: seq<Sql>, ps: seq<Value>)
    requires close == Close || close == CloseTwice
    ensures ParseList([Hole, close] + rest, [v] + ps, close) == Some(([v], rest, ps))
  {
    var sql, params := [Hole, close] + rest, [v] + ps;
    assert sql[2..] == rest && params[1..] == ps;
  }

  lemma NextInList(v: Value, close: Sql, sql: seq<Sql>, params: seq<Value>)
    requires (close == Close || close == CloseTwice) && ParseList(sql, params, close).Some?
    ensures var (vs, rest, ps) := ParseList(sql, params, close).value;
            ParseList([Hole, Comma] + sql, [v] + params, close) == Some(([v] + vs, rest, ps))
  {
    var sql', params' := [Hole, Comma] + sql, [v] + params;
    assert sql'[2..] == sql && params'[1..] == params;
  }

  lemma {:induction false} ListReads(values: seq<Value>, close: Sql, rest: seq<Sql>, ps: seq<Value>)
    requires values != [] && (close == Close || close == CloseTwice)
    ensures ParseList(Holes(|values|, close) + rest, values + ps, close) == Some((values, rest, ps))
  {
    hide ParseList;
    var v, others := values[0], values[1..];
    assert values == [v] + others;
    if others == [] {
      assert values == [v] && Holes(1, close) == [Hole, close];
      LastInList(v, close, rest, ps);
    } else {
      var list := Holes(|others|, close);
      assert Holes(|values|, close) == [Hole, Comma] + list;
      hide Holes;
      ListReads(others, close, rest, ps);
      NextInList(v, close, list + rest, others + ps);
      assert [Hole, Comma] + list + rest == [Hole, Comma] + (list + rest);
      assert [v] + others + ps == [v] + (others + ps);
    }
  }

  lemma InStep(column: Column, sql: seq<Sql>, params: seq<Value>, vs: seq<Value>, rest: seq<Sql>, ps: seq<Value>)
    requires sql != [] && sql[0] == AndIn(column)
    requires ParseList(sql[1..], params, Close) == Some((vs, rest, ps))
    ensures ParseConditions(sql, params) == Prepend([In(column, vs)], ParseConditions(rest, ps))
  {
    hide ParseList, Prepend;
  }

  lemma TagInStep(sql: seq<Sql>, params: seq<Value>, vs: seq<Value>, rest: seq<Sql>, ps: seq<Value>)
    requires sql != [] && sql[0] == AndTagNameHoleIn && params != []
    requires ParseList(sql[1..], params[1..], CloseTwice) == Some((vs, rest, ps))
    ensures ParseConditions(sql, params) == Prepend([TagIn(params[0], vs)], ParseConditions(rest, ps))
  {
    hide ParseList, Prepend;
  }

  lemma InReads(column: Column, values: seq<Value>)
    requires values != []
    ensures Reads([AndIn(column)] + Holes(|values|, Close), values, [In(column, values)])
  {
    hide ParseList, ParseConditions, Prepend, Holes;
    var sql := [AndIn(column)] + Holes(|values|, Close);
    forall rest: seq<Sql>, ps: seq<Value>
      ensures ParseConditions(sql + rest, values + ps) == Prepend([In(column, values)], ParseConditions(rest, ps))
    {
      assert (sql + rest)[1..] == Holes(|values|, Close) + rest;
      ListReads(values, Close, rest, ps);
      InStep(column, sql + rest, values + ps, values, rest, ps);
    }
  }

  lemma TagInReads(name: Value, values: seq<Value>)
    requires values != []
    ensures Reads([AndTagNameHoleIn] + Holes(|values|, CloseTwice), [name] + values, [TagIn(name, values)])
  {
    hide ParseList, ParseConditions, Prepend, Holes;
    var sql := [AndTagNameHoleIn] + Holes(|values|, CloseTwice);
    forall rest: seq<Sql>, ps: seq<Value>
      ensures ParseConditions(sql + rest, [name] + values + ps)
              == Prepend([TagIn(name, values)], ParseConditions(rest, ps))
    {
      var list := Holes(|values|, CloseTwice);
      var all, given := sql + rest, [name] + values + ps;
      assert all == [AndTagNameHoleIn] + (list + rest) && given == [name] + (values + ps);
      assert all[1..] == list + rest && given[1..] == values + ps;
      ListReads(values, CloseTwice, rest, ps);
      TagInStep(all, given, values, rest, ps);
    }
  }

  lemma SinceReads(v: Value)
    ensures Reads([AndSinceHole], [v], [AtLeast(v)])
  {
    forall rest: seq<Sql>, ps: seq<Value>
      ensures ParseConditions([AndSinceHole] + rest, [v] + ps) == Prepend([AtLeast(v)], ParseConditions(rest, ps))
    {
      assert ([AndSinceHole] + rest)[1..] == rest && ([v] + ps)[1..] == ps;
    }
  }

  lemma UntilReads(v: Value)
    ensures Reads([AndUntilHole], [v], [AtMost(v)])
  {
    forall rest: seq<Sql>, ps: seq<Value>
      ensures ParseConditions([AndUntilHole] + rest, [v] + ps) == Prepend([AtMost(v)], ParseConditions(rest, ps))
    {
      assert ([AndUntilHole] + rest)[1..] == rest && ([v] + ps)[1..] == ps;
    }
  }

  lemma FalseReads()
    ensures Reads([AndFalse], [], [Never])
  {
    forall rest: seq<Sql>, ps: seq<Value>
      ensures ParseConditions([AndFalse] + rest, [] + ps) == Prepend([Never], ParseConditions(rest, ps))
    {
      assert ([AndFalse] + rest)[1..] == rest && [] + ps == ps;
    }
  }

  lemma SearchReads(v: Value, w: Value)
    ensures Reads([AndContentHole, OrTagsHole], [v, w], [Search(v, w)])
  {
    forall rest: seq<Sql>, ps: seq<Value>
      ensures ParseConditions([AndContentHole, OrTagsHole] + rest, [v, w] + ps) ==
              Prepend([Search(v, w)], ParseConditions(rest, ps))
    {
      assert ([AndContentHole, OrTagsHole] + rest)[2..] == rest && ([v, w] + ps)[2..] == ps;
    }
  }

  // ---- what a query means over the tables ----

  datatype TagRow = TagRow(eventId: EventId, name: string, value: string)

  /** The tags whose first value a search looks into besides the content. */
  const SEARCHED_TAGS: set<string> := {"title", "description", "subject", "name"}

  predicate TagContains(q: string, e: Event) {
    exists t | t in e.tags :: t.name in SEARCHED_TAGS && t.content.Some? && Contains(t.content.value, q)
  }

  predicate HasTagIn(tags: set<TagRow>, e: Event, name: Value, values: seq<Value>) {
    name.TextValue? && exists t :: t in tags && t.eventId == e.id && t.name == name.text && TextValue(t.value) in values
  }

  function ColumnValue(c: Column, e: Event): Value {
    match c
    case IdColumn => IdBlob(e.id)
    case PubkeyColumn => KeyBlob(e.author)
    case KindColumn => Integer(e.kind)
  }

  predicate Holds(tags: set<TagRow>, e: Event, c: Clause) {
    match c
    case In(column, values) => ColumnValue(column, e) in values
    case AtLeast(t) => t.Integer? && e.createdAt >= t.n
    case AtMost(t) => t.Integer? && e.createdAt <= t.n
    case Never => false
    case Search(v, w) => v.TextValue? && w.TextValue? && (ContentMatches(v.text, e) || TagContains(w.text, e))
    case TagIn(name, values) => HasTagIn(tags, e, name, values)
  }

  predicate HoldsAll(tags: set<TagRow>, e: Event, cs: seq<Clause>) {
    forall c :: c in cs ==> Holds(tags, e, c)
  }

  /** `FROM events e [INNER JOIN event_tags et ON e.id = et.event_id] WHERE ...`, one row per pair. */
  function JoinedRows(events: set<Event>, tags: set<TagRow>,
    cs: seq<Clause>): set<(Event, TagRow)> {
    set e, t | e in events && t in tags && e.id == t.eventId && HoldsAll(tags, e, cs) :: (e, t)
  }

  /** The distinct events a query selects, before any limit. */
  function Rows(events: set<Event>, tags: set<TagRow>, q: Query): set<Event> {
    match q
    case Whole(_) => events
    case Filtered(_, join, cs, _) =>
      if join then set r | r in JoinedRows(events, tags, cs) :: r.0
      else set e | e in events && HoldsAll(tags, e, cs)
  }

  ghost predicate NewestFirst(rows: seq<Event>) {
    && (forall i, j :: 0 <= i < j < |rows| ==> rows[i] != rows[j])
    && (forall i, j :: 0 <= i < j < |rows| ==> rows[i].createdAt >= rows[j].createdAt)
  }

  ghost function Limit(q: Query): Option<nat> {
    if q.Filtered? && q.limit.Some? && q.limit.value.Integer? && q.limit.value.n >= 0
    then Some(q.limit.value.n) else None
  }

  /**
    What a query for events may return: `ORDER BY created_at DESC LIMIT ?`, some order by
    time, ties anyhow, cut after the limit. A negative limit is no limit.
  */
  ghost predicate MayReturn(events: set<Event>, tags: set<TagRow>, q: Query, result: seq<Event>) {
    && (q.verb == Select || q.verb == Negentropy)
    && exists all: seq<Event> ::
      && NewestFirst(all) && (set e | e in all) == Rows(events, tags, q)
      && result == if Limit(q).Some? && Limit(q).value < |all| then all[..Limit(q).value] else all
  }

  /** What a counting query returns: one row holding the count, which the limit may cut off. */
  ghost function CountRows(events: set<Event>, tags: set<TagRow>, q: Query): seq<nat>
    requires q.verb == Count
  {
    if Limit(q) == Some(0) then [] else [|Rows(events, tags, q)|]
  }

  /** The tag table lists the single-letter tags of the stored events. */
  ghost predicate TagsListed(events: set<Event>, tags: set<TagRow>) {
    && UniqueIds(events)
    && (forall t :: t in tags <==>
          exists e, c :: e in events && t.eventId == e.id && t.name == [c] && HasTag(e, c, t.value))
  }

  // ---- what the compiled conditions select, for every filter ----

  predicate EmptyOr(f: Filter, c: char, e: Event)
    requires c in f.genericTags
  {
    f.genericTags[c] == {} || exists v | v in f.genericTags[c] :: HasTag(e, c, v)
  }

  ghost predicate Finds(q: string, e: Event) { ContentMatches(q, e) || TagContains(q, e) }

  ghost predicate SearchHits(q: string, e: Event) { q != "" && Finds(q, e) }

  /** The conditions as compiled: times cast, empty tag sets skipped, an empty search never met. */
  ghost predicate Conditions(f: Filter, e: Event) {
    && Admits(f.ids, e.id)
    && Admits(f.authors, e.author)
    && Admits(f.kinds, e.kind)
    && (f.since.Some? ==> AsI64(f.since.value) <= e.createdAt)
    && (f.until.Some? ==> e.createdAt <= AsI64(f.until.value))
    && (f.search.Some? ==> SearchHits(f.search.value, e))
    && (forall c :: c in f.genericTags ==> EmptyOr(f, c, e))
  }

  /** The clauses decide the conditions for any event whose tags are listed. */
  ghost predicate Decides(f: Filter, cs: seq<Clause>) {
    forall events: set<Event>, tags: set<TagRow>, e: Event ::
      TagsListed(events, tags) && e in events ==> (HoldsAll(tags, e, cs) <==> Conditions(f, e))
  }

  // ---- the compiler ----

  class FilterQuery {
    var sql: seq<Sql>
    var params: seq<Value>

    constructor (sql: seq<Sql>)
      ensures this.sql == sql && params == []
    {
      this.sql, params := sql, [];
    }

    /** Pushes a condition `column IN (?, ..., ?)`, one parameter per value. */
    method PushIn(open: Sql, values: set<Value>, close: Sql) returns (ghost order: seq<Value>)
      requires values != {}
      modifies this
      ensures forall v :: v in order <==> v in values
      ensures order != [] && sql == old(sql) + ([open] + Holes(|order|, close)) && params == old(params) + order
    {
      hide Holes, HolesSoFar, Elements;
      sql := sql + [open];
      ghost var start := sql;
      var rest := values;
      order := [];
      var first := true;
      NoHolesYet();
      NoElements();
      while rest != {}
        invariant rest <= values && Elements(order) == values - rest
        invariant first <==> order == []
        invariant params == old(params) + order
        invariant sql == start + HolesSoFar(|order|)
        decreases |rest|
      {
        var v :| v in rest;
        OneMoreElement(values, rest, order, v);
        OneMoreHole(start, sql, |order|);
        rest := rest - {v};
        if !first {
          sql := sql + [Comma];
        }
        sql := sql + [Hole];
        params := params + [v];
        assert old(params) + order + [v] == old(params) + (order + [v]);
        order := order + [v];
        first := false;
      }
      assert Elements(order) == values;
      AllElements(order);
      HolesClosed(|order|, close);
      assert start + HolesSoFar(|order|) + [close] == start + (HolesSoFar(|order|) + [close]);
      assert start + Holes(|order|, close) == old(sql) + ([open] + Holes(|order|, close));
      sql := sql + [close];
    }

    static function Elements(order: seq<Value>): set<Value> { set v | v in order }

    static lemma NoElements()
      ensures Elements([]) == {}
    {
    }

    static lemma OneMoreElement(values: set<Value>, rest: set<Value>, order: seq<Value>, v: Value)
      requires v in rest && rest <= values && Elements(order) == values - rest
      ensures Elements(order + [v]) == values - (rest - {v}) && rest - {v} <= values
    {
      assert Elements(order + [v]) == Elements(order) + {v};
    }

    static lemma AllElements(order: seq<Value>)
      ensures forall v :: v in order <==> v in Elements(order)
      ensures order == [] <==> Elements(order) == {}
    {
      if order != [] {
        assert order[0] in Elements(order);
      }
    }

    /** The text of `n` holes before it is closed. */
    static function HolesSoFar(n: nat): seq<Sql> {
      if n == 0 then [] else if n == 1 then [Hole] else HolesSoFar(n - 1) + [Comma, Hole]
    }

    static lemma NoHolesYet()
      ensures HolesSoFar(0) == []
    {
    }

    static lemma OneMoreHole(start: seq<Sql>, sql: seq<Sql>, n: nat)
      requires sql == start + HolesSoFar(n)
      ensures (if n == 0 then sql + [Hole] else sql + [Comma] + [Hole]) == start + HolesSoFar(n + 1)
    {
      if n > 0 {
        assert sql + [Comma] + [Hole] == start + (HolesSoFar(n) + [Comma, Hole]);
      }
    }

    static lemma {:induction false} HolesClosed(n: nat, close: Sql)
      requires n > 0
      ensures HolesSoFar(n) + [close] == Holes(n, close)
    {
      if n > 1 {
        HolesInFront(n);
        HolesClosed(n - 1, close);
        assert [Hole, Comma] + HolesSoFar(n - 1) + [close] == [Hole, Comma] + (HolesSoFar(n - 1) + [close]);
      }
    }

    /** The list may as well be read as growing at the front. */
    static lemma {:induction false} HolesInFront(n: nat)
      requires n > 1
      ensures HolesSoFar(n) == [Hole, Comma] + HolesSoFar(n - 1)
    {
      if n > 2 {
        HolesInFront(n - 1);
      }
    }

    /** What this call pushed: text and parameters that read as the given clauses. */
    twostate predicate Pushed(text: seq<Sql>, ps: seq<Value>, cs: seq<Clause>)
      reads this
    {
      sql == old(sql) + text && params == old(params) + ps && Reads(text, ps, cs)
    }

    /** `AND column IN (...)`, unless there are no choices. */
    method AddChoices(column: Column, values: set<Value>)
      returns (ghost text: seq<Sql>, ghost ps: seq<Value>, ghost cs: seq<Clause>)
      modifies this
      ensures Pushed(text, ps, cs)
      ensures forall tags, e ::
              HoldsAll(tags, e, cs) <==> values == {} || ColumnValue(column, e) in values
    {
      text, ps, cs := [], [], [];
      ReadsNothing();
      if values != {} {
        ps := PushIn(AndIn(column), values, Close);
        text, cs := [AndIn(column)] + Holes(|ps|, Close), [In(column, ps)];
        InReads(column, ps);
        HoldsOne(cs[0]);
      }
    }

    method AddSince(since: Option<Timestamp>)
      returns (ghost text: seq<Sql>, ghost ps: seq<Value>, ghost cs: seq<Clause>)
      modifies this
      ensures Pushed(text, ps, cs)
      ensures forall tags, e ::
        HoldsAll(tags, e, cs) <==> (since.Some? ==> AsI64(since.value) <= e.createdAt)
    {
      text, ps, cs := [], [], [];
      ReadsNothing();
      if since.Some? {
        var v := Integer(AsI64(since.value));
        sql, params := sql + [AndSinceHole], params + [v];
        text, ps, cs := [AndSinceHole], [v], [AtLeast(v)];
        SinceReads(v);
        HoldsOne(cs[0]);
      }
    }

    method AddUntil(until: Option<Timestamp>)
      returns (ghost text: seq<Sql>, ghost ps: seq<Value>, ghost cs: seq<Clause>)
      modifies this
      ensures Pushed(text, ps, cs)
      ensures forall tags, e ::
        HoldsAll(tags, e, cs) <==> (until.Some? ==> e.createdAt <= AsI64(until.value))
    {
      text, ps, cs := [], [], [];
      ReadsNothing();
      if until.Some? {
        var v := Integer(AsI64(until.value));
        sql, params := sql + [AndUntilHole], params + [v];
        text, ps, cs := [AndUntilHole], [v], [AtMost(v)];
        UntilReads(v);
        HoldsOne(cs[0]);
      }
    }

    method AddSearch(search: Option<string>) returns (ghost text: seq<Sql>, ghost ps: seq<Value>, ghost cs: seq<Clause>)
      modifies this
      ensures Pushed(text, ps, cs)
      ensures forall tags, e ::
        HoldsAll(tags, e, cs) <==> (search.Some? ==> SearchHits(search.value, e))
    {
      text, ps, cs := [], [], [];
      ReadsNothing();
      if search.Some? {
        var v := TextValue(search.value);
        FalseReads();
        SearchReads(v, v);
        if search.value == "" {
          sql := sql + [AndFalse];
          text, cs := [AndFalse], [Never];
        } else {
          sql, params := sql + [AndContentHole], params + [v];
          sql, params := sql + [OrTagsHole], params + [v];
          text, ps, cs := [AndContentHole, OrTagsHole], [v, v], [Search(v, v)];
        }
        HoldsOne(cs[0]);
      }
    }

    /** `AND EXISTS (SELECT 1 FROM event_tags ...)` for one tag, unless it has no values. */
    method AddTag(c: char, values: set<string>)
      returns (ghost text: seq<Sql>, ghost ps: seq<Value>, ghost cs: seq<Clause>)
      modifies this
      ensures Pushed(text, ps, cs)
      ensures forall events, tags, e :: TagsListed(events, tags) && e in events ==>
        (HoldsAll(tags, e, cs) <==> values == {} || exists v :: v in values && HasTag(e, c, v))
    {
      text, ps, cs := [], [], [];
      ReadsNothing();
      if values != {} {
        var name := TextValue([c]);
        sql, params := sql, params + [name];
        var texts := set w | w in values :: TextValue(w);
        ghost var v :| v in values;
        assert TextValue(v) in texts;
        ghost var order := PushIn(AndTagNameHoleIn, texts, CloseTwice);
        text, ps, cs := [AndTagNameHoleIn] + Holes(|order|, CloseTwice), [name] + order, [TagIn(name, order)];
        TagInReads(name, order);
        assert params == old(params) + ps;
        forall events, tags, e | TagsListed(events, tags) && e in events
          ensures HoldsAll(tags, e, cs) <==> exists v :: v in values && HasTag(e, c, v)
        {
          TagInDecides(events, tags, e, c, values, order);
          HoldsOne(cs[0]);
        }
      }
    }

    static lemma TagInDecides(events: set<Event>, tags: set<TagRow>, e: Event, c: char, values: set<string>,
      order: seq<Value>)
      requires TagsListed(events, tags) && e in events
      requires forall v :: v in order <==> v in (set w | w in values :: TextValue(w))
      ensures HasTagIn(tags, e, TextValue([c]), order) <==> exists v :: v in values && HasTag(e, c, v)
    {
      if HasTagIn(tags, e, TextValue([c]), order) {
        var t :| t in tags && t.eventId == e.id && t.name == [c] && TextValue(t.value) in order;
        var f, d :| f in events && t.eventId == f.id && t.name == [d] && HasTag(f, d, t.value);
        assert [c][0] == [d][0];
        assert t.value in values && HasTag(e, c, t.value);
      }
      if exists v :: v in values && HasTag(e, c, v) {
        var v :| v in values && HasTag(e, c, v);
        var t := TagRow(e.id, [c], v);
        assert t in tags && TextValue(v) in order;
      }
    }

    method AddTags(f: Filter) returns (ghost text: seq<Sql>, ghost ps: seq<Value>, ghost cs: seq<Clause>)
      modifies this
      ensures Pushed(text, ps, cs)
      ensures forall events, tags, e :: TagsListed(events, tags) && e in events ==>
        (HoldsAll(tags, e, cs) <==> forall c :: c in f.genericTags ==> EmptyOr(f, c, e))
    {
      hide TagsListed, HasTag, Reads;
      text, ps, cs := [], [], [];
      ReadsNothing();
      var rest := f.genericTags.Keys;
      while rest != {}
        invariant rest <= f.genericTags.Keys
        invariant sql == old(sql) + text && params == old(params) + ps && Reads(text, ps, cs)
        invariant forall events, tags, e :: TagsListed(events, tags) && e in events ==>
          (HoldsAll(tags, e, cs) <==>
           forall c :: c in f.genericTags && c !in rest ==> EmptyOr(f, c, e))
        decreases |rest|
      {
        var c :| c in rest;
        rest := rest - {c};
        ghost var t1, p1, c1 := AddTag(c, f.genericTags[c]);
        ReadsInTurn(text, ps, cs, t1, p1, c1);
        HoldsAllConcat(cs, c1);
        text, ps, cs := text + t1, ps + p1, cs + c1;
      }
    }

    static lemma HoldsOne(c: Clause)
      ensures forall tags, e :: HoldsAll(tags, e, [c]) <==> Holds(tags, e, c)
    {
      assert c in [c];
    }

    static lemma HoldsAllConcat(a: seq<Clause>, b: seq<Clause>)
      ensures forall tags, e ::
        HoldsAll(tags, e, a + b) <==> HoldsAll(tags, e, a) && HoldsAll(tags, e, b)
    {
      forall tags, e
        ensures HoldsAll(tags, e, a + b) <==> HoldsAll(tags, e, a) && HoldsAll(tags, e, b)
      {
        assert forall c :: c in a + b <==> c in a || c in b;
      }
    }

    /** The conditions on the columns with a choice of values. */
    method AddColumns(f: Filter) returns (ghost text: seq<Sql>, ghost ps: seq<Value>, ghost cs: seq<Clause>)
      modifies this
      ensures Pushed(text, ps, cs)
      ensures forall tags, e :: HoldsAll(tags, e, cs) <==> ChosenColumns(f, e)
    {
      hide Reads, HoldsAll, Admits, ColumnValue, IdValues, AuthorValues, KindValues;
      ghost var t1, p1, c1 := AddChoices(IdColumn, IdValues(f));
      ghost var t2, p2, c2 := AddChoices(PubkeyColumn, AuthorValues(f));
      ghost var t3, p3, c3 := AddChoices(KindColumn, KindValues(f));
      text, ps, cs := Chain(t1, p1, c1, t2, p2, c2);
      text, ps, cs := Chain(text, ps, cs, t3, p3, c3);
      ChoicesAdmit(f);
    }

    static predicate ChosenColumns(f: Filter, e: Event) {
      Admits(f.ids, e.id) && Admits(f.authors, e.author) && Admits(f.kinds, e.kind)
    }

    method AddWindow(f: Filter) returns (ghost text: seq<Sql>, ghost ps: seq<Value>, ghost cs: seq<Clause>)
      modifies this
      ensures Pushed(text, ps, cs)
      ensures forall tags, e :: HoldsAll(tags, e, cs) <==> InCastWindow(f, e)
    {
      hide Reads, HoldsAll, AsI64;
      ghost var t1, p1, c1 := AddSince(f.since);
      ghost var t2, p2, c2 := AddUntil(f.until);
      text, ps, cs := Chain(t1, p1, c1, t2, p2, c2);
    }

    static predicate InCastWindow(f: Filter, e: Event) {
      && (f.since.Some? ==> AsI64(f.since.value) <= e.createdAt)
      && (f.until.Some? ==> e.createdAt <= AsI64(f.until.value))
    }

    /** All conditions of the filter; the text reads back as clauses that decide exactly them. */
    method AddFilterConditions(f: Filter) returns (ghost text: seq<Sql>, ghost ps: seq<Value>, ghost cs: seq<Clause>)
      modifies this
      ensures Pushed(text, ps, cs)
      ensures Decides(f, cs)
    {
      hide Reads, HoldsAll, PlainConditions, EmptyOr, TagsListed, Conditions;
      ghost var t1, p1, c1 := AddPlainConditions(f);
      ghost var t2, p2, c2 := AddTags(f);
      text, ps, cs := Chain(t1, p1, c1, t2, p2, c2);
      ConditionsAre(f);
    }

    /** The conditions that do not look at the tags. */
    method AddPlainConditions(f: Filter) returns (ghost text: seq<Sql>, ghost ps: seq<Value>, ghost cs: seq<Clause>)
      modifies this
      ensures Pushed(text, ps, cs)
      ensures forall tags, e :: HoldsAll(tags, e, cs) <==> PlainConditions(f, e)
    {
      hide Reads, HoldsAll, ChosenColumns, InCastWindow, SearchHits;
      ghost var t1, p1, c1 := AddColumns(f);
      ghost var t2, p2, c2 := AddWindow(f);
      ghost var t3, p3, c3 := AddSearch(f.search);
      text, ps, cs := Chain(t1, p1, c1, t2, p2, c2);
      text, ps, cs := Chain(text, ps, cs, t3, p3, c3);
    }

    static ghost predicate PlainConditions(f: Filter, e: Event) {
      && ChosenColumns(f, e) && InCastWindow(f, e)
      && (f.search.Some? ==> SearchHits(f.search.value, e))
    }

    static lemma ConditionsAre(f: Filter)
      ensures forall e :: Conditions(f, e) <==>
        PlainConditions(f, e) && forall c :: c in f.genericTags ==> EmptyOr(f, c, e)
    {
    }

    static function IdValues(f: Filter): set<Value> {
      if f.ids.Some? then set x | x in f.ids.value :: IdBlob(x) else {}
    }

    static function AuthorValues(f: Filter): set<Value> {
      if f.authors.Some? then set x | x in f.authors.value :: KeyBlob(x) else {}
    }

    static function KindValues(f: Filter): set<Value> {
      if f.kinds.Some? then set x | x in f.kinds.value :: Integer(x) else {}
    }

    static lemma ChoicesAdmit(f: Filter)
      ensures forall e: Event :: Admits(f.ids, e.id) <==> IdValues(f) == {} || ColumnValue(IdColumn, e) in IdValues(f)
      ensures forall e: Event :: Admits(f.authors, e.author) <==>
                                 AuthorValues(f) == {} || ColumnValue(PubkeyColumn, e) in AuthorValues(f)
      ensures forall e: Event :: Admits(f.kinds, e.kind) <==>
                                 KindValues(f) == {} || ColumnValue(KindColumn, e) in KindValues(f)
    {
      if f.ids.Some? && f.ids.value != {} {
        var x :| x in f.ids.value;
        assert IdBlob(x) in IdValues(f);
      }
      if f.authors.Some? && f.authors.value != {} {
        var x :| x in f.authors.value;
        assert KeyBlob(x) in AuthorValues(f);
      }
      if f.kinds.Some? && f.kinds.value != {} {
        var x :| x in f.kinds.value;
        assert Integer(x) in KindValues(f);
      }
    }

    static lemma Chain(s1: seq<Sql>, p1: seq<Value>, c1: seq<Clause>, s2: seq<Sql>, p2: seq<Value>, c2: seq<Clause>)
      returns (text: seq<Sql>, ps: seq<Value>, cs: seq<Clause>)
      requires Reads(s1, p1, c1) && Reads(s2, p2, c2)
      ensures text == s1 + s2 && ps == p1 + p2 && cs == c1 + c2 && Reads(text, ps, cs)
      ensures forall tags, e ::
        HoldsAll(tags, e, cs) <==> HoldsAll(tags, e, c1) && HoldsAll(tags, e, c2)
    {
      text, ps, cs := s1 + s2, p1 + p2, c1 + c2;
      ReadsInTurn(s1, p1, c1, s2, p2, c2);
      HoldsAllConcat(c1, c2);
    }
  }

  /** The query a filter compiles to. */
  ghost predicate CompiledFor(f: Filter, verb: Verb, q: Query) {
    if f == EMPTY_FILTER then q == Whole(verb)
    else
      && q.Filtered? && q.verb == verb
      && q.join == (f.genericTags != map[])
      && Decides(f, q.clauses)
      && q.limit == if verb != Delete && f.limit.Some? then Some(Integer(AsI64(f.limit.value))) else None
  }

  function JoinText(join: bool): seq<Sql> { if join then [JoinTags] else [] }

  function TailText(verb: Verb, limit: Option<Value>): seq<Sql> {
    if verb == Delete then [Close] else [OrderByEventTime] + if limit.Some? then [LimitHole] else []
  }

  function TailParams(limit: Option<Value>): seq<Value> { if limit.Some? then [limit.value] else [] }

  lemma BodyReads(verb: Verb, join: bool, text: seq<Sql>, ps: seq<Value>, cs: seq<Clause>, limit: Option<Value>)
    requires Reads(text, ps, cs) && (verb == Delete ==> limit.None?)
    ensures ParseBody(verb, JoinText(join) + [WhereTrue] + text + TailText(verb, limit), ps + TailParams(limit)) ==
            Some(Filtered(verb, join, cs, limit))
  {
    TailIsNoCondition(verb, limit);
    hide ParseConditions, Prepend;
    var tail, tps := TailText(verb, limit), TailParams(limit);
    var sql := JoinText(join) + [WhereTrue] + text + tail;
    var body := if join then sql[1..] else sql;
    assert body == [WhereTrue] + (text + tail);
    assert body[1..] == text + tail;
    ReadThenStop(text, ps, cs, tail, tps);
  }

  /** Conditions followed by something that is none read as just the conditions. */
  lemma ReadThenStop(text: seq<Sql>, ps: seq<Value>, cs: seq<Clause>, tail: seq<Sql>, tps: seq<Value>)
    requires Reads(text, ps, cs) && ParseConditions(tail, tps) == Some(([], tail, tps))
    ensures ParseConditions(text + tail, ps + tps) == Some((cs, tail, tps))
  {
    hide ParseConditions;
    assert cs + [] == cs;
  }

  lemma TailIsNoCondition(verb: Verb, limit: Option<Value>)
    ensures ParseConditions(TailText(verb, limit), TailParams(limit))
            == Some(([], TailText(verb, limit), TailParams(limit)))
  {
  }

  function WholeText(verb: Verb): seq<Sql> {
    match verb
    case Select => [SelectAll, OrderByTime]
    case Negentropy => [NegentropyAll, OrderByTime]
    case Count => [CountAll, OrderByTime]
    case Delete => [DeleteAll]
  }

  function HeadText(verb: Verb): seq<Sql> {
    match verb
    case Select => [SelectDistinct, FromEvents]
    case Negentropy => [NegentropyDistinct, FromEvents]
    case Count => [CountDistinct, FromEvents]
    case Delete => [DeleteIdIn]
  }

  lemma WholeReads(verb: Verb)
    ensures ParseQuery(WholeText(verb), []) == Some(Whole(verb))
  {
  }

  lemma HeadReads(verb: Verb, body: seq<Sql>, params: seq<Value>)
    requires ParseBody(verb, body, params).Some?
    ensures ParseQuery(HeadText(verb) + body, params) == ParseBody(verb, body, params)
  {
    hide ParseBody;
    var sql := HeadText(verb) + body;
    assert sql[0] == HeadText(verb)[0] && sql[|HeadText(verb)|..] == body;
    assert VerbOf(sql[0]) == Some(verb);
  }

  /** Compiles the filter; the text reads back, parameters in place, as a query for exactly the filter. */
  method BuildFilter(f: Filter, verb: Verb) returns (q: FilterQuery, ghost query: Query)
    requires f.limit.Some? ==> f.limit.value < 2 * I64_LIMIT
    ensures fresh(q) && ParseQuery(q.sql, q.params) == Some(query)
    ensures CompiledFor(f, verb, query)
  {
    hide Decides, Reads, ParseBody, ParseQuery, AsI64;
    if f == EMPTY_FILTER {
      q := new FilterQuery([WholeText(verb)[0]]);
      if verb != Delete {
        q.sql := q.sql + [OrderByTime];
      }
      query := Whole(verb);
      WholeReads(verb);
      assert q.sql == WholeText(verb);
    } else {
      q, query := BuildFiltered(f, verb);
    }
  }

  method BuildFiltered(f: Filter, verb: Verb) returns (q: FilterQuery, ghost query: Query)
    requires f != EMPTY_FILTER && (f.limit.Some? ==> f.limit.value < 2 * I64_LIMIT)
    ensures fresh(q) && ParseQuery(q.sql, q.params) == Some(query)
    ensures CompiledFor(f, verb, query)
  {
    hide Decides, Reads, ParseBody, ParseQuery, AsI64, HeadText, WholeText;
    q := new FilterQuery(HeadText(verb));
    var join := f.genericTags != map[];
    if join {
      q.sql := q.sql + [JoinTags];
    }
    q.sql := q.sql + [WhereTrue];
    ghost var text, ps, cs := q.AddFilterConditions(f);
    ghost var limit := AddTail(f, verb, q);
    BodyReads(verb, join, text, ps, cs, limit);
    ghost var body := JoinText(join) + [WhereTrue] + text + TailText(verb, limit);
    HeadReads(verb, body, ps + TailParams(limit));
    assert q.sql == HeadText(verb) + body;
    assert q.params == ps + TailParams(limit);
    query := Filtered(verb, join, cs, limit);
  }

  method AddTail(f: Filter, verb: Verb, q: FilterQuery) returns (ghost limit: Option<Value>)
    modifies q
    ensures limit == if verb != Delete && f.limit.Some? then Some(Integer(AsI64(f.limit.value))) else None
    ensures q.sql == old(q.sql) + TailText(verb, limit) && q.params == old(q.params) + TailParams(limit)
  {
    limit := None;
    if verb == Delete {
      q.sql := q.sql + [Close];
    } else {
      q.sql := q.sql + [OrderByEventTime];
      if f.limit.Some? {
        q.sql, q.params := q.sql + [LimitHole], q.params + [Integer(AsI64(f.limit.value))];
        limit := Some(Integer(AsI64(f.limit.value)));
      }
    }
  }

  // ---- holes and parameters ----

  function HolesOf(s: Sql): nat {
    match s
    case Hole | LimitHole | AndSinceHole | AndUntilHole | AndContentHole | OrTagsHole | AndTagNameHoleIn => 1
    case _ => 0
  }

  function CountHoles(sql: seq<Sql>): nat {
    if sql == [] then 0 else HolesOf(sql[0]) + CountHoles(sql[1..])
  }

  lemma {:induction false} ListUsesHoles(sql: seq<Sql>, params: seq<Value>, close: Sql)
    requires ParseList(sql, params, close).Some? && HolesOf(close) == 0
    ensures var (vs, rest, ps) := ParseList(sql, params, close).value;
            CountHoles(sql) == |vs| + CountHoles(rest) && |params| == |vs| + |ps|
  {
    assert sql[1..][1..] == sql[2..];
    if sql[1] != close {
      ListUsesHoles(sql[2..], params[1..], close);
    }
  }

  lemma PrependKeepsRest()
    ensures forall cs, r: Parsed :: Prepend(cs, r).Some? <==> r.Some?
    ensures forall cs, r: Parsed ::
            r.Some? ==> Prepend(cs, r).value.1 == r.value.1 && Prepend(cs, r).value.2 == r.value.2
  {
  }

  lemma {:induction false} ConditionsUseHoles(sql: seq<Sql>, params: seq<Value>)
    requires ParseConditions(sql, params).Some?
    ensures var (_, rest, ps) := ParseConditions(sql, params).value;
            CountHoles(sql) - CountHoles(rest) == |params| - |ps|
    decreases |sql|
  {
    PrependKeepsRest();
    hide ParseList, Prepend;
    if sql != [] {
      match sql[0] {
        case AndIn(_) =>
          ListUsesHoles(sql[1..], params, Close);
          var (_, rest, ps) := ParseList(sql[1..], params, Close).value;
          ConditionsUseHoles(rest, ps);
        case AndSinceHole => ConditionsUseHoles(sql[1..], params[1..]);
        case AndUntilHole => ConditionsUseHoles(sql[1..], params[1..]);
        case AndFalse => ConditionsUseHoles(sql[1..], params);
        case AndContentHole =>
          assert sql[1..][1..] == sql[2..];
          ConditionsUseHoles(sql[2..], params[2..]);
        case AndTagNameHoleIn =>
          ListUsesHoles(sql[1..], params[1..], CloseTwice);
          var (_, rest, ps) := ParseList(sql[1..], params[1..], CloseTwice).value;
          ConditionsUseHoles(rest, ps);
        case _ =>
      }
    }
  }

  lemma BodyUsesHoles(verb: Verb, sql: seq<Sql>, params: seq<Value>)
    requires ParseBody(verb, sql, params).Some?
    ensures CountHoles(sql) == |params|
  {
    TailHoles();
    var body := if sql[0] == JoinTags then sql[1..] else sql;
    assert CountHoles(sql) == CountHoles(body) && CountHoles(body) == CountHoles(body[1..]);
    hide ParseConditions, CountHoles;
    ConditionsUseHoles(body[1..], params);
    var (_, tail, ps) := ParseConditions(body[1..], params).value;
    assert CountHoles(tail) == |ps|;
  }

  lemma TailHoles()
    ensures CountHoles([Close]) == 0 && CountHoles([OrderByEventTime]) == 0
    ensures CountHoles([OrderByEventTime, LimitHole]) == 1
  {
    assert [OrderByEventTime, LimitHole][1..] == [LimitHole];
  }

  /** A text that reads back has as many holes as there are parameters. */
  lemma HolesMatchParameters(sql: seq<Sql>, params: seq<Value>)
    requires ParseQuery(sql, params).Some?
    ensures CountHoles(sql) == |params|
  {
    hide ParseBody;
    if VerbOf(sql[0]).None? {
      NoHoles(sql);
    } else if sql[0] == DeleteIdIn {
      BodyUsesHoles(Delete, sql[1..], params);
    } else {
      assert sql[1..][1..] == sql[2..];
      BodyUsesHoles(VerbOf(sql[0]).value, sql[2..], params);
    }
  }

  lemma NoHoles(sql: seq<Sql>)
    requires 1 <= |sql| <= 2 && forall s :: s in sql ==> HolesOf(s) == 0
    ensures CountHoles(sql) == 0
  {
    if |sql| == 2 {
      assert CountHoles(sql[1..]) == HolesOf(sql[1]) + CountHoles(sql[1..][1..]);
    }
  }

  // ---- what the compiled queries return ----

  ghost predicate HasSomeTag(e: Event) { exists c, v :: HasTag(e, c, v) }

  /** The events a compiled query concerns: the join drops those with no single-letter tag at all. */
  ghost predicate Selected(f: Filter, e: Event) {
    Conditions(f, e) && (f.genericTags != map[] ==> HasSomeTag(e))
  }

  lemma TaggedIffListed(events: set<Event>, tags: set<TagRow>, e: Event)
    requires TagsListed(events, tags) && e in events
    ensures HasSomeTag(e) <==> exists t :: t in tags && e.id == t.eventId
  {
    if HasSomeTag(e) {
      var c, v :| HasTag(e, c, v);
      assert TagRow(e.id, [c], v) in tags;
    }
    if exists t :: t in tags && e.id == t.eventId {
      var t :| t in tags && e.id == t.eventId;
      var f, c :| f in events && t.eventId == f.id && t.name == [c] && HasTag(f, c, t.value);
      assert f == e;
    }
  }

  /** The rows of the compiled query are the selected events. */
  lemma RowsAreSelected(events: set<Event>, tags: set<TagRow>, f: Filter, verb: Verb, q: Query)
    requires TagsListed(events, tags) && CompiledFor(f, verb, q)
    ensures Rows(events, tags, q) == set e | e in events && Selected(f, e)
  {
    if f != EMPTY_FILTER {
      forall e | e in events
        ensures e in Rows(events, tags, q) <==> Selected(f, e)
      {
        TaggedIffListed(events, tags, e);
        assert HoldsAll(tags, e, q.clauses) <==> Conditions(f, e);
        if q.join && Selected(f, e) {
          var t :| t in tags && e.id == t.eventId;
          assert (e, t) in JoinedRows(events, tags, q.clauses);
        }
      }
    }
  }

  predicate TagSetsFilled(f: Filter) { forall c | c in f.genericTags :: f.genericTags[c] != {} }

  predicate TimesFit(f: Filter) {
    (f.since.Some? ==> f.since.value < I64_LIMIT) && (f.until.Some? ==> f.until.value < I64_LIMIT)
  }

  /** What the filter asks for, with SQLite's own notion of search; an empty search text asks for nothing. */
  ghost predicate Wanted(f: Filter, e: Event) {
    MatchesBase(f, e) && (f.search.Some? ==> f.search.value == "" || Finds(f.search.value, e))
  }

  /**
    With filled tag sets, times that fit and no empty search text, the join and the skipped
    conditions make no difference.
  */
  lemma SelectedIsWanted(f: Filter, e: Event)
    requires TagSetsFilled(f) && TimesFit(f) && f.search != Some("")
    ensures Selected(f, e) <==> Wanted(f, e)
  {
    forall c | c in f.genericTags
      ensures EmptyOr(f, c, e) <==> exists v :: v in f.genericTags[c] && HasTag(e, c, v)
    {
      assert f.genericTags[c] != {};
    }
    if Conditions(f, e) && f.genericTags != map[] {
      var c :| c in f.genericTags;
      assert EmptyOr(f, c, e);
      var v :| v in f.genericTags[c] && HasTag(e, c, v);
    }
  }

  lemma NewestFirstSize(rows: seq<Event>)
    requires NewestFirst(rows)
    ensures |set e | e in rows| == |rows|
  {
    DistinctSize(rows);
  }

  lemma {:induction false} DistinctSize(rows: seq<Event>)
    requires forall i, j :: 0 <= i < j < |rows| ==> rows[i] != rows[j]
    ensures |set e | e in rows| == |rows|
  {
    if rows != [] {
      var init, last := rows[..|rows| - 1], rows[|rows| - 1];
      DistinctSize(init);
      assert last !in init;
      assert (set e | e in rows) == (set e | e in init) + {last} by {
        assert rows == init + [last];
      }
    }
  }

  /** Cutting a list off keeps its newest part. */
  lemma CutMeaning(all: seq<Event>, limit: Option<nat>, result: seq<Event>)
    requires NewestFirst(all)
    requires result == if limit.Some? && limit.value < |all| then all[..limit.value] else all
    ensures NewestFirst(result) && |result| == if limit.Some? then Min(limit.value, |all|) else |all|
    ensures forall e :: e in result ==> e in all
    ensures forall e, o :: e in result && o in all && o !in result ==> o.createdAt <= e.createdAt
  {
    forall e, o | e in result && o in all && o !in result
      ensures o.createdAt <= e.createdAt
    {
      var i :| 0 <= i < |result| && result[i] == e;
      var j :| 0 <= j < |all| && all[j] == o;
      assert i < |result| <= j && all[i] == e;
    }
  }

  /**
    Whatever SQLite returns for a compiled SELECT: distinct wanted events only, as many
    as there are up to the limit, and none older than an omitted one.
  */
  lemma SelectMeaning(
      events: set<Event>, tags: set<TagRow>, f: Filter, verb: Verb, q: Query, result: seq<Event>)
    requires TagsListed(events, tags) && CompiledFor(f, verb, q) && (verb == Select || verb == Negentropy)
    requires TagSetsFilled(f) && TimesFit(f) && f.search != Some("")
    requires f.limit.Some? ==> f.limit.value < 2 * I64_LIMIT
    requires MayReturn(events, tags, q, result)
    ensures NewestFirst(result)
    ensures forall e :: e in result ==> e in events && Wanted(f, e)
    ensures var wanted := set e | e in events && Wanted(f, e);
            |result| == if f.limit.Some? && f.limit.value < I64_LIMIT then Min(f.limit.value, |wanted|) else |wanted|
    ensures forall e, o ::
            e in result && o in events && Wanted(f, o) && o !in result ==> o.createdAt <= e.createdAt
  {
    hide Selected, Wanted, TagsListed, Rows, Decides, NewestFirst, TagSetsFilled, TimesFit, Min;
    var all: seq<Event> :|
      && NewestFirst(all) && (set e | e in all) == Rows(events, tags, q)
      && result == if Limit(q).Some? && Limit(q).value < |all| then all[..Limit(q).value] else all;
    RowsAreSelected(events, tags, f, verb, q);
    forall e
      ensures Selected(f, e) <==> Wanted(f, e)
    {
      SelectedIsWanted(f, e);
    }
    var wanted := set e | e in events && Wanted(f, e);
    assert wanted == set e | e in all;
    NewestFirstSize(all);
    CutMeaning(all, Limit(q), result);
    assert forall e :: e in all <==> e in wanted;
    assert Limit(q) == if f.limit.Some? && f.limit.value < I64_LIMIT then f.limit else None;
  }

  /**
    A compiled COUNT reads the number of wanted events, whatever the limit, unless the limit
    is 0 and there is no row.
  */
  lemma CountMeaning(events: set<Event>, tags: set<TagRow>, f: Filter, q: Query)
    requires TagsListed(events, tags) && CompiledFor(f, Count, q)
    requires TagSetsFilled(f) && TimesFit(f) && f.search != Some("")
    requires f.limit.Some? ==> f.limit.value < 2 * I64_LIMIT
    ensures CountRows(events, tags, q)
            == if f.limit == Some(0) then [] else [|set e | e in events && Wanted(f, e)|]
  {
    hide Selected, Wanted, TagsListed, Rows, Decides, TagSetsFilled, TimesFit;
    RowsAreSelected(events, tags, f, Count, q);
    forall e
      ensures Selected(f, e) <==> Wanted(f, e)
    {
      SelectedIsWanted(f, e);
    }
    assert Rows(events, tags, q) == set e | e in events && Wanted(f, e);
    assert Limit(q) == Some(0) <==> f.limit == Some(0);
  }

  /** A compiled DELETE removes exactly what an unlimited SELECT of the same filter returns. */
  lemma DeleteMeaning(
      events: set<Event>, tags: set<TagRow>, f: Filter, delete: Query, select: Query,
        result: seq<Event>)
    requires TagsListed(events, tags)
    requires CompiledFor(f, Delete, delete) && CompiledFor(f.(limit := None), Select, select)
    requires MayReturn(events, tags, select, result)
    ensures Rows(events, tags, delete) == set e | e in result
  {
    var g := f.(limit := None);
    RowsAreSelected(events, tags, f, Delete, delete);
    RowsAreSelected(events, tags, g, Select, select);
    assert forall e :: Conditions(f, e) <==> Conditions(g, e);
  }

  lemma FirstInFront(e: Event, rest: seq<Event>, s: set<Event>)
    requires e in s && (forall f :: f in s - {e} ==> Before(e, f))
    requires NewestFirst(rest) && forall x :: x in rest <==> x in s - {e}
    ensures NewestFirst([e] + rest) && forall x :: x in [e] + rest <==> x in s
  {
    var all := [e] + rest;
    forall i, j | 0 <= i < j < |all|
      ensures all[i] != all[j] && all[i].createdAt >= all[j].createdAt
    {
      assert all[j] == rest[j - 1] && all[j] in rest && Before(e, all[j]);
      if i > 0 { assert all[i] == rest[i - 1]; }
    }
    assert forall x :: x in all <==> x == e || x in rest;
  }

  lemma NoRows()
    ensures NewestFirst([])
  {
  }

  /** Some result is always possible. */
  lemma {:induction false} SomeOrderExists(s: set<Event>) returns (all: seq<Event>)
    requires UniqueIds(s)
    ensures NewestFirst(all) && forall x :: x in all <==> x in s
    decreases |s|
  {
    hide NewestFirst;
    if s == {} {
      NoRows();
      all := [];
    } else {
      EventsOrdered(s);
      var e := LeastExists(Before, s);
      var rest := SomeOrderExists(s - {e});
      all := [e] + rest;
      assert forall f :: f in s - {e} ==> Before(e, f);
      FirstInFront(e, rest, s);
    }
  }

  // ---- when the compiled query and the filter part ways ----

  /** A stored row: the table admits positive 63-bit times only. */
  predicate Recordable(e: Event) { 0 < e.createdAt < I64_LIMIT }

  ghost predicate Agrees(f: Filter) {
    forall e :: Recordable(e) ==> (Selected(f, e) <==> Wanted(f, e))
  }

  lemma {:induction false} TagsForSets(m: map<char, set<string>>, keys: set<char>) returns (tags: seq<Tag>)
    requires keys <= m.Keys && forall c :: c in keys ==> m[c] != {} && IsLetter(c)
    ensures forall c :: c in keys ==> exists t, v :: t in tags && v in m[c] && t.name == [c] && t.content == Some(v)
    decreases |keys|
  {
    if keys == {} {
      tags := [];
    } else {
      var c :| c in keys;
      var rest := TagsForSets(m, keys - {c});
      var v :| v in m[c];
      var t := Tag([c], Some(v), Unread);
      tags := [t] + rest;
      assert t in tags;
      forall d | d in keys
        ensures exists t, v :: t in tags && v in m[d] && t.name == [d] && t.content == Some(v)
      {
        if d != c {
          var u, w :| u in rest && w in m[d] && u.name == [d] && u.content == Some(w);
          assert u in tags;
        }
      }
    }
  }

  predicate LettersOnly(f: Filter) { forall c | c in f.genericTags :: IsLetter(c) }

  /** An event at the given time that meets everything but the times, and has some tag. */
  lemma Sample(f: Filter, time: Timestamp) returns (e: Event)
    requires LettersOnly(f)
    ensures e.createdAt == time && HasSomeTag(e)
    ensures Admits(f.ids, e.id) && Admits(f.authors, e.author) && Admits(f.kinds, e.kind)
    ensures f.search.Some? ==> e.content == f.search.value
    ensures forall c :: c in f.genericTags ==> EmptyOr(f, c, e)
  {
    var id: EventId, author: PublicKey, kind: Kind := 0, "", 0;
    if f.ids.Some? && f.ids.value != {} { id :| id in f.ids.value; }
    if f.authors.Some? && f.authors.value != {} { author :| author in f.authors.value; }
    if f.kinds.Some? && f.kinds.value != {} { kind :| kind in f.kinds.value; }
    var filled := set c | c in f.genericTags && f.genericTags[c] != {};
    var tags := TagsForSets(f.genericTags, filled);
    var extra := Tag("a", Some(""), Unread);
    e := Event(id, author, time, kind, [extra] + tags, if f.search.Some? then f.search.value else "");
    assert extra in e.tags && ['a'] == "a";
    assert HasTag(e, 'a', "");
    forall c | c in f.genericTags
      ensures EmptyOr(f, c, e)
    {
      if f.genericTags[c] != {} {
        assert c in filled;
        var t, v :| t in tags && v in f.genericTags[c] && t.name == [c] && t.content == Some(v);
        assert t in e.tags;
        assert HasTag(e, c, v);
      }
    }
  }

  /**
    The compiled query skips a tag with no values; the filter then matches nothing. They
    agree just when no set is empty.
  */
  lemma EmptyTagSetsIff(f: Filter, time: Timestamp)
    requires LettersOnly(f) && TimesFit(f) && f.search.None?
    requires 0 < time < I64_LIMIT && (f.since.Some? ==> f.since.value <= time)
             && (f.until.Some? ==> time <= f.until.value)
    ensures Agrees(f) <==> TagSetsFilled(f)
  {
    if TagSetsFilled(f) {
      forall e | Recordable(e)
        ensures Selected(f, e) <==> Wanted(f, e)
      {
        SelectedIsWanted(f, e);
      }
    } else {
      var e := Sample(f, time);
      var c :| c in f.genericTags && f.genericTags[c] == {};
      assert !TagsMatch(f, e);
      assert Selected(f, e) && !Wanted(f, e);
    }
  }

  predicate Wraps(bound: Option<Timestamp>) { bound.Some? && bound.value >= I64_LIMIT }

  /** Both the query and the filter select nothing: an unreachable start and an end no stored time meets. */
  predicate NeverEither(f: Filter) {
    Wraps(f.since) && f.until.Some? && (Wraps(f.until) || f.until.value == 0)
  }

  /** An event that meets everything but the times meets the filter when it meets the times. */
  lemma SampleIsWanted(f: Filter, time: Timestamp) returns (e: Event)
    requires LettersOnly(f) && TagSetsFilled(f) && f.search.None? && 0 < time < I64_LIMIT
    ensures e.createdAt == time && Recordable(e)
    ensures Wanted(f, e) <==> InWindow(f.since, f.until, e)
    ensures Selected(f, e) <==>
            (f.since.Some? ==> AsI64(f.since.value) <= time) && (f.until.Some? ==> time <= AsI64(f.until.value))
  {
    e := Sample(f, time);
    forall c | c in f.genericTags
      ensures exists v :: v in f.genericTags[c] && HasTag(e, c, v)
    {
      assert EmptyOr(f, c, e) && f.genericTags[c] != {};
    }
    assert TagsMatch(f, e);
  }

  /**
    A bound past the signed range wraps to a negative one. The query and the filter agree
    just when no bound does, or when neither of them can select anything.
  */
  lemma WrappedTimesIff(f: Filter)
    requires LettersOnly(f) && TagSetsFilled(f) && f.search.None?
    ensures Agrees(f) <==> TimesFit(f) || NeverEither(f)
  {
    if TimesFit(f) {
      forall e | Recordable(e)
        ensures Selected(f, e) <==> Wanted(f, e)
      {
        SelectedIsWanted(f, e);
      }
    } else if !NeverEither(f) {
      if Wraps(f.since) {
        var e := SampleIsWanted(f, 1);
        assert Selected(f, e) && !Wanted(f, e);
      } else {
        var e := SampleIsWanted(f, I64_LIMIT - 1);
        assert !Selected(f, e) && Wanted(f, e);
      }
    }
  }

  /** An event the search finds in its tags and not in its content, where the filter looks. */
  predicate FoundByTagOnly(f: Filter, e: Event) {
    && f.search.Some? && MatchesBase(f, e)
    && TagContains(f.search.value, e) && !ContentMatches(f.search.value, e)
  }

  lemma WantedIsMatching(f: Filter, e: Event)
    ensures Wanted(f, e) <==> Matches(f, e) || FoundByTagOnly(f, e)
  {
    if f.search == Some("") {
      assert OccursAt("", e.content, 0);
    }
  }

  /** With filled tag sets, times that fit and no empty search text, only a search in tags selects more. */
  lemma SelectedIsFound(f: Filter, e: Event)
    requires TagSetsFilled(f) && TimesFit(f) && f.search != Some("")
    ensures Selected(f, e) <==> Matches(f, e) || FoundByTagOnly(f, e)
    ensures !(Matches(f, e) && FoundByTagOnly(f, e))
  {
    SelectedIsWanted(f, e);
    WantedIsMatching(f, e);
  }

  /** Of any stored events, the rows selected are the matches if and only if no event is found by a tag alone. */
  lemma SearchAgreesOnIff(f: Filter, events: set<Event>)
    requires TagSetsFilled(f) && TimesFit(f) && f.search != Some("")
    ensures (set e | e in events && Selected(f, e)) == Matching(f, events)
            <==> forall e :: e in events ==> !FoundByTagOnly(f, e)
  {
    hide Selected, Matches, FoundByTagOnly;
    forall e
      ensures Selected(f, e) <==> Matches(f, e) || FoundByTagOnly(f, e)
      ensures !(Matches(f, e) && FoundByTagOnly(f, e))
    {
      SelectedIsFound(f, e);
    }
    var rows := set e | e in events && Selected(f, e);
    assert forall e :: e in events ==> (e in rows <==> e in Matching(f, events) || FoundByTagOnly(f, e));
  }

  /** An empty search text asks for nothing, and no row meets the compiled one. They agree just when there is none. */
  lemma EmptySearchIff(f: Filter, time: Timestamp)
    requires LettersOnly(f) && TagSetsFilled(f) && TimesFit(f)
    requires 0 < time < I64_LIMIT && (f.since.Some? ==> f.since.value <= time)
             && (f.until.Some? ==> time <= f.until.value)
    ensures Agrees(f) <==> f.search != Some("")
  {
    if f.search != Some("") {
      forall e | Recordable(e)
        ensures Selected(f, e) <==> Wanted(f, e)
      {
        SelectedIsWanted(f, e);
      }
    } else {
      var e := SampleIsWanted(f.(search := None), time);
      assert Wanted(f, e) && !Selected(f, e);
    }
  }

  // ---- when the compiled query and the filter agree, for every filter ----

  /** Some storable instant lies between these bounds. */
  predicate Instants(low: int, high: int) { low < I64_LIMIT && 0 < high && low <= high }

  function LowOf(bound: Option<Timestamp>, cast: bool): int {
    match bound
    case None => 0
    case Some(t) => if cast then AsI64(t) else t
  }

  function HighOf(bound: Option<Timestamp>, cast: bool): int {
    match bound
    case None => I64_LIMIT
    case Some(t) => if cast then AsI64(t) else t
  }

  /** The filter's window, or the one compiled, holds a storable instant. */
  predicate Open(f: Filter, cast: bool) { Instants(LowOf(f.since, cast), HighOf(f.until, cast)) }

  lemma OpenInstant(f: Filter, cast: bool) returns (time: Timestamp)
    requires Open(f, cast)
    ensures 0 < time < I64_LIMIT && LowOf(f.since, cast) <= time <= HighOf(f.until, cast)
  {
    time := if LowOf(f.since, cast) <= 0 then 1 else LowOf(f.since, cast);
  }

  /** An event at the given time that meets whatever of the filter, and of the query, an event can meet. */
  lemma BestSample(f: Filter, time: Timestamp) returns (e: Event)
    requires LettersOnly(f) && 0 < time < I64_LIMIT
    ensures e.createdAt == time && Recordable(e)
    ensures Matches(f, e) <==> TagSetsFilled(f) && InWindow(f.since, f.until, e)
    ensures Selected(f, e) <==> f.search != Some("") && LowOf(f.since, true) <= time <= HighOf(f.until, true)
  {
    e := Sample(f, time);
    if f.search.Some? {
      assert OccursAt(f.search.value, e.content, 0);
    }
    hide ContentMatches, TagContains;
    if TagSetsFilled(f) {
      forall c | c in f.genericTags
        ensures exists v :: v in f.genericTags[c] && HasTag(e, c, v)
      {
        assert EmptyOr(f, c, e) && f.genericTags[c] != {};
      }
      assert TagsMatch(f, e);
    } else {
      var c :| c in f.genericTags && f.genericTags[c] == {};
      assert !TagsMatch(f, e);
    }
  }

  /** An event whose title is the text searched for, and whose content is empty. */
  lemma TitledSample(f: Filter, time: Timestamp) returns (e: Event)
    requires LettersOnly(f) && f.search.Some? && f.search.value != ""
    ensures e.createdAt == time && !Matches(f, e)
    ensures LowOf(f.since, true) <= time <= HighOf(f.until, true) && time < I64_LIMIT ==> Selected(f, e)
  {
    var base := Sample(f, time);
    var title := Tag("title", f.search, Unread);
    e := base.(tags := [title] + base.tags, content := "");
    assert OccursAt(f.search.value, f.search.value, 0);
    assert title in e.tags;
    assert !ContentMatches(f.search.value, e) && TagContains(f.search.value, e);
    MoreTags(base, e);
    hide ContentMatches, TagContains, HasTag;
    forall c | c in f.genericTags
      ensures EmptyOr(f, c, e)
    {
      assert EmptyOr(f, c, base);
    }
    assert HasSomeTag(e);
  }

  lemma MoreTags(a: Event, b: Event)
    requires forall t :: t in a.tags ==> t in b.tags
    ensures forall c, v :: HasTag(a, c, v) ==> HasTag(b, c, v)
  {
  }

  ghost predicate SelectsMatches(f: Filter) {
    forall e :: Recordable(e) ==> (Selected(f, e) <==> Matches(f, e))
  }

  /**
    The compiled query selects exactly the matching events, whatever is stored, if and only if:
    with an empty search text, nothing can match; with another one, nothing can match nor be
    selected, as the search finds texts in tags too; with a tag without values, nothing is
    selected; and otherwise no bound wraps, or nothing can match nor be selected.
  */
  lemma FilterAgreesIff(f: Filter)
    requires LettersOnly(f)
    ensures SelectsMatches(f) <==>
            if f.search == Some("") then !TagSetsFilled(f) || !Open(f, false)
            else if f.search.Some? then !Open(f, true) && (!TagSetsFilled(f) || !Open(f, false))
            else if !TagSetsFilled(f) then !Open(f, true)
            else TimesFit(f) || NeverEither(f)
  {
    if f.search == Some("") {
      EmptySearchAgreesIff(f);
    } else if f.search.Some? {
      SearchAgreesIff(f);
    } else if !TagSetsFilled(f) {
      EmptySetsAgreeIff(f);
    } else {
      TimesAgreeIff(f);
    }
  }

  /** Some storable event matches, unless a tag has no values or the window is shut. */
  lemma NothingMatchesIff(f: Filter)
    requires LettersOnly(f)
    ensures (forall e :: Recordable(e) ==> !Matches(f, e)) <==> !TagSetsFilled(f) || !Open(f, false)
  {
    if TagSetsFilled(f) && Open(f, false) {
      var time := OpenInstant(f, false);
      var e := BestSample(f, time);
      assert Matches(f, e);
    } else if !TagSetsFilled(f) {
      var c :| c in f.genericTags && f.genericTags[c] == {};
      assert forall e :: !TagsMatch(f, e);
    }
  }

  lemma EmptySearchAgreesIff(f: Filter)
    requires LettersOnly(f) && f.search == Some("")
    ensures SelectsMatches(f) <==> !TagSetsFilled(f) || !Open(f, false)
  {
    NothingMatchesIff(f);
    assert forall e :: !Selected(f, e);
  }

  /** The content is not all a search looks into. */
  lemma SearchAgreesIff(f: Filter)
    requires LettersOnly(f) && f.search.Some? && f.search.value != ""
    ensures SelectsMatches(f) <==> !Open(f, true) && (!TagSetsFilled(f) || !Open(f, false))
  {
    if Open(f, true) {
      var time := OpenInstant(f, true);
      var e := TitledSample(f, time);
      assert Recordable(e) && Selected(f, e) && !Matches(f, e);
    } else {
      NothingMatchesIff(f);
      assert forall e :: Recordable(e) ==> !Selected(f, e);
    }
  }

  lemma EmptySetsAgreeIff(f: Filter)
    requires LettersOnly(f) && f.search.None? && !TagSetsFilled(f)
    ensures SelectsMatches(f) <==> !Open(f, true)
  {
    var c :| c in f.genericTags && f.genericTags[c] == {};
    assert forall e :: !TagsMatch(f, e);
    if Open(f, true) {
      var time := OpenInstant(f, true);
      var e := BestSample(f, time);
      assert Selected(f, e);
    }
  }

  lemma TimesAgreeIff(f: Filter)
    requires LettersOnly(f) && f.search.None? && TagSetsFilled(f)
    ensures SelectsMatches(f) <==> TimesFit(f) || NeverEither(f)
  {
    if TimesFit(f) {
      forall e | Recordable(e)
        ensures Selected(f, e) <==> Matches(f, e)
      {
        SelectedIsFound(f, e);
      }
    } else if NeverEither(f) {
      assert forall e :: Recordable(e) ==> !Selected(f, e) && !Matches(f, e);
    } else if Wraps(f.since) {
      var e := BestSample(f, 1);
      assert Selected(f, e) && !Matches(f, e);
    } else {
      var e := BestSample(f, I64_LIMIT - 1);
      assert !Selected(f, e) && Matches(f, e);
    }
  }
}
