/**
  The tokenizer: an iterator with three pending slots over the scanner's matches.
  `TokensFrom` is the whole token list, read off the matches; the iterator yields
  exactly that list, one token a call.
*/
module Tokenizer {
  import opened Wrappers
  import opened Utf8
  import opened Scanner

  /** A token keeps the source text it stands for. */
  datatype Token =
    | NostrToken(uri: Text)
    | UrlToken(url: Text)
    | HashtagToken(name: Text)
    | TextToken(text: Text)
    | LineBreakToken
    | WhitespaceToken
  {
    function Source(): Text {
      match this
      case NostrToken(uri) => uri
      case UrlToken(url) => url
      case HashtagToken(name) => [HASH] + name
      case TextToken(text) => text
      case LineBreakToken => [LINE_BREAK]
      case WhitespaceToken => [SPACE]
    }

    /** Produced only when the `text` option is on. */
    predicate IsTextual() { TextToken? || LineBreakToken? || WhitespaceToken? }
  }

  function Sources(ts: seq<Token>): Text {
    if ts == [] then [] else ts[0].Source() + Sources(ts[1..])
  }

  function DropTextual(ts: seq<Token>): seq<Token> {
    if ts == [] then []
    else (if ts[0].IsTextual() then [] else [ts[0]]) + DropTextual(ts[1..])
  }

  /** How a piece of plain text splits: leading line breaks and spaces one by one, one trailing space. */
  function TextTokens(s: Text): (ts: seq<Token>)
    requires s != []
    ensures ts != []
  {
    if s[0] == LINE_BREAK then [LineBreakToken] + if |s| == 1 then [] else TextTokens(s[1..])
    else if s[0] == SPACE then [WhitespaceToken] + if |s| == 1 then [] else TextTokens(s[1..])
    else if |s| > 1 && s[|s| - 1] == SPACE then [TextToken(s[..|s| - 1]), WhitespaceToken]
    else [TextToken(s)]
  }

  function OptionalText(opts: Options, s: Text): seq<Token> {
    if opts.text && s != [] then TextTokens(s) else []
  }

  function MatchTokens(foreign: Foreign, opts: Options, s: Text, m: Match): seq<Token>
    requires m.start < m.end <= |s|
  {
    var data := s[m.start..m.end];
    match m.kind
    case Url => if foreign.isUrl(data) then [UrlToken(data)] else OptionalText(opts, data)
    case NostrUri => if foreign.isNip21(data) then [NostrToken(data)] else OptionalText(opts, data)
    case Hashtag => if |data| > 1 then [HashtagToken(data[1..])] else OptionalText(opts, data)
    case LineBreak => [LineBreakToken]
  }

  /** All tokens from `p` on, nothing before `p` being left to emit. */
  function TokensFrom(foreign: Foreign, opts: Options, s: Text, p: nat): seq<Token>
    requires p <= |s|
    decreases |s| - p
  {
    match NextMatch(foreign, opts, s, p)
    case None => OptionalText(opts, s[p..])
    case Some(m) =>
      OptionalText(opts, s[p..m.start]) + MatchTokens(foreign, opts, s, m) + TokensFrom(foreign, opts, s, m.end)
  }

  // ---- losslessness ----

  lemma {:induction false} SourcesConcat(a: seq<Token>, b: seq<Token>)
    ensures Sources(a + b) == Sources(a) + Sources(b)
  {
    hide Token.Source;
    if a == [] {
      assert a + b == b;
    } else {
      SourcesConcat(a[1..], b);
      assert (a + b)[1..] == a[1..] + b;
      assert Sources(a + b) == a[0].Source() + (Sources(a[1..]) + Sources(b));
    }
  }

  lemma SourcesOne(t: Token)
    ensures Sources([t]) == t.Source()
  {
    assert [t][1..] == [];
  }

  lemma {:induction false} TextTokensLossless(s: Text)
    requires s != []
    ensures Sources(TextTokens(s)) == s
  {
    if s[0] == LINE_BREAK || s[0] == SPACE {
      if |s| > 1 {
        TextTokensLossless(s[1..]);
        assert s == [s[0]] + s[1..];
        assert TextTokens(s)[1..] == TextTokens(s[1..]);
      } else {
        assert s == [s[0]];
        assert TextTokens(s)[1..] == [];
      }
    } else if |s| > 1 && s[|s| - 1] == SPACE {
      var a, b := TextToken(s[..|s| - 1]), WhitespaceToken;
      assert TextTokens(s) == [a] + [b];
      SourcesConcat([a], [b]);
      SourcesOne(a);
      SourcesOne(b);
      assert s == s[..|s| - 1] + [SPACE];
    } else {
      assert [TextToken(s)][1..] == [];
    }
  }

  lemma MatchTokensLossless(foreign: Foreign, opts: Options, s: Text, p: nat)
    requires opts.text && p < |s| && MatchAt(foreign, opts, s, p).Some?
    ensures var m := MatchAt(foreign, opts, s, p).value;
            Sources(MatchTokens(foreign, opts, s, m)) == s[m.start..m.end]
  {
    var m := MatchAt(foreign, opts, s, p).value;
    var data := s[m.start..m.end];
    TextTokensLossless(data);
    var ts := MatchTokens(foreign, opts, s, m);
    if |ts| == 1 {
      assert ts[1..] == [];
      if m.kind == Hashtag {
        assert data == [HASH] + data[1..];
      }
    }
  }

  /** With text on, the source texts of the tokens put together are the text. */
  lemma {:induction false} Lossless(foreign: Foreign, opts: Options, s: Text, p: nat)
    requires Valid(s) && p <= |s| && Boundary(s, p) && opts.text
    ensures Sources(TokensFrom(foreign, opts, s, p)) == s[p..]
    decreases |s| - p
  {
    hide NextMatch, MatchTokens, MatchAt, Valid, Boundary, TextTokens;
    NextMatchSafe(foreign, opts, s, p);
    match NextMatch(foreign, opts, s, p) {
      case None =>
        if p < |s| { TextTokensLossless(s[p..]); }
      case Some(m) =>
        var before, here, after :=
          OptionalText(opts, s[p..m.start]), MatchTokens(foreign, opts, s, m), TokensFrom(foreign, opts, s, m.end);
        assert Sources(before) == s[p..m.start] by {
          if p < m.start { TextTokensLossless(s[p..m.start]); }
        }
        MatchTokensLossless(foreign, opts, s, m.start);
        Lossless(foreign, opts, s, m.end);
        Assemble(s, p, m, before, here, after);
    }
  }

  lemma Assemble(s: Text, p: nat, m: Match, before: seq<Token>, here: seq<Token>, after: seq<Token>)
    requires p <= m.start <= m.end <= |s|
    requires Sources(before) == s[p..m.start] && Sources(here) == s[m.start..m.end] && Sources(after) == s[m.end..]
    ensures Sources(before + here + after) == s[p..]
  {
    SourcesConcat(before, here);
    SourcesConcat(before + here, after);
    hide Sources;
    assert s[p..] == s[p..m.start] + s[m.start..m.end] + s[m.end..];
  }

  predicate NonEmpty(t: Token) {
    (t.TextToken? ==> t.text != []) && (t.HashtagToken? ==> t.name != []) &&
    (t.UrlToken? ==> t.url != []) && (t.NostrToken? ==> t.uri != [])
  }

  lemma {:induction false} TextTokensNonEmpty(s: Text)
    requires s != []
    ensures forall t :: t in TextTokens(s) ==> NonEmpty(t) && t.IsTextual()
  {
    if |s| > 1 {
      TextTokensNonEmpty(s[1..]);
    }
  }

  /** No token is empty, whatever the options. */
  lemma {:induction false} TokensNonEmpty(foreign: Foreign, opts: Options, s: Text, p: nat)
    requires p <= |s|
    ensures forall t :: t in TokensFrom(foreign, opts, s, p) ==> NonEmpty(t)
    decreases |s| - p
  {
    match NextMatch(foreign, opts, s, p) {
      case None =>
        if p < |s| { TextTokensNonEmpty(s[p..]); }
      case Some(m) =>
        if p < m.start { TextTokensNonEmpty(s[p..m.start]); }
        TextTokensNonEmpty(s[m.start..m.end]);
        TokensNonEmpty(foreign, opts, s, m.end);
    }
  }

  // ---- the text option only filters ----

  lemma DropFirst(t: Token, ts: seq<Token>)
    ensures DropTextual([t] + ts) == (if t.IsTextual() then [] else [t]) + DropTextual(ts)
  {
    assert ([t] + ts)[1..] == ts;
  }

  lemma {:induction false} DropConcat(a: seq<Token>, b: seq<Token>)
    ensures DropTextual(a + b) == DropTextual(a) + DropTextual(b)
  {
    hide Token.IsTextual;
    if a == [] {
      assert a + b == b;
    } else {
      hide DropTextual;
      var t, rest := a[0], a[1..];
      assert a == [t] + rest && a + b == [t] + (rest + b);
      DropFirst(t, rest);
      DropFirst(t, rest + b);
      DropConcat(rest, b);
    }
  }

  lemma DropThree(a: seq<Token>, b: seq<Token>, c: seq<Token>)
    ensures DropTextual(a + b + c) == DropTextual(a) + DropTextual(b) + DropTextual(c)
  {
    hide DropTextual;
    DropConcat(a, b);
    DropConcat(a + b, c);
  }

  lemma {:induction false} DropAllTextual(ts: seq<Token>)
    requires forall t :: t in ts ==> t.IsTextual()
    ensures DropTextual(ts) == []
  {
    if ts != [] {
      DropAllTextual(ts[1..]);
    }
  }

  lemma DropOptionalText(opts: Options, s: Text)
    ensures DropTextual(OptionalText(opts, s)) == []
  {
    if opts.text && s != [] {
      TextTokensNonEmpty(s);
      DropAllTextual(TextTokens(s));
    }
  }

  /** Nothing but a line break matches at a line break. */
  lemma OnlyLineBreak(foreign: Foreign, opts: Options, s: Text, p: nat)
    requires p < |s| && s[p] == LINE_BREAK && !opts.text
    ensures MatchAt(foreign, opts, s, p).None? && Skip(s, p) == 1
  {
    assert "nostr:"[0] == 'n';
    assert !Is(s[p + 0], "nostr:"[0]);
    assert !StandsAt(s, p, "nostr:");
  }

  lemma LineBreakFirst(foreign: Foreign, opts: Options, s: Text, p: nat)
    requires p < |s| && s[p] == LINE_BREAK && opts.text
    ensures MatchAt(foreign, opts, s, p) == Some(Match(LineBreak, p, p + 1))
  {
  }

  /** Elsewhere the text option makes no difference to the scanner. */
  lemma SameMatch(foreign: Foreign, opts: Options, s: Text, p: nat)
    requires p < |s| && s[p] != LINE_BREAK
    ensures MatchAt(foreign, opts, s, p) == MatchAt(foreign, opts.(text := false), s, p)
    ensures MatchAt(foreign, opts, s, p).Some? ==> MatchAt(foreign, opts, s, p).value.kind != LineBreak
  {
  }

  /** Without text the scanner finds the first match that is not a line break. */
  lemma {:induction false} NextWithoutText(foreign: Foreign, opts: Options, s: Text, p: nat)
    requires p <= |s| && opts.text
    ensures var on, off := NextMatch(foreign, opts, s, p), NextMatch(foreign, opts.(text := false), s, p);
            && (on.None? ==> off.None?)
            && (on.Some? && on.value.kind != LineBreak ==> off == on)
            && (on.Some? && on.value.kind == LineBreak ==>
                  off == NextMatch(foreign, opts.(text := false), s, on.value.end))
    decreases |s| - p
  {
    hide MatchAt, Skip;
    if p < |s| {
      if s[p] == LINE_BREAK {
        OnlyLineBreak(foreign, opts.(text := false), s, p);
        LineBreakFirst(foreign, opts, s, p);
      } else {
        SameMatch(foreign, opts, s, p);
      }
      if s[p] != LINE_BREAK && MatchAt(foreign, opts, s, p).None? {
        NextWithoutText(foreign, opts, s, p + Skip(s, p));
      }
    }
  }

  /** Turning text off gives the same tokens as dropping the textual ones afterwards. */
  lemma {:induction false} TextOptionFilters(foreign: Foreign, opts: Options, s: Text, p: nat)
    requires p <= |s| && opts.text
    ensures DropTextual(TokensFrom(foreign, opts, s, p)) == TokensFrom(foreign, opts.(text := false), s, p)
    decreases |s| - p
  {
    hide NextMatch, MatchTokens, OptionalText, DropTextual;
    var off := opts.(text := false);
    NextWithoutText(foreign, opts, s, p);
    NoOptionalText(off);
    match NextMatch(foreign, opts, s, p) {
      case None =>
        DropOptionalText(opts, s[p..]);
      case Some(m) =>
        var before, here, after :=
          OptionalText(opts, s[p..m.start]), MatchTokens(foreign, opts, s, m), TokensFrom(foreign, opts, s, m.end);
        DropThree(before, here, after);
        DropOptionalText(opts, s[p..m.start]);
        TextOptionFilters(foreign, opts, s, m.end);
        DropMatch(foreign, opts, s, m);
        assert DropTextual(TokensFrom(foreign, opts, s, p)) == DropTextual(here) + TokensFrom(foreign, off, s, m.end);
        if m.kind == LineBreak {
          assert TokensFrom(foreign, off, s, p) == TokensFrom(foreign, off, s, m.end);
        }
    }
  }

  lemma NoOptionalText(opts: Options)
    requires !opts.text
    ensures forall t :: OptionalText(opts, t) == []
  {
  }

  lemma DropMatch(foreign: Foreign, opts: Options, s: Text, m: Match)
    requires opts.text && m.start < m.end <= |s|
    ensures DropTextual(MatchTokens(foreign, opts, s, m)) ==
            if m.kind == LineBreak then [] else MatchTokens(foreign, opts.(text := false), s, m)
  {
    var ts := MatchTokens(foreign, opts, s, m);
    DropOptionalText(opts, s[m.start..m.end]);
    if |ts| == 1 {
      assert ts[1..] == [];
    }
  }

  // ---- the iterator ----

  class NostrParserIter {
    const foreign: Foreign
    const s: Text
    const matches: FindMatches
    var pendingMatch: Option<Match>
    var pendingText: Option<Text>
    var pendingToken: Option<Token>
    var lastMatchEnd: nat

    constructor (foreign: Foreign, s: Text)
      requires Utf8.Valid(s)
      ensures Valid() && fresh(this) && fresh(matches)
      ensures this.foreign == foreign && this.s == s && matches.opts == Options(true, true, true, true)
      ensures AtStart()
    {
      this.foreign, this.s := foreign, s;
      matches := new FindMatches(foreign, s);
      pendingMatch, pendingText, pendingToken, lastMatchEnd := None, None, None, 0;
      new;
      BoundaryStartsChar(s, 0, |s|);
      if |s| > 0 { StartIsBoundary(s); }
    }

    static lemma StartIsBoundary(s: Text)
      requires Utf8.Valid(s) && |s| > 0
      ensures Boundary(s, 0)
    {
      assert CharLen(s, 0) > 0;
    }

    ghost predicate Valid()
      reads this, matches
    {
      && matches.foreign == foreign && matches.s == s
      && matches.Ready()
      && lastMatchEnd <= |s|
      && (pendingText.Some? ==> pendingText.value != [] && Utf8.Valid(pendingText.value))
      && (pendingMatch.Some? ==>
            && pendingMatch.value.start < pendingMatch.value.end == matches.pos
            && Boundary(s, pendingMatch.value.start)
            && (pendingMatch.value.kind == Hashtag ==> s[pendingMatch.value.start] == HASH))
      && (pendingMatch.None? && matches.opts.text ==> lastMatchEnd == matches.pos)
    }

    /** What the token and text slots still hold. */
    ghost function Parked(): seq<Token>
      requires pendingText.Some? ==> pendingText.value != []
      reads this
    {
      OneToken(pendingToken) + ManyTokens(pendingText)
    }

    /** What comes after the parked tokens. */
    ghost function Upcoming(): seq<Token>
      requires Valid()
      reads this, matches
    {
      (if pendingMatch.Some? then MatchTokens(foreign, matches.opts, s, pendingMatch.value) else []) +
      TokensFrom(foreign, matches.opts, s, matches.pos)
    }

    /** The tokens this iterator has yet to yield. */
    ghost function Remaining(): seq<Token>
      requires Valid()
      reads this, matches
    {
      Parked() + Upcoming()
    }

    ghost predicate AtStart()
      reads this, matches
    {
      matches.pos == 0 && lastMatchEnd == 0 && pendingMatch.None? && pendingText.None? && pendingToken.None?
    }

    method SetOptions(opts: Options)
      requires Valid() && AtStart()
      modifies matches`opts
      ensures Valid() && AtStart() && matches.opts == opts
      ensures Remaining() == TokensFrom(foreign, opts, s, 0)
    {
      matches.opts := opts;
    }

    /** Yields the first token of a piece of text and parks the rest in the pending slots. */
    method HandleStrAsText(text: Text) returns (t: Token)
      requires text != [] && Utf8.Valid(text) && pendingText.None? && pendingToken.None?
      modifies this`pendingText, this`pendingToken
      ensures pendingText.Some? ==> pendingText.value != [] && Utf8.Valid(pendingText.value)
      ensures TextTokens(text) == [t] + Parked()
    {
      if text[0] == LINE_BREAK || text[0] == SPACE {
        if |text| > 1 {
          AsciiAt(text, 0);
          SliceValid(text, 1, |text|);
          pendingText := Some(Slice(text, 1, |text|));
          assert text[1..|text|] == text[1..];
          assert [] + TextTokens(text[1..]) == TextTokens(text[1..]);
        } else {
          assert Parked() == [];
        }
        t := if text[0] == LINE_BREAK then LineBreakToken else WhitespaceToken;
      } else if |text| > 1 && text[|text| - 1] == SPACE {
        AsciiAt(text, |text| - 1);
        StartIsBoundary(text);
        pendingToken := Some(WhitespaceToken);
        assert Parked() == [WhitespaceToken];
        t := TextToken(Slice(text, 0, |text| - 1));
      } else {
        assert Parked() == [];
        t := TextToken(text);
      }
    }

    /** Handles a match whose preceding text is already out; `None` asks for another round. */
    method HandleMatch(m: Match) returns (r: Option<Token>)
      requires Utf8.Valid(s) && m.start < m.end && Boundary(s, m.start) && Boundary(s, m.end)
      requires matches.s == s && (m.kind == Hashtag ==> s[m.start] == HASH)
      requires pendingText.None? && pendingToken.None?
      modifies this`pendingText, this`pendingToken, this`lastMatchEnd
      ensures lastMatchEnd == m.end
      ensures pendingText.Some? ==> pendingText.value != [] && Utf8.Valid(pendingText.value)
      ensures MatchTokens(foreign, matches.opts, s, m) == OneToken(r) + Parked()
      ensures r.None? ==> pendingToken.None? && pendingText.None? && !matches.opts.text
    {
      lastMatchEnd := m.end;
      var data := Slice(s, m.start, m.end);
      SliceValid(s, m.start, m.end);
      assert Parked() == [];
      r := None;
      match m.kind {
        case Url => if foreign.isUrl(data) { return Some(UrlToken(data)); }
        case NostrUri => if foreign.isNip21(data) { return Some(NostrToken(data)); }
        case Hashtag =>
          if |data| > 1 {
            AsciiAt(data, 0);
            assert data[1..|data|] == data[1..];
            return Some(HashtagToken(Slice(data, 1, |data|)));
          }
        case LineBreak => return Some(LineBreakToken);
      }
      if matches.opts.text {
        var t := HandleStrAsText(data);
        r := Some(t);
      }
    }

    /** One step of the iterator: the head of the remaining tokens, and `None` once there is none. */
    method Next() returns (r: Option<Token>)
      requires Valid()
      modifies this, matches`pos
      decreases |s| - matches.pos, 2
      ensures Valid() && matches.pos >= old(matches.pos)
      ensures old(Remaining()) == OneToken(r) + Remaining()
      ensures r.None? ==> Remaining() == []
    {
      hide TokensFrom, MatchTokens, TextTokens, Utf8.Valid, Boundary;
      if pendingToken.Some? || pendingText.Some? {
        r := TakeParked();
        AssociateThree(OneToken(r), Parked(), Upcoming());
        return;
      }
      assert old(Remaining()) == old(Upcoming());
      if pendingMatch.Some? {
        r := NextPending();
      } else {
        r := NextFromMatches();
      }
    }

    /** Yields the parked token, or the first token of the parked text. */
    method TakeParked() returns (r: Option<Token>)
      requires Valid() && (pendingToken.Some? || pendingText.Some?)
      modifies this`pendingToken, this`pendingText
      ensures Valid() && Upcoming() == old(Upcoming())
      ensures r.Some? && old(Parked()) == OneToken(r) + Parked()
    {
      hide TokensFrom, MatchTokens, TextTokens, Utf8.Valid, Boundary;
      if pendingToken.Some? {
        r, pendingToken := pendingToken, None;
        return;
      }
      var text := pendingText.value;
      pendingText := None;
      var t := HandleStrAsText(text);
      r := Some(t);
    }

    /** Handles the match whose preceding text was yielded the time before. */
    method NextPending() returns (r: Option<Token>)
      requires Valid() && pendingToken.None? && pendingText.None? && pendingMatch.Some?
      modifies this, matches`pos
      decreases |s| - matches.pos, 1
      ensures Valid() && matches.pos >= old(matches.pos)
      ensures old(Upcoming()) == OneToken(r) + Remaining()
      ensures r.None? ==> Remaining() == []
    {
      hide TokensFrom, MatchTokens, TextTokens, Utf8.Valid;
      var m := pendingMatch.value;
      ghost var rest := TokensFrom(foreign, matches.opts, s, matches.pos);
      pendingMatch := None;
      r := HandleMatch(m);
      assert Upcoming() == rest;
      assert old(Upcoming()) == OneToken(r) + Parked() + rest;
      if r.None? {
        assert Parked() == [];
        r := NextFromMatches();
      } else {
        assert OneToken(r) + Parked() + rest == OneToken(r) + (Parked() + rest);
      }
    }

    /** Asks the scanner for the next match. */
    method NextFromMatches() returns (r: Option<Token>)
      requires Valid() && pendingToken.None? && pendingText.None? && pendingMatch.None?
      modifies this, matches`pos
      decreases |s| - matches.pos, 0
      ensures Valid() && matches.pos >= old(matches.pos)
      ensures old(Upcoming()) == OneToken(r) + Remaining()
      ensures r.None? ==> Remaining() == []
    {
      hide MatchTokens, TextTokens, Utf8.Valid, Boundary, NextMatch, OptionalText;
      ghost var from := matches.pos;
      ghost var upcoming := Upcoming();
      assert upcoming == TokensFrom(foreign, matches.opts, s, from);
      var next := matches.Next();
      match next {
        case Some(m) =>
          ghost var rest := TokensFrom(foreign, matches.opts, s, m.end);
          ghost var here := MatchTokens(foreign, matches.opts, s, m);
          if matches.opts.text && m.start > lastMatchEnd {
            r := ParkMatch(m);
            AssociateFour(OneToken(r), Parked(), here, rest);
            return;
          }
          NoText(matches.opts, s[from..m.start]);
          assert upcoming == here + rest;
          r := HandleMatch(m);
          assert Upcoming() == rest;
          AssociateThree(OneToken(r), Parked(), rest);
          if r.None? {
            assert Parked() == [];
            r := NextFromMatches();
          }
        case None =>
          if !matches.opts.text {
            NoText(matches.opts, s[from..]);
            NoText(matches.opts, s[lastMatchEnd..]);
          }
          r := NextTail();
      }
    }

    static lemma NoText(opts: Options, text: Text)
      requires !opts.text || text == []
      ensures OptionalText(opts, text) == []
    {
    }

    static lemma AssociateThree(a: seq<Token>, b: seq<Token>, c: seq<Token>)
      ensures a + b + c == a + (b + c)
    {
    }

    static lemma AssociateFour(a: seq<Token>, b: seq<Token>, c: seq<Token>, d: seq<Token>)
      ensures a + b + c + d == a + (b + (c + d))
    {
    }

    /** Yields the text before a match and keeps the match for later. */
    method ParkMatch(m: Match) returns (r: Option<Token>)
      requires Utf8.Valid(s) && Boundary(s, lastMatchEnd) && Boundary(s, m.start) && lastMatchEnd < m.start <= |s|
      requires pendingToken.None? && pendingText.None? && matches.opts.text && matches.s == s
      modifies this`pendingToken, this`pendingText, this`pendingMatch
      ensures pendingMatch == Some(m) && r.Some?
      ensures pendingText.Some? ==> pendingText.value != [] && Utf8.Valid(pendingText.value)
      ensures OptionalText(matches.opts, s[lastMatchEnd..m.start]) == OneToken(r) + Parked()
    {
      hide TextTokens, Utf8.Valid;
      pendingMatch := Some(m);
      SliceValid(s, lastMatchEnd, m.start);
      var t := HandleStrAsText(Slice(s, lastMatchEnd, m.start));
      r := Some(t);
    }

    /** Yields the text behind the last match. */
    method NextTail() returns (r: Option<Token>)
      requires pendingToken.None? && pendingText.None? && pendingMatch.None?
      requires matches.s == s && matches.foreign == foreign && matches.Ready() && matches.pos == |s|
      requires lastMatchEnd <= |s| && (matches.opts.text ==> Boundary(s, lastMatchEnd))
      modifies this
      ensures Valid() && matches.opts == old(matches.opts)
      ensures OptionalText(matches.opts, s[old(lastMatchEnd)..]) == OneToken(r) + Remaining()
      ensures r.None? ==> Remaining() == []
    {
      hide TextTokens, Utf8.Valid;
      assert TokensFrom(foreign, matches.opts, s, |s|) == [];
      assert Parked() == [];
      if !matches.opts.text {
        assert Upcoming() == [];
        return None;
      }
      if lastMatchEnd >= |s| {
        assert Upcoming() == [];
        return None;
      }
      SliceValid(s, lastMatchEnd, |s|);
      var data := Slice(s, lastMatchEnd, |s|);
      assert data == s[lastMatchEnd..];
      lastMatchEnd := |s|;
      var t := HandleStrAsText(data);
      r := Some(t);
      assert Upcoming() == [];
    }
  }

  function OneToken(t: Option<Token>): seq<Token> { if t.Some? then [t.value] else [] }

  function ManyTokens(text: Option<Text>): seq<Token>
    requires text.Some? ==> text.value != []
  {
    if text.Some? then TextTokens(text.value) else []
  }

  /** Draining the iterator yields exactly the tokens of the text. */
  method Parse(foreign: Foreign, opts: Options, s: Text) returns (tokens: seq<Token>)
    requires Utf8.Valid(s)
    ensures tokens == TokensFrom(foreign, opts, s, 0)
  {
    hide TokensFrom, MatchTokens, TextTokens, Utf8.Valid, Boundary, NextMatch;
    hide NostrParserIter.Parked, NostrParserIter.Upcoming;
    var iter := new NostrParserIter(foreign, s);
    iter.SetOptions(opts);
    tokens := [];
    var t := iter.Next();
    while t.Some?
      invariant iter.Valid() && fresh(iter) && fresh(iter.matches)
      invariant tokens + OneToken(t) + iter.Remaining() == TokensFrom(foreign, opts, s, 0)
      invariant t.None? ==> iter.Remaining() == []
      decreases |OneToken(t)| + |iter.Remaining()|
    {
      ghost var remaining := iter.Remaining();
      tokens := tokens + [t.value];
      t := iter.Next();
      NostrParserIter.AssociateThree(tokens, OneToken(t), iter.Remaining());
    }
  }
}
