/**
  The scanner that finds line breaks, hashtags, nostr URIs and URLs in a text.
  `MatchAt` says what matches at a position, by maximal runs; `FindMatches` is the
  byte scanner with its cursor and loops.
*/
module Scanner {
  import opened Wrappers
  import opened Utf8

  type Text = seq<Byte>

  datatype Options = Options(nostrUris: bool, urls: bool, hashtags: bool, text: bool)

  /** The parsers of other libraries, and whether encrypted keys are compiled in. */
  datatype Foreign = Foreign(isUrl: Text -> bool, isNip21: Text -> bool, isFe32: Byte -> bool, nip49: bool)

  datatype MatchType = NostrUri | Url | Hashtag | LineBreak

  datatype Match = Match(kind: MatchType, start: nat, end: nat)

  // ---- byte and character classes ----

  predicate IsAlphabetic(b: Byte) { 65 <= b <= 90 || 97 <= b <= 122 }

  predicate IsAlphanumeric(b: Byte) { IsAlphabetic(b) || 48 <= b <= 57 }

  predicate IsAsciiWhitespace(b: Byte) { b == 32 || b == 9 || b == 10 || b == 12 || b == 13 }

  /** The byte is the given ASCII character. */
  predicate Is(b: Byte, c: char) { b < 0x80 && b as char == c }

  predicate IsUnicodeWhitespace(c: nat) {
    9 <= c <= 13 || c == 0x20 || c == 0x85 || c == 0xA0 || c == 0x1680 || 0x2000 <= c <= 0x200A ||
    c == 0x2028 || c == 0x2029 || c == 0x202F || c == 0x205F || c == 0x3000
  }

  predicate IsControl(c: nat) { c < 0x20 || 0x7F <= c < 0xA0 }

  predicate IsForbiddenMark(c: char) {
    c == '.' || c == ',' || c == '!' || c == '?' || c == '(' || c == ')' || c == '[' || c == ']' || c == '{' ||
    c == '}' || c == '\"' || c == '\'' || c == '@' || c == '#' || c == ';' || c == ':' || c == '&' ||
    c == '*' || c == '+' || c == '=' || c == '<' || c == '>' || c == '/' || c == '\\' || c == '|' ||
    c == '^' || c == '~' || c == '%' || c == '$' || c == '`'
  }

  predicate IsForbiddenInHashtag(c: nat) {
    IsUnicodeWhitespace(c) || IsControl(c) || (c < 0x80 && IsForbiddenMark(c as char))
  }

  predicate IsUrlMark(c: char) {
    c == '-' || c == '.' || c == '_' || c == '~' || c == ':' || c == '/' || c == '?' || c == '#' || c == '[' ||
    c == ']' || c == '@' || c == '!' || c == '$' || c == '&' || c == '\'' || c == '(' || c == ')' ||
    c == '*' || c == '+' || c == ',' || c == ';' || c == '=' || c == '%'
  }

  predicate IsUrlByte(b: Byte) { IsAlphanumeric(b) || (b < 0x80 && IsUrlMark(b as char)) }

  predicate IsTrailingMark(c: char) {
    c == '.' || c == ',' || c == ';' || c == ':' || c == '!' || c == '?' || c == ')' || c == ']' || c == '}'
  }

  predicate IsTrailingPunctuation(b: Byte) { b < 0x80 && IsTrailingMark(b as char) }

  predicate IsSchemeByte(b: Byte) { IsAlphanumeric(b) || Is(b, '+') || Is(b, '-') || Is(b, '.') }

  const LINE_BREAK: Byte := 10
  const SPACE: Byte := 32
  const HASH: Byte := 35
  const SEPARATOR: Byte := 49
  const CLOSING: Byte := 41

  /** The ASCII text `w` stands at position `p`. */
  predicate StandsAt(s: Text, p: nat, w: string) {
    p + |w| <= |s| && forall i | 0 <= i < |w| :: Is(s[p + i], w[i])
  }

  // ---- maximal runs ----

  /** Where the characters allowed in a hashtag end. */
  function HashtagRun(s: Text, p: nat): (e: nat)
    requires p <= |s|
    ensures p <= e <= |s|
    decreases |s| - p
  {
    if p < |s| && CharLen(s, p) > 0 && !IsForbiddenInHashtag(CodePoint(s, p)) then HashtagRun(s, p + CharLen(s, p))
    else p
  }

  /** Where the bytes satisfying `ok` end. */
  function Run(ok: Byte -> bool, s: Text, p: nat): (e: nat)
    requires p <= |s|
    ensures p <= e <= |s|
    ensures forall i :: p <= i < e ==> ok(s[i])
    ensures e < |s| ==> !ok(s[e])
    decreases |s| - p
  {
    if p < |s| && ok(s[p]) then Run(ok, s, p + 1) else p
  }

  /** Where the text ends once the trailing punctuation is taken off. */
  function TrimEnd(s: Text, low: nat, e: nat): (t: nat)
    requires low <= e <= |s|
    ensures low <= t <= e
    ensures t > low ==> !IsTrailingPunctuation(s[t - 1])
    ensures forall i :: t <= i < e ==> IsTrailingPunctuation(s[i])
  {
    if e > low && IsTrailingPunctuation(s[e - 1]) then TrimEnd(s, low, e - 1) else e
  }

  // ---- what matches at a position ----

  function HashtagAt(s: Text, p: nat): Option<Match>
    requires p < |s|
  {
    if s[p] != HASH || (p != 0 && !IsAsciiWhitespace(s[p - 1])) then None
    else
      var end := HashtagRun(s, p + 1);
      if end <= p + 1 then None else Some(Match(Hashtag, p, end))
  }

  /** The length of the bech32 prefix that stands at `p`, 0 when none does. */
  function PrefixLen(foreign: Foreign, s: Text, p: nat): (n: nat)
    ensures n > 0 ==> p + n <= |s|
  {
    if StandsAt(s, p, "nsec") then 4
    else if foreign.nip49 && StandsAt(s, p, "ncryptsec") then 9
    else if StandsAt(s, p, "npub") then 4
    else if StandsAt(s, p, "note") then 4
    else if StandsAt(s, p, "nprofile") then 8
    else if StandsAt(s, p, "nevent") then 6
    else if StandsAt(s, p, "naddr") then 5
    else 0
  }

  /** The bech32 characters; all of them are ASCII. */
  function IsFe32(foreign: Foreign): Byte -> bool { (b: Byte) => b < 0x80 && foreign.isFe32(b) }

  function NostrUriAt(foreign: Foreign, s: Text, p: nat): Option<Match>
    requires p < |s|
  {
    if !StandsAt(s, p, "nostr:") then None
    else
      var n := PrefixLen(foreign, s, p + 6);
      var mid := p + 6 + n;
      if n == 0 || mid >= |s| || s[mid] != SEPARATOR then None
      else
        var end := Run(IsFe32(foreign), s, mid + 1);
        if end == mid + 1 then None else Some(Match(NostrUri, p, end))
  }

  /** The position after `scheme://`, when a scheme starts at `p`. */
  function AfterScheme(s: Text, p: nat): (r: Option<nat>)
    requires p < |s|
    ensures r.Some? ==> p < r.value <= |s|
  {
    if !IsAlphabetic(s[p]) then None
    else
      var end := Run(IsSchemeByte, s, p + 1);
      if StandsAt(s, end, "://") then Some(end + 3) else None
  }

  function UrlAt(s: Text, p: nat): Option<Match>
    requires p < |s|
  {
    match AfterScheme(s, p)
    case None => None
    case Some(low) =>
      var end := TrimEnd(s, low, Run(IsUrlByte, s, low));
      if end <= low then None else Some(Match(Url, p, end))
  }

  function LineBreakAt(s: Text, p: nat): Option<Match>
    requires p < |s|
  {
    if s[p] == LINE_BREAK then Some(Match(LineBreak, p, p + 1)) else None
  }

  function OrElse(a: Option<Match>, b: Option<Match>): Option<Match> { if a.Some? then a else b }

  function MatchAt(foreign: Foreign, opts: Options, s: Text, p: nat): (r: Option<Match>)
    requires p < |s|
    ensures r.Some? ==> r.value.start == p < r.value.end <= |s|
  {
    OrElse(if opts.text then LineBreakAt(s, p) else None,
    OrElse(if opts.hashtags then HashtagAt(s, p) else None,
    OrElse(if opts.nostrUris then NostrUriAt(foreign, s, p) else None,
           if opts.urls then UrlAt(s, p) else None)))
  }

  /** The width of the step to the next character. */
  function Skip(s: Text, p: nat): (n: nat)
    requires p < |s|
    ensures n > 0 && p + n <= |s|
  {
    if CharLen(s, p) > 0 then CharLen(s, p) else 1
  }

  /** The first match at or after `p`. */
  function NextMatch(foreign: Foreign, opts: Options, s: Text, p: nat): (r: Option<Match>)
    requires p <= |s|
    ensures r.Some? ==> p <= r.value.start < r.value.end <= |s|
    decreases |s| - p
  {
    if p == |s| then None
    else if MatchAt(foreign, opts, s, p).Some? then MatchAt(foreign, opts, s, p)
    else NextMatch(foreign, opts, s, p + Skip(s, p))
  }

  function AllMatches(foreign: Foreign, opts: Options, s: Text, p: nat): seq<Match>
    requires p <= |s|
    decreases |s| - p
  {
    match NextMatch(foreign, opts, s, p)
    case None => []
    case Some(m) => [m] + AllMatches(foreign, opts, s, m.end)
  }

  // ---- safety ----

  lemma {:induction false} HashtagRunBoundary(s: Text, p: nat)
    requires Valid(s) && p <= |s| && Boundary(s, p)
    ensures Boundary(s, HashtagRun(s, p))
    decreases |s| - p
  {
    if p < |s| {
      CharAt(s, p);
      HashtagRunBoundary(s, p + CharLen(s, p));
    }
  }

  /** Both ends of a match lie between characters. */
  lemma MatchBoundaries(foreign: Foreign, opts: Options, s: Text, p: nat)
    requires Valid(s) && p < |s| && Boundary(s, p)
    requires MatchAt(foreign, opts, s, p).Some?
    ensures Boundary(s, MatchAt(foreign, opts, s, p).value.end)
  {
    var m := MatchAt(foreign, opts, s, p).value;
    if m.kind == Hashtag {
      AsciiAt(s, p);
      HashtagRunBoundary(s, p + 1);
    } else {
      AsciiAt(s, m.end - 1);
    }
  }

  lemma HashtagStarts(foreign: Foreign, opts: Options, s: Text, p: nat)
    requires p < |s|
    ensures var r := MatchAt(foreign, opts, s, p); r.Some? && r.value.kind == Hashtag ==> s[p] == HASH
  {
  }

  lemma {:induction false} NextMatchSafe(foreign: Foreign, opts: Options, s: Text, p: nat)
    requires Valid(s) && p <= |s| && Boundary(s, p)
    ensures var r := NextMatch(foreign, opts, s, p);
            r.Some? ==>
              && Boundary(s, r.value.start) && Boundary(s, r.value.end)
              && MatchAt(foreign, opts, s, r.value.start) == r
              && (r.value.kind == Hashtag ==> s[r.value.start] == HASH)
    decreases |s| - p
  {
    hide MatchAt, Valid, Boundary;
    if p < |s| {
      CharAt(s, p);
      HashtagStarts(foreign, opts, s, p);
      if MatchAt(foreign, opts, s, p).Some? {
        MatchBoundaries(foreign, opts, s, p);
      } else {
        NextMatchSafe(foreign, opts, s, p + Skip(s, p));
      }
    }
  }

  /** On valid text the matches are non-empty, increasing and disjoint, and can be sliced out. */
  lemma {:induction false} AllMatchesSafe(foreign: Foreign, opts: Options, s: Text, p: nat)
    requires Valid(s) && p <= |s| && Boundary(s, p)
    ensures forall m :: m in AllMatches(foreign, opts, s, p) ==>
              p <= m.start < m.end <= |s| && Boundary(s, m.start) && Boundary(s, m.end)
    ensures forall i, j :: 0 <= i < j < |AllMatches(foreign, opts, s, p)| ==>
              AllMatches(foreign, opts, s, p)[i].end <= AllMatches(foreign, opts, s, p)[j].start
    decreases |s| - p
  {
    NextMatchSafe(foreign, opts, s, p);
    match NextMatch(foreign, opts, s, p) {
      case None =>
      case Some(m) => AllMatchesSafe(foreign, opts, s, m.end);
    }
  }

  /**
    A URL never ends in a closing parenthesis: it counts as trailing punctuation, so
    the parenthesis balancing of the source is never reached.
  */
  lemma UrlNeverEndsClosing(s: Text, p: nat)
    requires p < |s| && UrlAt(s, p).Some?
    ensures s[UrlAt(s, p).value.end - 1] != CLOSING
    ensures UrlAt(s, p).value.end < |s| ==>
              !IsUrlByte(s[UrlAt(s, p).value.end]) || IsTrailingPunctuation(s[UrlAt(s, p).value.end])
  {
    assert IsTrailingPunctuation(CLOSING);
  }

  // ---- the scanner ----

  class FindMatches {
    const foreign: Foreign
    const s: Text
    var pos: nat
    var opts: Options

    constructor (foreign: Foreign, s: Text)
      ensures this.foreign == foreign && this.s == s && pos == 0 && opts == Options(true, true, true, true)
    {
      this.foreign, this.s := foreign, s;
      pos, opts := 0, Options(true, true, true, true);
    }

    /** The cursor is in valid text, between two characters. */
    ghost predicate Ready()
      reads this
    {
      Valid(s) && pos <= |s| && Boundary(s, pos)
    }

    method TryParseHashtag() returns (r: Option<Match>)
      requires Ready() && pos < |s|
      ensures r == HashtagAt(s, pos)
    {
      hide CodePoint, IsForbiddenInHashtag, Valid, ValidFrom;
      if s[pos] != HASH { return None; }
      if pos != 0 && !IsAsciiWhitespace(s[pos - 1]) { return None; }
      AsciiAt(s, pos);
      var end := pos + 1;
      while end < |s|
        invariant pos + 1 <= end <= |s| && Boundary(s, end)
        invariant HashtagRun(s, pos + 1) == HashtagRun(s, end)
      {
        CharAt(s, end);
        if IsForbiddenInHashtag(CodePoint(s, end)) { break; }
        end := end + CharLen(s, end);
      }
      if end <= pos + 1 { return None; }
      return Some(Match(Hashtag, pos, end));
    }

    static lemma NostrColon(s: Text, p: nat)
      requires StandsAt(s, p, "nostr:")
      ensures p + 6 <= |s| && s[p + 5] < 0x80
    {
      assert Is(s[p + 5], "nostr:"[5]);
    }

    method TryParseNostrUri() returns (r: Option<Match>)
      requires Ready() && pos < |s|
      ensures r == NostrUriAt(foreign, s, pos)
    {
      hide StandsAt, PrefixLen, Valid, ValidFrom, CharLen;
      if !StandsAt(s, pos, "nostr:") { return None; }
      NostrColon(s, pos);
      AsciiAt(s, pos + 5);
      ghost var data := Slice(s, pos + 6, |s|);
      var n := PrefixLen(foreign, s, pos + 6);
      if n == 0 { return None; }
      var end := pos + 6 + n;
      if end >= |s| || s[end] != SEPARATOR { return None; }
      AsciiAt(s, end);
      end := end + 1;
      ghost var bech32 := Slice(s, end, |s|);
      var dataStart := end;
      while end < |s| && IsFe32(foreign)(s[end])
        invariant dataStart <= end <= |s|
        invariant Run(IsFe32(foreign), s, dataStart) == Run(IsFe32(foreign), s, end)
      {
        end := end + 1;
      }
      if end == dataStart { return None; }
      return Some(Match(NostrUri, pos, end));
    }

    method FindPostUrlSchemePosition() returns (r: Option<nat>)
      requires pos < |s|
      ensures r == AfterScheme(s, pos)
    {
      if !IsAlphabetic(s[pos]) { return None; }
      var end := pos + 1;
      while end < |s|
        invariant pos + 1 <= end <= |s|
        invariant Run(IsSchemeByte, s, pos + 1) == Run(IsSchemeByte, s, end)
      {
        if IsSchemeByte(s[end]) {
          end := end + 1;
          continue;
        }
        if StandsAt(s, end, "://") { return Some(end + 3); }
        break;
      }
      return None;
    }

    method FindUrlEnd(low: nat) returns (r: Option<nat>)
      requires low <= |s|
      ensures r == if Run(IsUrlByte, s, low) == low then None else Some(Run(IsUrlByte, s, low))
    {
      var end := low;
      while end < |s|
        invariant low <= end <= |s|
        invariant Run(IsUrlByte, s, low) == Run(IsUrlByte, s, end)
      {
        if IsAsciiWhitespace(s[end]) || !IsUrlByte(s[end]) { break; }
        end := end + 1;
      }
      if end <= low { return None; }
      return Some(end);
    }

    method TrimUrlEnd(start: nat, low: nat, end: nat) returns (actualEnd: nat)
      requires start <= low <= end <= |s|
      ensures actualEnd == TrimEnd(s, low, end)
    {
      actualEnd := end;
      while actualEnd > low
        invariant low <= actualEnd <= end
        invariant TrimEnd(s, low, end) == TrimEnd(s, low, actualEnd)
      {
        if IsTrailingPunctuation(s[actualEnd - 1]) {
          actualEnd := actualEnd - 1;
        } else {
          break;
        }
      }
      if actualEnd > low && s[actualEnd - 1] == CLOSING {
        // the source balances parentheses here; no URL gets this far
        assert false;
      }
    }

    method TryParseUrl() returns (r: Option<Match>)
      requires Ready() && pos < |s|
      ensures r == UrlAt(s, pos)
    {
      var low := FindPostUrlSchemePosition();
      if low.None? { return None; }
      var end := FindUrlEnd(low.value);
      if end.None? { return None; }
      var actualEnd := TrimUrlEnd(pos, low.value, end.value);
      if actualEnd <= low.value { return None; }
      return Some(Match(Url, pos, actualEnd));
    }

    /** Tries what the options enable, in the order of precedence. */
    method TryParse() returns (r: Option<Match>)
      requires Ready() && pos < |s|
      ensures r == MatchAt(foreign, opts, s, pos)
    {
      hide HashtagAt, NostrUriAt, UrlAt, LineBreakAt, Valid;
      r := None;
      if opts.text {
        r := LineBreakAt(s, pos);
        if r.Some? { return; }
      }
      if opts.hashtags {
        r := TryParseHashtag();
        if r.Some? { return; }
      }
      if opts.nostrUris {
        r := TryParseNostrUri();
        if r.Some? { return; }
      }
      if opts.urls {
        r := TryParseUrl();
      }
    }

    /** The next match, and the cursor right behind it. */
    method Next() returns (r: Option<Match>)
      requires Ready()
      modifies this`pos
      ensures Ready()
      ensures r == NextMatch(foreign, opts, s, old(pos))
      ensures pos == if r.Some? then r.value.end else |s|
      ensures r.Some? ==> old(pos) <= r.value.start < r.value.end <= |s| && Boundary(s, r.value.start)
      ensures r.Some? && r.value.kind == Hashtag ==> s[r.value.start] == HASH
    {
      hide MatchAt, CharLen, Valid;
      ghost var from := pos;
      while pos < |s|
        invariant Ready() && from <= pos
        invariant NextMatch(foreign, opts, s, from) == NextMatch(foreign, opts, s, pos)
        decreases |s| - pos
      {
        NextMatchSafe(foreign, opts, s, pos);
        r := TryParse();
        if r.Some? {
          pos := r.value.end;
          return;
        }
        CharAt(s, pos);
        pos := pos + if s[pos] < 0x80 then 1 else CharLen(s, pos);
      }
      return None;
    }
  }
}
