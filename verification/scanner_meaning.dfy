/**
  What the scanner matches and which tokens that gives, spelled out in bytes and code
  points: a match of each kind is a run of given bytes between given neighbours, and every
  such run that does not begin inside an earlier match is one.
*/
module ScannerMeaning {
  import opened Wrappers
  import opened Utf8
  import opened Scanner
  import opened Tokenizer

  // ---- classes of bytes and code points, by number ----

  /** White space, a control character, or one of the marks no hashtag has. */
  predicate EndsHashtag(c: nat) {
    || c <= 32 || 127 <= c <= 160 || c == 5760 || 8192 <= c <= 8202
    || c in {8232, 8233, 8239, 8287, 12_288}
    || c in {33, 34, 35, 36, 37, 38, 39, 40, 41, 42, 43, 44, 46, 47, 58, 59, 60, 61, 62, 63, 64,
             91, 92, 93, 94, 96, 123, 124, 125, 126}
  }

  predicate LetterByte(b: int) { 65 <= b <= 90 || 97 <= b <= 122 }

  predicate SchemeByte(b: int) { LetterByte(b) || 48 <= b <= 57 || b == 43 || b == 45 || b == 46 }

  predicate UrlByte(b: int) {
    || LetterByte(b) || 48 <= b <= 57
    || b in {33, 35, 36, 37, 38, 39, 40, 41, 42, 43, 44, 45, 46, 47, 58, 59, 61, 63, 64, 91, 93, 95, 126}
  }

  predicate TrailingByte(b: int) { b in {33, 41, 44, 46, 58, 59, 63, 93, 125} }

  predicate SpaceByte(b: int) { b in {9, 10, 12, 13, 32} }

  lemma ClassesMean(b: Byte)
    ensures IsAlphabetic(b) <==> LetterByte(b)
    ensures IsSchemeByte(b) <==> SchemeByte(b)
    ensures IsUrlByte(b) <==> UrlByte(b)
    ensures IsTrailingPunctuation(b) <==> TrailingByte(b)
    ensures IsAsciiWhitespace(b) <==> SpaceByte(b)
  {
  }

  lemma ForbiddenMeans(c: nat)
    ensures IsForbiddenInHashtag(c) <==> EndsHashtag(c)
  {
  }

  // ---- what each kind of match looks like ----

  function EncodeAll(cs: seq<nat>): seq<Byte>
    requires forall c :: c in cs ==> Scalar(c)
  {
    if cs == [] then [] else Encode(cs[0]) + EncodeAll(cs[1..])
  }

  ghost predicate Spells(text: Text, cs: seq<nat>) {
    (forall c :: c in cs ==> Scalar(c)) && text == EncodeAll(cs)
  }

  /** The text is made of characters that do not end a hashtag. */
  ghost predicate InHashtag(text: Text) {
    exists cs :: Spells(text, cs) && forall c :: c in cs ==> !EndsHashtag(c)
  }

  /** The text ends here, or with a character that ends a hashtag. */
  ghost predicate HashtagStops(s: Text, p: nat) {
    p == |s| || exists c: nat :: Scalar(c) && EndsHashtag(c) && HasBytes(s, p, Encode(c))
  }

  /** `#` at the beginning or after white space, and the longest run of other characters behind it. */
  ghost predicate LooksLikeHashtag(s: Text, p: nat, end: nat) {
    && p + 1 < end <= |s| && s[p] == 35 && (p == 0 || SpaceByte(s[p - 1]))
    && InHashtag(s[p + 1..end]) && HashtagStops(s, end)
  }

  predicate SpelledAt(s: Text, p: nat, w: string) {
    p + |w| <= |s| && forall i | 0 <= i < |w| :: s[p + i] == w[i] as int
  }

  predicate Bech32Byte(foreign: Foreign, b: Byte) { b < 128 && foreign.isFe32(b) }

  predicate Entity(foreign: Foreign, w: string) {
    w in {"nsec", "npub", "note", "nprofile", "nevent", "naddr"} || (w == "ncryptsec" && foreign.nip49)
  }

  /** `nostr:`, an entity, `1` and the longest run of bech32 characters. */
  ghost predicate LooksLikeUri(foreign: Foreign, s: Text, p: nat, end: nat) {
    exists w :: UriWith(foreign, s, p, w, end)
  }

  predicate UriWith(foreign: Foreign, s: Text, p: nat, w: string, end: nat) {
    var data := p + 6 + |w| + 1;
    && Entity(foreign, w) && SpelledAt(s, p, "nostr:") && SpelledAt(s, p + 6, w)
    && data < end <= |s| && s[data - 1] == 49
    && (forall i | data <= i < end :: Bech32Byte(foreign, s[i]))
    && (end < |s| ==> !Bech32Byte(foreign, s[end]))
  }

  /** A letter, a scheme, `://`, and the longest run of URL bytes without the punctuation at its end. */
  ghost predicate LooksLikeUrl(s: Text, p: nat, end: nat) {
    exists a, top :: UrlWith(s, p, a, top, end)
  }

  predicate UrlWith(s: Text, p: nat, a: int, top: int, end: nat) {
    && p < a && a + 3 < end <= top <= |s| && LetterByte(s[p])
    && (forall i | p < i < a :: SchemeByte(s[i]))
    && s[a] == 58 && s[a + 1] == 47 && s[a + 2] == 47
    && (forall i | a + 3 <= i < top :: UrlByte(s[i])) && (top < |s| ==> !UrlByte(s[top]))
    && (forall i | end <= i < top :: TrailingByte(s[i])) && !TrailingByte(s[end - 1])
  }

  ghost predicate LooksLike(foreign: Foreign, opts: Options, s: Text, m: Match) {
    m.start < m.end <= |s| &&
    match m.kind
    case LineBreak => opts.text && s[m.start] == 10 && m.end == m.start + 1
    case Hashtag => opts.hashtags && LooksLikeHashtag(s, m.start, m.end)
    case NostrUri => opts.nostrUris && LooksLikeUri(foreign, s, m.start, m.end)
    case Url => opts.urls && LooksLikeUrl(s, m.start, m.end)
  }

  // ---- hashtags ----

  lemma RunStep(s: Text, p: nat)
    requires p < |s| && CharLen(s, p) > 0
    ensures var c := CodePoint(s, p);
            && Scalar(c) && HasBytes(s, p, Encode(c)) && |Encode(c)| == CharLen(s, p)
            && s[p..p + CharLen(s, p)] == Encode(c)
            && (IsForbiddenInHashtag(c) <==> EndsHashtag(c))
  {
    CharDecodes(s, p);
    ForbiddenMeans(CodePoint(s, p));
    var bytes := Encode(CodePoint(s, p));
    hide CodePoint, CharLen, IsForbiddenInHashtag, EndsHashtag, Encode;
    forall i | 0 <= i < |bytes|
      ensures s[p..p + |bytes|][i] == bytes[i]
    {
      assert s[p + i] == bytes[i];
    }
  }

  lemma SpellsMore(s: Text, p: nat, n: nat, e: nat, c: nat, cs: seq<nat>)
    requires p + n <= e <= |s| && Scalar(c) && s[p..p + n] == Encode(c) && Spells(s[p + n..e], cs)
    ensures Spells(s[p..e], [c] + cs)
  {
    assert ([c] + cs)[1..] == cs;
    hide Encode;
    assert s[p..e] == s[p..p + n] + s[p + n..e];
  }

  /** The run found is a run, and longest. */
  lemma {:induction false} RunMeans(s: Text, p: nat)
    requires Valid(s) && p <= |s| && Boundary(s, p)
    ensures InHashtag(s[p..HashtagRun(s, p)]) && HashtagStops(s, HashtagRun(s, p))
    decreases |s| - p
  {
    hide CodePoint, IsForbiddenInHashtag, EndsHashtag, Encode, Spells, Valid, Boundary, HasBytes, EncodeAll;
    if p == |s| {
      NothingSpelled(s, p);
    } else {
      CharAt(s, p);
      RunStep(s, p);
      var n, c := CharLen(s, p), CodePoint(s, p);
      if IsForbiddenInHashtag(c) {
        NothingSpelled(s, p);
      } else {
        RunMeans(s, p + n);
        var e := HashtagRun(s, p + n);
        assert HashtagRun(s, p) == e;
        var cs :| Spells(s[p + n..e], cs) && forall x :: x in cs ==> !EndsHashtag(x);
        SpellsMore(s, p, n, e, c, cs);
        assert forall x :: x in [c] + cs ==> !EndsHashtag(x);
      }
    }
  }

  lemma NothingSpelled(s: Text, p: nat)
    requires p <= |s|
    ensures InHashtag(s[p..p])
  {
    assert Spells(s[p..p], []);
  }

  lemma HeadSpelled(s: Text, p: nat, e: nat, cs: seq<nat>)
    requires p < e <= |s| && Spells(s[p..e], cs)
    ensures cs != [] && Scalar(cs[0]) && HasBytes(s, p, Encode(cs[0])) && p + |Encode(cs[0])| <= e
    ensures Spells(s[p + |Encode(cs[0])|..e], cs[1..])
  {
    var first, rest := Encode(cs[0]), EncodeAll(cs[1..]);
    hide Encode;
    assert s[p..e] == first + rest;
    assert forall i :: 0 <= i < |first| ==> s[p + i] == (first + rest)[i];
    assert s[p + |first|..e] == (first + rest)[|first|..];
  }

  /** Only the longest run qualifies. */
  lemma {:induction false} RunIsLongest(s: Text, p: nat, e: nat, cs: seq<nat>)
    requires p <= e <= |s| && Spells(s[p..e], cs) && (forall c :: c in cs ==> !EndsHashtag(c)) && HashtagStops(s, e)
    ensures HashtagRun(s, p) == e
    decreases |s| - p
  {
    if p < e {
      HeadSpelled(s, p, e, cs);
      EncodedReads(s, p, cs[0]);
      ForbiddenMeans(cs[0]);
      hide CodePoint, IsForbiddenInHashtag, EndsHashtag, Encode, Spells, CharLen;
      RunIsLongest(s, p + CharLen(s, p), e, cs[1..]);
    } else if e < |s| {
      var c: nat :| Scalar(c) && EndsHashtag(c) && HasBytes(s, e, Encode(c));
      EncodedReads(s, e, c);
      ForbiddenMeans(c);
    }
  }

  lemma HashtagMeans(s: Text, p: nat, end: nat)
    requires Valid(s) && p < |s|
    ensures HashtagAt(s, p) == Some(Match(Hashtag, p, end)) <==> LooksLikeHashtag(s, p, end)
  {
    if p > 0 { ClassesMean(s[p - 1]); }
    if s[p] == 35 {
      AsciiAt(s, p);
      RunMeans(s, p + 1);
    }
    hide HashtagRun, InHashtag, HashtagStops, Valid, IsAsciiWhitespace, SpaceByte;
    if LooksLikeHashtag(s, p, end) {
      LongestHashtag(s, p + 1, end);
    }
  }

  lemma LongestHashtag(s: Text, p: nat, e: nat)
    requires p <= e <= |s| && InHashtag(s[p..e]) && HashtagStops(s, e)
    ensures HashtagRun(s, p) == e
  {
    hide Spells, EndsHashtag, HashtagStops, HashtagRun;
    var cs :| Spells(s[p..e], cs) && forall c :: c in cs ==> !EndsHashtag(c);
    RunIsLongest(s, p, e, cs);
  }

  // ---- URIs and URLs ----

  lemma SpelledMeans(s: Text, p: nat, w: string)
    requires forall i :: 0 <= i < |w| ==> w[i] as int < 128
    ensures Scanner.StandsAt(s, p, w) <==> SpelledAt(s, p, w)
  {
  }

  /** A run of bytes is determined by where it starts. */
  lemma {:induction false} RunIs(ok: Byte -> bool, s: Text, p: nat, e: nat)
    requires p <= e <= |s| && (forall i :: p <= i < e ==> ok(s[i])) && (e < |s| ==> !ok(s[e]))
    ensures Run(ok, s, p) == e
    decreases e - p
  {
    if p < e {
      RunIs(ok, s, p + 1, e);
    }
  }

  /** The entity that stands at a position, with its length. */
  lemma EntityMeans(foreign: Foreign, s: Text, p: nat, n: nat)
    requires n > 0
    ensures PrefixLen(foreign, s, p) == n <==> exists w :: Entity(foreign, w) && SpelledAt(s, p, w) && |w| == n
  {
    forall w | Entity(foreign, w)
      ensures Scanner.StandsAt(s, p, w) <==> SpelledAt(s, p, w)
    {
      SpelledMeans(s, p, w);
    }
    EntitiesApart(foreign, s, p);
    hide SpelledAt, Scanner.StandsAt;
    assert Entity(foreign, "nsec") && Entity(foreign, "npub") && Entity(foreign, "note") && Entity(foreign, "nprofile");
    assert Entity(foreign, "nevent") && Entity(foreign, "naddr") && (foreign.nip49 ==> Entity(foreign, "ncryptsec"));
  }

  /** Two entities never stand at one position. */
  lemma EntitiesApart(foreign: Foreign, s: Text, p: nat)
    ensures forall v, w ::
              Entity(foreign, v) && Entity(foreign, w) && SpelledAt(s, p, v) && SpelledAt(s, p, w) ==> v == w
  {
    forall v, w | Entity(foreign, v) && Entity(foreign, w) && SpelledAt(s, p, v) && SpelledAt(s, p, w)
      ensures v == w
    {
      assert s[p + 1] == v[1] as int == w[1] as int;
      assert s[p + 2] == v[2] as int == w[2] as int;
    }
  }

  lemma UriMeans(foreign: Foreign, s: Text, p: nat, end: nat)
    requires p < |s|
    ensures NostrUriAt(foreign, s, p) == Some(Match(NostrUri, p, end)) <==> LooksLikeUri(foreign, s, p, end)
  {
    if NostrUriAt(foreign, s, p) == Some(Match(NostrUri, p, end)) {
      UriSplits(foreign, s, p, end);
    }
    hide NostrUriAt, UriWith;
    if w :| UriWith(foreign, s, p, w, end) {
      UriFound(foreign, s, p, w, end);
    }
  }

  lemma UriSplits(foreign: Foreign, s: Text, p: nat, end: nat)
    requires p < |s| && NostrUriAt(foreign, s, p) == Some(Match(NostrUri, p, end))
    ensures LooksLikeUri(foreign, s, p, end)
  {
    hide PrefixLen, Entity, SpelledAt, Scanner.StandsAt;
    SpelledMeans(s, p, "nostr:");
    var n := PrefixLen(foreign, s, p + 6);
    EntityMeans(foreign, s, p + 6, n);
    var w :| Entity(foreign, w) && SpelledAt(s, p + 6, w) && |w| == n;
    assert UriWith(foreign, s, p, w, end);
  }

  lemma UriFound(foreign: Foreign, s: Text, p: nat, w: string, end: nat)
    requires p < |s| && UriWith(foreign, s, p, w, end)
    ensures NostrUriAt(foreign, s, p) == Some(Match(NostrUri, p, end))
  {
    SpelledMeans(s, p, "nostr:");
    assert |w| > 0;
    EntityMeans(foreign, s, p + 6, |w|);
    hide PrefixLen, Entity, SpelledAt, Scanner.StandsAt;
    RunIs(IsFe32(foreign), s, p + 6 + |w| + 1, end);
  }

  lemma {:induction false} TrimIs(s: Text, low: nat, e: nat, t: nat)
    requires low < t <= e <= |s| && !IsTrailingPunctuation(s[t - 1])
    requires forall i :: t <= i < e ==> IsTrailingPunctuation(s[i])
    ensures TrimEnd(s, low, e) == t
    decreases e
  {
    if t < e {
      TrimIs(s, low, e - 1, t);
    }
  }

  lemma UrlMeans(s: Text, p: nat, end: nat)
    requires p < |s|
    ensures UrlAt(s, p) == Some(Match(Url, p, end)) <==> LooksLikeUrl(s, p, end)
  {
    if UrlAt(s, p) == Some(Match(Url, p, end)) {
      UrlSplits(s, p, end);
    }
    if a, top :| UrlWith(s, p, a, top, end) {
      UrlFound(s, p, a, top, end);
    }
  }

  lemma UrlSplits(s: Text, p: nat, end: nat)
    requires p < |s| && UrlAt(s, p) == Some(Match(Url, p, end))
    ensures LooksLikeUrl(s, p, end)
  {
    hide AfterScheme, Run, TrimEnd;
    var a := SchemeSplits(s, p);
    var top := Run(IsUrlByte, s, a + 3);
    forall b: Byte
      ensures (IsUrlByte(b) <==> UrlByte(b)) && (IsTrailingPunctuation(b) <==> TrailingByte(b))
    {
      ClassesMean(b);
    }
    hide IsUrlByte, IsTrailingPunctuation, LetterByte, SchemeByte, UrlByte, TrailingByte;
    assert UrlWith(s, p, a, top, end);
  }

  lemma SchemeSplits(s: Text, p: nat) returns (a: int)
    requires p < |s| && AfterScheme(s, p).Some?
    ensures p < a && a + 3 <= |s| && LetterByte(s[p]) && forall i :: p < i < a ==> SchemeByte(s[i])
    ensures s[a] == 58 && s[a + 1] == 47 && s[a + 2] == 47
    ensures AfterScheme(s, p) == Some(a + 3)
  {
    a := Run(IsSchemeByte, s, p + 1);
    SeparatorMeans(s, a);
    forall b: Byte
      ensures (IsAlphabetic(b) <==> LetterByte(b)) && (IsSchemeByte(b) <==> SchemeByte(b))
    {
      ClassesMean(b);
    }
    hide IsAlphabetic, IsSchemeByte, LetterByte, SchemeByte, Run, Scanner.StandsAt;
  }

  lemma SeparatorMeans(s: Text, a: nat)
    requires a <= |s|
    ensures Scanner.StandsAt(s, a, "://") <==> a + 3 <= |s| && s[a] == 58 && s[a + 1] == 47 && s[a + 2] == 47
  {
    var w := "://";
    assert w[0] as int == 58 && w[1] as int == 47 && w[2] as int == 47;
    SpelledMeans(s, a, w);
    if SpelledAt(s, a, w) {
      assert s[a + 0] == w[0] as int && s[a + 1] == w[1] as int && s[a + 2] == w[2] as int;
    }
  }

  lemma UrlFound(s: Text, p: nat, a: int, top: int, end: nat)
    requires p < |s| && UrlWith(s, p, a, top, end)
    ensures UrlAt(s, p) == Some(Match(Url, p, end))
  {
    hide AfterScheme, Run, TrimEnd;
    SchemeFound(s, p, a);
    assert UrlAt(s, p) == var t := TrimEnd(s, a + 3, Run(IsUrlByte, s, a + 3));
                          if t <= a + 3 then None else Some(Match(Url, p, t));
    hide UrlAt;
    forall b: Byte
      ensures (IsUrlByte(b) <==> UrlByte(b)) && (IsTrailingPunctuation(b) <==> TrailingByte(b))
    {
      ClassesMean(b);
    }
    hide IsUrlByte, IsTrailingPunctuation, LetterByte, SchemeByte, UrlByte, TrailingByte;
    RunIs(IsUrlByte, s, a + 3, top);
    TrimIs(s, a + 3, top, end);
  }

  lemma SchemeFound(s: Text, p: nat, a: int)
    requires p < a && a + 3 <= |s| && LetterByte(s[p]) && forall i :: p < i < a ==> SchemeByte(s[i])
    requires s[a] == 58 && s[a + 1] == 47 && s[a + 2] == 47
    ensures AfterScheme(s, p) == Some(a + 3)
  {
    assert !SchemeByte(58);
    forall b: Byte
      ensures (IsAlphabetic(b) <==> LetterByte(b)) && (IsSchemeByte(b) <==> SchemeByte(b))
    {
      ClassesMean(b);
    }
    hide IsAlphabetic, IsSchemeByte, LetterByte, SchemeByte, Run, Scanner.StandsAt;
    SeparatorMeans(s, a);
    RunIs(IsSchemeByte, s, p + 1, a);
  }

  // ---- the matches of a text ----

  /** No two kinds of match begin alike. */
  lemma KindsApart(foreign: Foreign, s: Text, p: nat, end: nat)
    requires LooksLikeUri(foreign, s, p, end)
    ensures p < |s| && s[p] == 110 && forall e: nat :: !LooksLikeUrl(s, p, e)
  {
    var w :| UriWith(foreign, s, p, w, end);
    assert s[p + 0] == "nostr:"[0] as int && s[p + 5] == "nostr:"[5] as int;
    assert s[p + 6 + 0] == w[0] as int;
    assert s[p + 6] == 110 && s[p + 5] == 58;
    var scheme := "nostr:";
    assert s[p + 1] == scheme[1] as int && s[p + 2] == scheme[2] as int;
    assert s[p + 3] == scheme[3] as int && s[p + 4] == scheme[4] as int;
    forall e: nat, a: int, top: int
      ensures !UrlWith(s, p, a, top, e)
    {
      assert !SchemeByte(58);
      assert a == p + 1 || a == p + 2 || a == p + 3 || a == p + 4 ==> s[a] != 58;
    }
  }

  lemma StartsMean(foreign: Foreign, opts: Options, s: Text, m: Match)
    requires LooksLike(foreign, opts, s, m)
    ensures m.kind == LineBreak ==> s[m.start] == 10
    ensures m.kind == Hashtag ==> s[m.start] == 35
    ensures m.kind == NostrUri ==> s[m.start] == 110
    ensures m.kind == Url ==> LetterByte(s[m.start])
  {
    if m.kind == NostrUri {
      KindsApart(foreign, s, m.start, m.end);
    }
  }

  /** What matches at a position is what looks like a match there. */
  lemma MatchMeans(foreign: Foreign, opts: Options, s: Text, p: nat, m: Match)
    requires Valid(s) && p < |s|
    ensures MatchAt(foreign, opts, s, p) == Some(m) <==> m.start == p && LooksLike(foreign, opts, s, m)
  {
    forall end: nat
      ensures HashtagAt(s, p) == Some(Match(Hashtag, p, end)) <==> LooksLikeHashtag(s, p, end)
      ensures NostrUriAt(foreign, s, p) == Some(Match(NostrUri, p, end)) <==> LooksLikeUri(foreign, s, p, end)
      ensures UrlAt(s, p) == Some(Match(Url, p, end)) <==> LooksLikeUrl(s, p, end)
    {
      HashtagMeans(s, p, end);
      UriMeans(foreign, s, p, end);
      UrlMeans(s, p, end);
    }
    PartsMean(foreign, s, p);
    if MatchAt(foreign, opts, s, p).Some? {
      var found := MatchAt(foreign, opts, s, p).value;
      hide LooksLikeHashtag, LooksLikeUri, LooksLikeUrl, HashtagAt, NostrUriAt, UrlAt, Valid;
      assert found.start == p && LooksLike(foreign, opts, s, found);
      if m.start == p && LooksLike(foreign, opts, s, m) {
        OneMatch(foreign, opts, s, found, m);
      }
    } else {
      hide LooksLikeHashtag, LooksLikeUri, LooksLikeUrl, HashtagAt, NostrUriAt, UrlAt, Valid;
    }
  }

  lemma PartsMean(foreign: Foreign, s: Text, p: nat)
    requires p < |s|
    ensures HashtagAt(s, p).Some? ==> HashtagAt(s, p).value == Match(Hashtag, p, HashtagAt(s, p).value.end)
    ensures NostrUriAt(foreign, s, p).Some? ==>
      NostrUriAt(foreign, s, p).value == Match(NostrUri, p, NostrUriAt(foreign, s, p).value.end)
    ensures UrlAt(s, p).Some? ==> UrlAt(s, p).value == Match(Url, p, UrlAt(s, p).value.end)
    ensures HashtagAt(s, p).Some? ==> p < HashtagAt(s, p).value.end <= |s|
    ensures NostrUriAt(foreign, s, p).Some? ==> p < NostrUriAt(foreign, s, p).value.end <= |s|
    ensures UrlAt(s, p).Some? ==> p < UrlAt(s, p).value.end <= |s|
  {
  }

  /** At most one match begins at a position. */
  lemma OneMatch(foreign: Foreign, opts: Options, s: Text, m: Match, m': Match)
    requires Valid(s) && m.start == m'.start && LooksLike(foreign, opts, s, m) && LooksLike(foreign, opts, s, m')
    ensures m == m'
  {
    StartsMean(foreign, opts, s, m);
    StartsMean(foreign, opts, s, m');
    var p := m.start;
    if m.kind == NostrUri { KindsApart(foreign, s, p, m.end); }
    if m'.kind == NostrUri { KindsApart(foreign, s, p, m'.end); }
    assert m.kind == m'.kind;
    match m.kind {
      case LineBreak =>
      case Hashtag =>
        HashtagMeans(s, p, m.end);
        HashtagMeans(s, p, m'.end);
      case NostrUri =>
        UriMeans(foreign, s, p, m.end);
        UriMeans(foreign, s, p, m'.end);
      case Url =>
        UrlMeans(s, p, m.end);
        UrlMeans(s, p, m'.end);
    }
  }

  /** Every match there is looks like one. */
  lemma {:induction false} MatchesLookRight(foreign: Foreign, opts: Options, s: Text, p: nat)
    requires Valid(s) && p <= |s| && Boundary(s, p)
    ensures forall m :: m in AllMatches(foreign, opts, s, p) ==> LooksLike(foreign, opts, s, m)
    decreases |s| - p
  {
    hide LooksLike, MatchAt, Valid, Boundary;
    NextMatchSafe(foreign, opts, s, p);
    match NextMatch(foreign, opts, s, p) {
      case None =>
      case Some(m) =>
        MatchMeans(foreign, opts, s, m.start, m);
        MatchesLookRight(foreign, opts, s, m.end);
    }
  }

  /** Nothing that would match stands before the next match. */
  lemma {:induction false} NothingSkipped(foreign: Foreign, opts: Options, s: Text, p: nat, q: nat)
    requires Valid(s) && p <= q < |s| && Boundary(s, p) && Boundary(s, q) && MatchAt(foreign, opts, s, q).Some?
    ensures NextMatch(foreign, opts, s, p).Some? && NextMatch(foreign, opts, s, p).value.start <= q
    decreases q - p
  {
    hide MatchAt;
    if p < q && MatchAt(foreign, opts, s, p).None? {
      CharAt(s, p);
      NothingSkipped(foreign, opts, s, p + Skip(s, p), q);
    }
  }

  /** And everything that looks like a match is one, unless it begins inside an earlier one. */
  lemma {:induction false} MatchesComplete(foreign: Foreign, opts: Options, s: Text, p: nat, m: Match)
    requires Valid(s) && p <= |s| && Boundary(s, p) && p <= m.start && LooksLike(foreign, opts, s, m)
    ensures m in AllMatches(foreign, opts, s, p)
            || exists m' :: m' in AllMatches(foreign, opts, s, p) && m'.start < m.start < m'.end
    decreases |s| - p
  {
    hide LooksLike, MatchAt, Valid, NextMatch, Boundary, LetterByte;
    LooksInside(foreign, opts, s, m);
    StartsMean(foreign, opts, s, m);
    LetterIsAscii(s[m.start]);
    AsciiAt(s, m.start);
    MatchMeans(foreign, opts, s, m.start, m);
    NothingSkipped(foreign, opts, s, p, m.start);
    NextMatchSafe(foreign, opts, s, p);
    var next := NextMatch(foreign, opts, s, p).value;
    assert next in AllMatches(foreign, opts, s, p);
    if m.start >= next.end {
      MatchesComplete(foreign, opts, s, next.end, m);
      assert forall x :: x in AllMatches(foreign, opts, s, next.end) ==> x in AllMatches(foreign, opts, s, p);
    }
  }

  lemma LooksInside(foreign: Foreign, opts: Options, s: Text, m: Match)
    requires LooksLike(foreign, opts, s, m)
    ensures m.start < m.end <= |s|
  {
  }

  lemma LetterIsAscii(b: Byte)
    ensures LetterByte(b) ==> b < 128
  {
  }

  /** The matches of a text, both ways. */
  lemma MatchesMean(foreign: Foreign, opts: Options, s: Text, m: Match)
    requires Valid(s)
    ensures m in AllMatches(foreign, opts, s, 0) <==>
            && LooksLike(foreign, opts, s, m)
            && forall m' :: m' in AllMatches(foreign, opts, s, 0) ==> !(m'.start < m.start < m'.end)
  {
    hide LooksLike, NextMatch, Valid;
    StartBoundary(s);
    MatchesLookRight(foreign, opts, s, 0);
    AllMatchesSafe(foreign, opts, s, 0);
    if LooksLike(foreign, opts, s, m) {
      MatchesComplete(foreign, opts, s, 0, m);
    }
  }

  lemma StartBoundary(s: Text)
    requires Valid(s)
    ensures Boundary(s, 0)
  {
    if s != [] {
      assert CharLen(s, 0) > 0;
    }
  }

  // ---- the tokens of a text ----

  /** A token that stands for a whole match. */
  ghost predicate StandsFor(foreign: Foreign, s: Text, m: Match, t: Token) {
    0 <= m.start < m.end <= |s| &&
    match t
    case UrlToken(url) => m.kind == Url && url == s[m.start..m.end] && foreign.isUrl(url)
    case NostrToken(uri) => m.kind == NostrUri && uri == s[m.start..m.end] && foreign.isNip21(uri)
    case HashtagToken(name) => m.kind == Hashtag && m.start + 1 < m.end && name == s[m.start + 1..m.end]
    case _ => false
  }

  /** The tokens that are no text are the matches, a foreign parser's refusal excepted. */
  lemma {:induction false} TokensMean(foreign: Foreign, opts: Options, s: Text, p: nat, t: Token)
    requires p <= |s| && (t.UrlToken? || t.NostrToken? || t.HashtagToken?)
    ensures t in TokensFrom(foreign, opts, s, p) <==>
            exists m :: m in AllMatches(foreign, opts, s, p) && StandsFor(foreign, s, m, t)
    decreases |s| - p
  {
    hide NextMatch, MatchTokens, StandsFor, OptionalText;
    match NextMatch(foreign, opts, s, p) {
      case None =>
        NotInText(opts, s[p..], t);
      case Some(m) =>
        NotInText(opts, s[p..m.start], t);
        MatchTokensMean(foreign, opts, s, m, t);
        TokensMean(foreign, opts, s, m.end, t);
    }
  }

  /** A line break is a token of its own; a match its parser refuses is text. */
  lemma OtherMatchesMean(foreign: Foreign, opts: Options, s: Text, m: Match)
    requires LooksLike(foreign, opts, s, m)
    ensures var data := s[m.start..m.end];
            && (m.kind == LineBreak ==> MatchTokens(foreign, opts, s, m) == [LineBreakToken])
            && ((m.kind == Url && !foreign.isUrl(data)) || (m.kind == NostrUri && !foreign.isNip21(data)) ==>
                  MatchTokens(foreign, opts, s, m) == if opts.text then TextTokens(data) else [])
  {
  }

  lemma MatchTokensMean(foreign: Foreign, opts: Options, s: Text, m: Match, t: Token)
    requires m.start < m.end <= |s| && (t.UrlToken? || t.NostrToken? || t.HashtagToken?)
    ensures t in MatchTokens(foreign, opts, s, m) <==> StandsFor(foreign, s, m, t)
  {
    NotInText(opts, s[m.start..m.end], t);
    hide OptionalText;
  }

  lemma NotInText(opts: Options, text: Text, t: Token)
    requires t.UrlToken? || t.NostrToken? || t.HashtagToken?
    ensures t !in OptionalText(opts, text)
  {
    if opts.text && text != [] {
      TextTokensNonEmpty(text);
    }
  }

  /** The tokens of a text without line breaks and spaces in front. */
  function RestTokens(rest: Text): seq<Token> {
    if rest == [] then []
    else if |rest| > 1 && rest[|rest| - 1] == 32 then [TextToken(rest[..|rest| - 1]), WhitespaceToken]
    else [TextToken(rest)]
  }

  /** Text gives a token for each line break and space it begins with, one for the rest, one for a space at its end. */
  lemma {:induction false} TextMeans(text: Text, k: nat)
    requires text != [] && k <= |text| && (forall i :: 0 <= i < k ==> text[i] == 10 || text[i] == 32)
    requires k < |text| ==> text[k] != 10 && text[k] != 32
    ensures var ts := TextTokens(text);
            && |ts| >= k && ts[k..] == RestTokens(text[k..])
            && forall i :: 0 <= i < k ==> ts[i] == if text[i] == 10 then LineBreakToken else WhitespaceToken
  {
    hide RestTokens, TextTokens;
    if k == 0 {
      NothingInFront(text);
      assert text[0..] == text;
    } else {
      var head := if text[0] == 10 then LineBreakToken else WhitespaceToken;
      HeadInFront(text);
      if |text| > 1 {
        TextMeans(text[1..], k - 1);
        assert text[1..][k - 1..] == text[k..];
        assert ([head] + TextTokens(text[1..]))[k..] == TextTokens(text[1..])[k - 1..];
      } else {
        NoRest();
        assert text[k..] == [];
      }
    }
  }

  lemma NothingInFront(text: Text)
    requires text != [] && text[0] != 10 && text[0] != 32
    ensures TextTokens(text) == RestTokens(text)
  {
  }

  lemma HeadInFront(text: Text)
    requires text != [] && (text[0] == 10 || text[0] == 32)
    ensures TextTokens(text) == [if text[0] == 10 then LineBreakToken else WhitespaceToken]
                                + if |text| == 1 then [] else TextTokens(text[1..])
  {
  }

  lemma NoRest()
    ensures RestTokens([]) == []
  {
  }
}
