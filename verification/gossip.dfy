/** What the gossip stores share: relay flags, relay list marks and which relays may be used. */
module Gossip {
  import opened Wrappers
  import opened Events

  /** A word of flags, as the set of the positions of its one bits: `|` is union, `& !` difference. */
  type Flags = set<nat>

  const NONE: Flags := {}
  const READ: Flags := {0}
  const WRITE: Flags := {1}
  const PRIVATE_MESSAGE: Flags := {2}
  const HINT: Flags := {3}
  const RECEIVED: Flags := {4}
  const READ_WRITE: Flags := {0, 1}

  /** Some bit is set in both. */
  predicate Has(flags: Flags, other: Flags) { flags * other != {} }

  function Add(flags: Flags, other: Flags): Flags { flags + other }

  /** The in-memory store's removal: exclusive or, which flips the bits. */
  function Remove(flags: Flags, other: Flags): Flags { (flags - other) + (other - flags) }

  /** The SQLite store's removal: it clears the bits. */
  function Cleared(flags: Flags, other: Flags): Flags { flags - other }

  /** The READ and WRITE flags alone, and all flags but these. */
  function ReadWriteOf(flags: Flags): Flags { flags * READ_WRITE }

  function OthersOf(flags: Flags): Flags { flags - READ_WRITE }

  /** A mark in a NIP-65 relay list. */
  datatype RelayMetadata = Read | Write

  function MarkFlags(metadata: Option<RelayMetadata>): Flags {
    match metadata
    case Some(Read) => READ
    case Some(Write) => WRITE
    case None => READ_WRITE
  }

  type Url = string

  /** `list` marks `url` readable: marked read, or unmarked. */
  predicate MarksRead(list: seq<(Url, Option<RelayMetadata>)>, url: Url) {
    exists x :: x in list && x.0 == url && x.1 != Some(Write)
  }

  predicate MarksWrite(list: seq<(Url, Option<RelayMetadata>)>, url: Url) {
    exists x :: x in list && x.0 == url && x.1 != Some(Read)
  }

  predicate Lists(list: seq<(Url, Option<RelayMetadata>)>, url: Url) {
    exists x :: x in list && x.0 == url
  }

  /** Every flag the list gives a relay. */
  function ListFlags(list: seq<(Url, Option<RelayMetadata>)>, url: Url): Flags {
    if list == [] then NONE
    else
      var last := list[|list| - 1];
      Add(ListFlags(list[..|list| - 1], url), if last.0 == url then MarkFlags(last.1) else NONE)
  }

  lemma AddHas(a: Flags, b: Flags, f: Flags)
    ensures Has(Add(a, b), f) <==> Has(a, f) || Has(b, f)
  {
    assert (a + b) * f == (a * f) + (b * f);
  }

  /** The bits of the flags. */
  lemma BitsMean(flags: Flags)
    ensures Has(flags, READ) <==> 0 in flags
    ensures Has(flags, WRITE) <==> 1 in flags
    ensures Has(flags, PRIVATE_MESSAGE) <==> 2 in flags
    ensures OthersOf(flags) == flags - {0, 1} && Cleared(flags, PRIVATE_MESSAGE) == flags - {2}
  {
    assert 0 in flags ==> 0 in flags * READ;
    assert 1 in flags ==> 1 in flags * WRITE;
    assert 2 in flags ==> 2 in flags * PRIVATE_MESSAGE;
  }

  lemma AddIsUnion(a: Flags, b: Flags, c: Flags)
    ensures Add(Add(a, b), c) == Add(a, Add(b, c))
    ensures Add(a, NONE) == a && Add(NONE, a) == a && Add(a, a) == a
    ensures Cleared(NONE, a) == NONE
  {
  }

  /** The flags a list gives a relay are its marks, and no others. */
  lemma {:induction false} ListFlagsMeanMarks(list: seq<(Url, Option<RelayMetadata>)>, url: Url)
    ensures Has(ListFlags(list, url), READ) <==> MarksRead(list, url)
    ensures Has(ListFlags(list, url), WRITE) <==> MarksWrite(list, url)
    ensures OthersOf(ListFlags(list, url)) == NONE
  {
    if list != [] {
      var init, last := list[..|list| - 1], list[|list| - 1];
      ListFlagsMeanMarks(init, url);
      assert list == init + [last];
      var f := if last.0 == url then MarkFlags(last.1) else NONE;
      AddHas(ListFlags(init, url), f, READ);
      AddHas(ListFlags(init, url), f, WRITE);
      MarkIs(last.1);
      assert forall x :: x in list <==> x in init || x == last;
    }
  }

  lemma MarkIs(metadata: Option<RelayMetadata>)
    ensures OthersOf(MarkFlags(metadata)) == NONE && OthersOf(NONE) == NONE
    ensures Has(MarkFlags(metadata), READ) <==> metadata != Some(Write)
    ensures Has(MarkFlags(metadata), WRITE) <==> metadata != Some(Read)
    ensures !Has(NONE, READ) && !Has(NONE, WRITE)
  {
    assert 0 in READ_WRITE * READ && 1 in READ_WRITE * WRITE;
    assert 0 in READ * READ && 1 in WRITE * WRITE;
  }

  /** Clearing READ and WRITE and adding the list's flags leaves exactly the list's marks, and every other flag. */
  lemma ClearedThenListed(list: seq<(Url, Option<RelayMetadata>)>, url: Url, before: Flags)
    ensures var after := Add(Cleared(before, READ_WRITE), ListFlags(list, url));
            && (Has(after, READ) <==> MarksRead(list, url))
            && (Has(after, WRITE) <==> MarksWrite(list, url))
            && OthersOf(after) == OthersOf(before)
  {
    hide MarksRead, MarksWrite, ListFlags;
    ListFlagsMeanMarks(list, url);
    AddHas(Cleared(before, READ_WRITE), ListFlags(list, url), READ);
    AddHas(Cleared(before, READ_WRITE), ListFlags(list, url), WRITE);
  }

  /** The flag a NIP-17 list gives a relay. */
  function InboxFlags(list: seq<Url>, url: Url): Flags {
    if url in list then PRIVATE_MESSAGE else NONE
  }

  lemma NoInbox(url: Url)
    ensures InboxFlags([], url) == NONE
  {
  }

  lemma OneMoreInbox(list: seq<Url>, x: Url, url: Url)
    ensures InboxFlags(list + [x], url)
            == if x == url then Add(InboxFlags(list, url), PRIVATE_MESSAGE) else InboxFlags(list, url)
  {
  }

  /** Clearing PRIVATE_MESSAGE and adding it for what the list names leaves exactly that, and every other flag. */
  lemma ClearedThenInbox(list: seq<Url>, url: Url, before: Flags)
    ensures var after := Add(Cleared(before, PRIVATE_MESSAGE), InboxFlags(list, url));
            && (Has(after, PRIVATE_MESSAGE) <==> url in list)
            && Cleared(after, PRIVATE_MESSAGE) == Cleared(before, PRIVATE_MESSAGE)
  {
    AddHas(Cleared(before, PRIVATE_MESSAGE), InboxFlags(list, url), PRIVATE_MESSAGE);
    assert 2 in PRIVATE_MESSAGE * PRIVATE_MESSAGE;
  }

  /**
    Flipping READ and WRITE and adding a mark leaves just that mark if and only if the
    relay is unmarked or the flag the mark leaves out was set before.
  */
  lemma FlippedIsReplacedIff(before: Flags, metadata: Option<RelayMetadata>)
    ensures var after := Add(Remove(before, READ_WRITE), MarkFlags(metadata));
            && (ReadWriteOf(after) == MarkFlags(metadata)
                <==> metadata.None? || Has(before, if metadata == Some(Read) then WRITE else READ))
            && OthersOf(after) == OthersOf(before)
  {
    var after := Add(Remove(before, READ_WRITE), MarkFlags(metadata));
    assert forall bit :: bit in READ_WRITE ==> (bit in after <==> bit !in before || bit in MarkFlags(metadata));
    assert Has(before, WRITE) <==> 1 in before * WRITE;
    assert Has(before, READ) <==> 0 in before * READ;
    assert 1 in ReadWriteOf(after) <==> 1 in after;
    assert 0 in ReadWriteOf(after) <==> 0 in after;
  }

  /** So the mark a relay already has, sent again, gives it both flags. */
  lemma SameMarkTwiceGivesBoth(metadata: RelayMetadata)
    ensures var mark := MarkFlags(Some(metadata));
            ReadWriteOf(Add(Remove(mark, READ_WRITE), mark)) == READ_WRITE
  {
  }
}
