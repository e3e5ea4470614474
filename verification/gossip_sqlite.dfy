/**
  The gossip tables of the SQLite store: the relays by url, and a row per user and
  relay. A url is the text the table holds, without its trailing slash; a user is its
  row in the table of public keys.
*/
module GossipSqlite {
  import opened Wrappers
  import opened Events
  import opened Gossip

  type UserId = nat
  type RelayId = nat

  datatype Row = Row(flags: Flags, received: nat, last: nat)

  class Transaction {
    var relays: map<Url, RelayId>
    var nextRelay: RelayId
    var users: map<(UserId, RelayId), Row>

    /** Urls are unique and rows name saved relays. */
    ghost predicate Valid()
      reads this
    {
      && (forall u, v :: u in relays && v in relays && relays[u] == relays[v] ==> u == v)
      && (forall u :: u in relays ==> relays[u] < nextRelay)
      && (forall k :: k in users ==> k.1 < nextRelay)
    }

    function RowAt(user: UserId, url: Url): Option<Row>
      reads this
    {
      if url in relays && (user, relays[url]) in users then Some(users[(user, relays[url])]) else None
    }

    /** A user without a row for the relay has no flags there. */
    function FlagsAt(user: UserId, url: Url): Flags
      reads this
    {
      match RowAt(user, url)
      case Some(row) => row.flags
      case None => NONE
    }

    function CountersAt(user: UserId, url: Url): (nat, nat)
      reads this
    {
      match RowAt(user, url)
      case Some(row) => (row.received, row.last)
      case None => (0, 0)
    }

    /** Nothing but this user's row for this relay has changed. */
    twostate predicate OnlyRowAt(user: UserId, url: Url)
      reads this
    {
      forall u: UserId, r: Url :: u != user || r != url ==> RowAt(u, r) == old(RowAt(u, r))
    }

    method GetOrSaveRelayUrl(url: Url) returns (id: RelayId)
      requires Valid()
      modifies this
      ensures Valid()
      ensures url in relays && relays[url] == id && users == old(users)
      ensures forall user, u :: RowAt(user, u) == old(RowAt(user, u))
    {
      if url in relays {
        id := relays[url];
      } else {
        id := nextRelay;
        relays := relays[url := id];
        nextRelay := nextRelay + 1;
      }
    }

    method RemoveFlagFromUserRelays(user: UserId, flags: Flags)
      requires Valid()
      modifies this`users
      ensures Valid()
      ensures forall url :: FlagsAt(user, url) == Cleared(old(FlagsAt(user, url)), flags)
      ensures forall url :: CountersAt(user, url) == old(CountersAt(user, url))
      ensures forall url :: RowAt(user, url).Some? <==> old(RowAt(user, url)).Some?
      ensures forall other, url :: other != user ==> RowAt(other, url) == old(RowAt(other, url))
    {
      hide Cleared;
      AddIsUnion(flags, NONE, NONE);
      users := map k | k in users ::
        if k.0 == user then users[k].(flags := Cleared(users[k].flags, flags)) else users[k];
    }

    /** The upsert of the list statements: a new row counts nothing, an old one gets the flags on top. */
    method AddFlags(user: UserId, url: Url, flags: Flags)
      requires Valid()
      modifies this
      ensures Valid() && OnlyRowAt(user, url) && RowAt(user, url).Some?
      ensures FlagsAt(user, url) == Add(old(FlagsAt(user, url)), flags)
      ensures CountersAt(user, url) == old(CountersAt(user, url))
    {
      hide Add;
      AddIsUnion(flags, NONE, NONE);
      var id := GetOrSaveRelayUrl(url);
      var key := (user, id);
      users := users[key := if key in users then users[key].(flags := Add(users[key].flags, flags))
        else Row(flags, 0, 0)];
    }

    method UpdateRelayPerUser(user: UserId, url: Url, flags: Flags, now: nat)
      requires Valid()
      modifies this
      ensures Valid() && OnlyRowAt(user, url)
      ensures RowAt(user, url) == Some(Row(old(FlagsAt(user, url)) + flags, old(CountersAt(user, url)).0 + 1, now))
    {
      AddIsUnion(flags, NONE, NONE);
      var id := GetOrSaveRelayUrl(url);
      var key := (user, id);
      users := users[key :=
        if key in users then Row(Add(users[key].flags, flags), users[key].received + 1, now) else Row(flags, 1, now)];
    }

    /** The loop over a NIP-65 list: every entry adds its mark. */
    method AddMarks(user: UserId, list: seq<(Url, Option<RelayMetadata>)>)
      requires Valid()
      modifies this
      ensures Valid()
      ensures forall url :: FlagsAt(user, url) == Add(old(FlagsAt(user, url)), ListFlags(list, url))
      ensures forall url :: CountersAt(user, url) == old(CountersAt(user, url))
      ensures forall url :: RowAt(user, url).Some? <==> old(RowAt(user, url)).Some? || Lists(list, url)
      ensures forall other, url :: other != user ==> RowAt(other, url) == old(RowAt(other, url))
    {
      hide Add, MarkFlags, ListFlags, Lists, RowAt;
      forall url
        ensures FlagsAt(user, url) == Add(FlagsAt(user, url), ListFlags(list[..0], url)) && !Lists(list[..0], url)
      {
        NothingListed(url);
        assert list[..0] == [];
        AddIsUnion(FlagsAt(user, url), NONE, NONE);
      }
      for i := 0 to |list|
        invariant Valid()
        invariant forall url :: FlagsAt(user, url) == Add(old(FlagsAt(user, url)), ListFlags(list[..i], url))
        invariant forall url :: CountersAt(user, url) == old(CountersAt(user, url))
        invariant forall url :: RowAt(user, url).Some? <==> old(RowAt(user, url)).Some? || Lists(list[..i], url)
        invariant forall other, url :: other != user ==> RowAt(other, url) == old(RowAt(other, url))
      {
        var (relayUrl, metadata) := list[i];
        AddFlags(user, relayUrl, MarkFlags(metadata));
        forall url
          ensures FlagsAt(user, url) == Add(old(FlagsAt(user, url)), ListFlags(list[..i + 1], url))
          ensures Lists(list[..i + 1], url) <==> Lists(list[..i], url) || url == relayUrl
        {
          assert list[..i] + [list[i]] == list[..i + 1];
          OneMoreListed(list[..i], list[i], url);
          AddIsUnion(old(FlagsAt(user, url)), ListFlags(list[..i], url), MarkFlags(metadata));
          AddIsUnion(ListFlags(list[..i], url), NONE, NONE);
        }
      }
      assert list[..|list|] == list;
    }

    method UpdateNip65Relays(user: UserId, list: seq<(Url, Option<RelayMetadata>)>)
      requires Valid()
      modifies this
      ensures Valid()
      ensures forall url :: 0 in FlagsAt(user, url) <==> MarksRead(list, url)
      ensures forall url :: 1 in FlagsAt(user, url) <==> MarksWrite(list, url)
      ensures forall url :: FlagsAt(user, url) - {0, 1} == old(FlagsAt(user, url)) - {0, 1}
      ensures forall url :: CountersAt(user, url) == old(CountersAt(user, url))
      ensures forall url :: RowAt(user, url).Some? <==> old(RowAt(user, url)).Some? || Lists(list, url)
      ensures forall other, url :: other != user ==> RowAt(other, url) == old(RowAt(other, url))
    {
      hide Has, Add, Cleared, OthersOf, ListFlags, MarksRead, MarksWrite, Lists, RowAt, FlagsAt, CountersAt;
      RemoveFlagFromUserRelays(user, READ_WRITE);
      AddMarks(user, list);
      forall url
        ensures 0 in FlagsAt(user, url) <==> MarksRead(list, url)
        ensures 1 in FlagsAt(user, url) <==> MarksWrite(list, url)
        ensures FlagsAt(user, url) - {0, 1} == old(FlagsAt(user, url)) - {0, 1}
      {
        ClearedThenListed(list, url, old(FlagsAt(user, url)));
        BitsMean(FlagsAt(user, url));
        BitsMean(old(FlagsAt(user, url)));
      }
    }

    /** The loop over a NIP-17 list. */
    method AddInboxes(user: UserId, list: seq<Url>)
      requires Valid()
      modifies this
      ensures Valid()
      ensures forall url :: FlagsAt(user, url) == Add(old(FlagsAt(user, url)), InboxFlags(list, url))
      ensures forall url :: CountersAt(user, url) == old(CountersAt(user, url))
      ensures forall url :: RowAt(user, url).Some? <==> old(RowAt(user, url)).Some? || url in list
      ensures forall other, url :: other != user ==> RowAt(other, url) == old(RowAt(other, url))
    {
      hide Add, InboxFlags, RowAt;
      forall url
        ensures FlagsAt(user, url) == Add(FlagsAt(user, url), InboxFlags(list[..0], url))
      {
        NoInbox(url);
        assert list[..0] == [];
        AddIsUnion(FlagsAt(user, url), NONE, NONE);
      }
      for i := 0 to |list|
        invariant Valid()
        invariant forall url :: FlagsAt(user, url) == Add(old(FlagsAt(user, url)), InboxFlags(list[..i], url))
        invariant forall url :: CountersAt(user, url) == old(CountersAt(user, url))
        invariant forall url :: RowAt(user, url).Some? <==> old(RowAt(user, url)).Some? || url in list[..i]
        invariant forall other, url :: other != user ==> RowAt(other, url) == old(RowAt(other, url))
      {
        AddFlags(user, list[i], PRIVATE_MESSAGE);
        forall url
          ensures FlagsAt(user, url) == Add(old(FlagsAt(user, url)), InboxFlags(list[..i + 1], url))
          ensures url in list[..i + 1] <==> url in list[..i] || url == list[i]
        {
          assert list[..i] + [list[i]] == list[..i + 1];
          OneMoreInbox(list[..i], list[i], url);
          AddIsUnion(old(FlagsAt(user, url)), InboxFlags(list[..i], url), PRIVATE_MESSAGE);
        }
      }
      assert list[..|list|] == list;
    }

    method UpdateNip17Relays(user: UserId, list: seq<Url>)
      requires Valid()
      modifies this
      ensures Valid()
      ensures forall url :: 2 in FlagsAt(user, url) <==> url in list
      ensures forall url :: FlagsAt(user, url) - {2} == old(FlagsAt(user, url)) - {2}
      ensures forall url :: CountersAt(user, url) == old(CountersAt(user, url))
      ensures forall url :: RowAt(user, url).Some? <==> old(RowAt(user, url)).Some? || url in list
      ensures forall other, url :: other != user ==> RowAt(other, url) == old(RowAt(other, url))
    {
      hide Has, Add, Cleared, InboxFlags, RowAt, FlagsAt, CountersAt;
      RemoveFlagFromUserRelays(user, PRIVATE_MESSAGE);
      AddInboxes(user, list);
      forall url
        ensures 2 in FlagsAt(user, url) <==> url in list
        ensures FlagsAt(user, url) - {2} == old(FlagsAt(user, url)) - {2}
      {
        ClearedThenInbox(list, url, old(FlagsAt(user, url)));
        BitsMean(FlagsAt(user, url));
        BitsMean(old(FlagsAt(user, url)));
      }
    }
  }

  lemma NothingListed(url: Url)
    ensures ListFlags([], url) == NONE && !Lists([], url)
  {
  }

  lemma OneMoreListed(list: seq<(Url, Option<RelayMetadata>)>, x: (Url, Option<RelayMetadata>), url: Url)
    ensures ListFlags(list + [x], url) == Add(ListFlags(list, url), if x.0 == url then MarkFlags(x.1) else NONE)
    ensures Lists(list + [x], url) <==> Lists(list, url) || x.0 == url
  {
    assert (list + [x])[..|list|] == list;
    assert x in list + [x];
    assert forall y :: y in list + [x] <==> y in list || y == x;
  }
}
