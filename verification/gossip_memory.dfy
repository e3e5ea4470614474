/**
  The in-memory gossip store: which relays it picks for a user, and which users'
  relay lists it holds to be out of date.
*/
module GossipMemory {
  import opened Wrappers
  import opened Order
  import opened Events
  import opened Gossip

  const TTL_OUTDATED: nat := 86_400
  const MAX_RELAYS_PER_PK: nat := 7
  const MAX_U64: nat := 0xFFFF_FFFF_FFFF_FFFF

  type Limit = n: nat | n < 256

  datatype RelayData = RelayData(flags: Flags, received: nat, last: Option<Timestamp>)

  /** The relays in the order they came; no url comes twice. */
  datatype PkData = PkData(lastNip17: Option<Timestamp>, lastNip65: Option<Timestamp>, relays: seq<(Url, RelayData)>)

  const NO_DATA := PkData(None, None, [])

  /** What the selection asks of a url's host and scheme. */
  datatype UrlTraits = UrlTraits(onion: bool, local: bool, secure: bool)

  datatype AllowedRelays = AllowedRelays(onion: bool, local: bool, withoutTls: bool)

  predicate IsAllowed(allowed: AllowedRelays, url: UrlTraits) {
    if !allowed.onion && url.onion then false
    else if !allowed.local && url.local then false
    else if !allowed.withoutTls && !url.secure then false
    else true
  }

  // ---- ranking ----

  /** A time comes before none. */
  predicate Later(a: Option<Timestamp>, b: Option<Timestamp>) {
    a.Some? && (b.None? || a.value > b.value)
  }

  /** More events received, or as many and the last one later. */
  predicate Outranks(a: RelayData, b: RelayData) {
    a.received > b.received || (a.received == b.received && Later(a.last, b.last))
  }

  /** Position `i` comes before `j` in the ranking; among equals the one that came first does. */
  predicate RanksBefore(relays: seq<(Url, RelayData)>, i: nat, j: nat) {
    i < |relays| && j < |relays| &&
    (Outranks(relays[i].1, relays[j].1) || (!Outranks(relays[j].1, relays[i].1) && i < j))
  }

  function Ranking(relays: seq<(Url, RelayData)>): (nat, nat) -> bool {
    (i: nat, j: nat) => RanksBefore(relays, i, j)
  }

  lemma RankingOrders(relays: seq<(Url, RelayData)>, s: set<nat>)
    requires forall i :: i in s ==> i < |relays|
    ensures StrictTotal(Ranking(relays), s)
  {
  }

  predicate Ranked(relays: seq<(Url, RelayData)>, order: seq<nat>) {
    forall a, b :: 0 <= a < b < |order| ==> RanksBefore(relays, order[a], order[b])
  }

  /** Puts a position behind everything in front of it: the step of a stable sort. */
  function Placed(relays: seq<(Url, RelayData)>, order: seq<nat>, i: nat): (r: seq<nat>)
    requires i < |relays| && Ranked(relays, order) && forall k: nat :: k in order ==> k < |relays| && k != i
    ensures Ranked(relays, r) && |r| == |order| + 1
    ensures forall k: nat :: k in r <==> k in order || k == i
  {
    if order == [] then [i]
    else
      var last, init := order[|order| - 1], order[..|order| - 1];
      assert order == init + [last];
      if RanksBefore(relays, last, i) then
        EverythingBefore(relays, order, i);
        order + [i]
      else
        assert last in order;
        assert forall k: nat :: k in init ==> k in order;
        var placed := Placed(relays, init, i);
        LastStays(relays, order, i, placed);
        placed + [last]
  }

  lemma EverythingBefore(relays: seq<(Url, RelayData)>, order: seq<nat>, i: nat)
    requires Ranked(relays, order) && order != [] && RanksBefore(relays, order[|order| - 1], i)
    ensures Ranked(relays, order + [i])
  {
    forall a | 0 <= a < |order|
      ensures RanksBefore(relays, order[a], i)
    {
      if a < |order| - 1 {
        assert RanksBefore(relays, order[a], order[|order| - 1]);
      }
    }
    hide RanksBefore;
  }

  lemma LastStays(relays: seq<(Url, RelayData)>, order: seq<nat>, i: nat, placed: seq<nat>)
    requires Ranked(relays, order) && order != [] && i < |relays| && order[|order| - 1] < |relays|
    requires i != order[|order| - 1] && !RanksBefore(relays, order[|order| - 1], i)
    requires Ranked(relays, placed) && forall k: nat :: k in placed ==> k in order[..|order| - 1] || k == i
    ensures Ranked(relays, placed + [order[|order| - 1]])
  {
    var last := order[|order| - 1];
    assert RanksBefore(relays, i, last);
    hide RanksBefore;
    forall a | 0 <= a < |placed|
      ensures RanksBefore(relays, placed[a], last)
    {
      assert placed[a] in placed;
      if placed[a] != i {
        assert placed[a] in order[..|order| - 1];
      }
    }
  }

  /** The standard library's stable sort. */
  function StableSort(relays: seq<(Url, RelayData)>, found: seq<nat>): (r: seq<nat>)
    requires forall k: nat :: k in found ==> k < |relays|
    requires forall a, b :: 0 <= a < b < |found| ==> found[a] != found[b]
    ensures Ranked(relays, r) && |r| == |found|
    ensures forall k: nat :: k in r <==> k in found
  {
    if found == [] then []
    else
      var last, init := found[|found| - 1], found[..|found| - 1];
      assert found == init + [last];
      assert last in found && forall k: nat :: k in init ==> k in found;
      Placed(relays, StableSort(relays, init), last)
  }

  ghost function Elements(order: seq<nat>): set<nat> { set k | k in order }

  lemma {:induction false} DistinctElements(relays: seq<(Url, RelayData)>, order: seq<nat>)
    requires Ranked(relays, order) && forall k: nat :: k in order ==> k < |relays|
    ensures |Elements(order)| == |order|
  {
    if order != [] {
      var last, init := order[|order| - 1], order[..|order| - 1];
      assert order == init + [last];
      DistinctElements(relays, init);
      assert last !in init;
      assert Elements(order) == Elements(init) + {last};
    }
  }

  /** The beginning of a ranked sequence holds its first elements. */
  lemma BeginningIsFirst(relays: seq<(Url, RelayData)>, order: seq<nat>, n: nat)
    requires Ranked(relays, order) && n <= |order| && forall k: nat :: k in order ==> k < |relays|
    ensures Elements(order[..n]) == FirstN(Ranking(relays), Elements(order), n)
  {
    var all, first := Elements(order), Elements(order[..n]);
    RankingOrders(relays, all);
    DistinctElements(relays, order);
    DistinctElements(relays, order[..n]);
    forall e, f | e in first && f in all && Ranking(relays)(f, e)
      ensures f in first
    {
      var a :| 0 <= a < n && order[a] == e;
      var b :| 0 <= b < |order| && order[b] == f;
    }
    FirstNUnique(Ranking(relays), all, n, first);
  }

  // ---- staleness ----

  datatype ListKind = Nip17 | Nip65

  datatype Status = Missing | Updated | Outdated

  /** A time plus a duration stops at the greatest time. */
  function Plus(t: Timestamp, seconds: nat): Timestamp {
    if t + seconds > MAX_U64 then MAX_U64 else t + seconds
  }

  predicate Stale(last: Timestamp, now: Timestamp) { Plus(last, TTL_OUTDATED) < now }

  datatype OutdatedKey = OutdatedKey(key: PublicKey, checked: Timestamp)

  /** Longest unchecked first, ties by key. */
  predicate StalerThan(a: OutdatedKey, b: OutdatedKey) {
    if a.checked == b.checked then LexLess(a.key, b.key) else a.checked < b.checked
  }

  lemma OutdatedOrdered(s: set<OutdatedKey>)
    ensures StrictTotal(StalerThan, s)
  {
    LexOrdered(set k | k in s :: k.key);
    forall a, b, c | a in s && b in s && c in s && StalerThan(a, b) && StalerThan(b, c)
      ensures StalerThan(a, c)
    {
      if a.checked == b.checked && b.checked == c.checked {
        LexTransitive(a.key, b.key, c.key);
      }
    }
    forall a, b | a in s && b in s
      ensures !StalerThan(a, a) && (a != b ==> StalerThan(a, b) || StalerThan(b, a))
    {
      LexConnected(a.key, b.key);
    }
  }

  class GossipStore {
    var keys: map<PublicKey, PkData>
    const traits: Url -> UrlTraits

    constructor (traits: Url -> UrlTraits)
      ensures keys == map[] && this.traits == traits
    {
      keys := map[];
      this.traits := traits;
    }

    function RelaysOf(key: PublicKey): seq<(Url, RelayData)>
      reads this
    {
      if key in keys then keys[key].relays else []
    }

    /** The positions of a user's relays that may be picked. */
    ghost function Eligible(key: PublicKey, flag: Flags, allowed: AllowedRelays): set<nat>
      reads this
    {
      set i: nat | i < |RelaysOf(key)| && IsEligible(key, flag, allowed, i)
    }

    /** The relay has one of the flags asked for, and whatever its url is, that is allowed. */
    ghost predicate IsEligible(key: PublicKey, flag: Flags, allowed: AllowedRelays, i: nat)
      requires i < |RelaysOf(key)|
      reads this
    {
      var (url, data) := RelaysOf(key)[i];
      && (exists bit :: bit in data.flags && bit in flag)
      && (traits(url).onion ==> allowed.onion)
      && (traits(url).local ==> allowed.local)
      && (!traits(url).secure ==> allowed.withoutTls)
    }

    lemma EligibleMeans(key: PublicKey, flag: Flags, allowed: AllowedRelays, i: nat)
      requires i < |RelaysOf(key)|
      ensures IsEligible(key, flag, allowed, i) <==>
              IsAllowed(allowed, traits(RelaysOf(key)[i].0)) && Has(RelaysOf(key)[i].1.flags, flag)
    {
      var flags := RelaysOf(key)[i].1.flags;
      if Has(flags, flag) {
        var bit :| bit in flags * flag;
      }
      if bit :| bit in flags && bit in flag {
        assert bit in flags * flag;
      }
    }

    /** The positions of the eligible relays, in the order they came. */
    method FindEligible(key: PublicKey, flag: Flags, allowed: AllowedRelays) returns (found: seq<nat>)
      ensures forall a, b :: 0 <= a < b < |found| ==> found[a] < found[b]
      ensures forall k: nat :: k in found <==> k in Eligible(key, flag, allowed)
    {
      hide Has, IsAllowed, IsEligible;
      var relays := RelaysOf(key);
      found := [];
      for i := 0 to |relays|
        invariant forall a, b :: 0 <= a < b < |found| ==> found[a] < found[b]
        invariant forall a :: 0 <= a < |found| ==> found[a] < i
        invariant forall k: nat :: k in found <==> k < i && IsEligible(key, flag, allowed, k)
      {
        EligibleMeans(key, flag, allowed, i);
        if !IsAllowed(allowed, traits(relays[i].0)) {
          continue;
        }
        if Has(relays[i].1.flags, flag) {
          found := found + [i];
        }
      }
    }

    /** The first `limit` eligible relays, in the order of their rank; no other eligible one outranks any of them. */
    method GetRelaysByFlag(key: PublicKey, flag: Flags, allowed: AllowedRelays, limit: Limit) returns (urls: seq<Url>)
      ensures |urls| == Min(limit, |Eligible(key, flag, allowed)|)
      ensures exists picked: seq<nat> ::
                && UrlsAt(RelaysOf(key), picked, urls)
                && InRankOrder(RelaysOf(key), picked)
                && Elements(picked) == FirstN(Ranking(RelaysOf(key)), Eligible(key, flag, allowed), limit)
                && NoneOutranks(RelaysOf(key), Eligible(key, flag, allowed), picked)
    {
      hide Has, IsAllowed, RanksBefore, FirstN;
      var relays := RelaysOf(key);
      var found := FindEligible(key, flag, allowed);
      var order := StableSort(relays, found);
      assert forall a :: 0 <= a < |order| ==> order[a] in order;
      var n := Min(limit, |order|);
      ghost var picked := order[..n];
      urls := seq(n, a requires 0 <= a < n => relays[order[a]].0);
      assert Elements(order) == Eligible(key, flag, allowed);
      PickedAreFirst(relays, order, limit);
      RankedMeans(relays, picked);
      assert UrlsAt(relays, picked, urls);
    }

    method GetStatus(key: PublicKey, list: ListKind, now: Timestamp) returns (s: Status)
      ensures s == StatusOf(key, list, now)
      ensures s == Missing <==>
        key !in keys || (list == Nip17 && keys[key].lastNip17.None?) || (list == Nip65 && keys[key].lastNip65.None?)
      ensures s == Outdated <==>
        key in keys && exists last ::
          last + 86_400 < now
          && (|| (list == Nip17 && keys[key].lastNip17 == Some(last))
              || (list == Nip65 && keys[key].lastNip65 == Some(last)))
    {
      if key in keys {
        var data := keys[key];
        match (list, data.lastNip17, data.lastNip65) {
          case (Nip17, Some(last), _) => s := if Stale(last, now) then Outdated else Updated;
          case (Nip65, _, Some(last)) => s := if Stale(last, now) then Outdated else Updated;
          case (_, _, _) => s := Missing;
        }
      } else {
        s := Missing;
      }
    }

    /** When the user's list was last asked for, if ever. */
    function LastChecked(key: PublicKey, list: ListKind): Option<Timestamp>
      reads this
    {
      if key !in keys then None else if list.Nip17? then keys[key].lastNip17 else keys[key].lastNip65
    }

    function StatusOf(key: PublicKey, list: ListKind, now: Timestamp): Status
      reads this
    {
      match LastChecked(key, list)
      case None => Missing
      case Some(last) => if last + 86_400 < now then Outdated else Updated
    }

    /** Exactly the keys whose status is `Outdated`. */
    ghost function AllOutdated(list: ListKind, now: Timestamp): set<OutdatedKey>
      reads this
    {
      OutdatedAmong(keys.Keys, list, now)
    }

    ghost function OutdatedAmong(some: set<PublicKey>, list: ListKind, now: Timestamp): set<OutdatedKey>
      reads this
    {
      set k | k in some && StatusOf(k, list, now) == Outdated :: OutdatedKey(k, LastChecked(k, list).value)
    }

    lemma NoKeys(list: ListKind, now: Timestamp)
      ensures OutdatedAmong({}, list, now) == {}
    {
    }

    lemma StatusMeans(list: ListKind, now: Timestamp)
      ensures forall key :: StatusOf(key, list, now) == Outdated <==>
                LastChecked(key, list).Some? && Stale(LastChecked(key, list).value, now)
    {
    }

    lemma OneMoreKey(seen: set<PublicKey>, key: PublicKey, list: ListKind, now: Timestamp)
      ensures OutdatedAmong(seen + {key}, list, now)
           == OutdatedAmong(seen, list, now) +
              if StatusOf(key, list, now) == Outdated then {OutdatedKey(key, LastChecked(key, list).value)} else {}
    {
    }

    method CollectOutdatedPublicKeys(list: ListKind, limit: nat, now: Timestamp) returns (outdated: set<OutdatedKey>)
      requires limit > 0
      ensures outdated == FirstN(StalerThan, AllOutdated(list, now), limit)
      ensures forall k :: k in AllOutdated(list, now) <==>
                k.key in keys && k.checked + 86_400 < now
                && (list == Nip17 ==> keys[k.key].lastNip17 == Some(k.checked))
                && (list == Nip65 ==> keys[k.key].lastNip65 == Some(k.checked))
      ensures |outdated| == Min(limit, |AllOutdated(list, now)|)
      ensures forall a, b :: a in outdated && b in AllOutdated(list, now) && b !in outdated ==>
                a.checked < b.checked || (a.checked == b.checked && LexLess(a.key, b.key))
    {
      hide FirstN, AllOutdated;
      NoneStaler(AllOutdated(list, now), limit);
      OutdatedMeans(list, now);
      hide StalerThan;
      var all := FindOutdated(list, now);
      outdated := TakeStalest(all, limit);
      OutdatedOrdered(all);
      FirstNSize(StalerThan, all, limit);
    }

    lemma OutdatedMeans(list: ListKind, now: Timestamp)
      ensures forall k :: k in AllOutdated(list, now) <==>
                k.key in keys && k.checked + 86_400 < now
                && (list == Nip17 ==> keys[k.key].lastNip17 == Some(k.checked))
                && (list == Nip65 ==> keys[k.key].lastNip65 == Some(k.checked))
    {
      forall k: OutdatedKey | k.key in keys && LastChecked(k.key, list) == Some(k.checked) && k.checked + 86_400 < now
        ensures k in AllOutdated(list, now)
      {
        assert StatusOf(k.key, list, now) == Outdated;
      }
    }

    static lemma NoneStaler(all: set<OutdatedKey>, limit: nat)
      ensures var taken := FirstN(StalerThan, all, limit);
              forall a, b :: a in taken && b in all && b !in taken ==>
                a.checked < b.checked || (a.checked == b.checked && LexLess(a.key, b.key))
    {
      OutdatedOrdered(all);
      FirstNDownClosed(StalerThan, all, limit);
      var taken := FirstN(StalerThan, all, limit);
      assert taken <= all;
      hide FirstN, LexLess;
      forall a, b | a in taken && b in all && b !in taken
        ensures a.checked < b.checked || (a.checked == b.checked && LexLess(a.key, b.key))
      {
        assert !StalerThan(b, a);
        assert StalerThan(a, b);
      }
    }

    method FindOutdated(list: ListKind, now: Timestamp) returns (all: set<OutdatedKey>)
      ensures all == AllOutdated(list, now)
    {
      hide Stale, OutdatedAmong, StatusOf;
      StatusMeans(list, now);
      NoKeys(list, now);
      all := {};
      var rest := keys.Keys;
      assert keys.Keys - rest == {};
      while rest != {}
        invariant rest <= keys.Keys
        invariant all == OutdatedAmong(keys.Keys - rest, list, now)
        decreases |rest|
      {
        var key :| key in rest;
        OneMoreKey(keys.Keys - rest, key, list, now);
        assert keys.Keys - (rest - {key}) == keys.Keys - rest + {key};
        rest := rest - {key};
        var lastCheckedAt := match list case Nip17 => keys[key].lastNip17 case Nip65 => keys[key].lastNip65;
        if lastCheckedAt.Some? && Stale(lastCheckedAt.value, now) {
          all := all + {OutdatedKey(key, lastCheckedAt.value)};
        }
      }
      assert keys.Keys - rest == keys.Keys;
    }

    /** Iterating an ordered set and taking `limit`. */
    static method TakeStalest(all: set<OutdatedKey>, limit: nat) returns (taken: set<OutdatedKey>)
      ensures taken == FirstN(StalerThan, all, limit)
    {
      hide StalerThan, FirstN, DownClosed, StrictTotal;
      var rest := all;
      taken := {};
      OutdatedOrdered(all);
      NothingTaken(all);
      while |taken| < limit && rest != {}
        invariant taken <= all && rest == all - taken
        invariant DownClosed(StalerThan, all, taken)
        invariant |taken| <= limit
        decreases |rest|
      {
        LeastRemains(all, rest);
        var k :| k in rest && forall g | g in rest :: g == k || StalerThan(k, g);
        LeastOfRest(StalerThan, all, taken, k);
        taken, rest := taken + {k}, rest - {k};
      }
      assert rest == {} ==> taken == all;
      TakenAreFirst(StalerThan, all, taken, limit);
    }

    static lemma NothingTaken(all: set<OutdatedKey>)
      ensures DownClosed(StalerThan, all, {})
    {
    }

    static lemma LeastRemains(all: set<OutdatedKey>, rest: set<OutdatedKey>)
      requires StrictTotal(StalerThan, all) && rest <= all && rest != {}
      ensures exists k :: k in rest && forall g :: g in rest ==> g == k || StalerThan(k, g)
    {
      hide StalerThan;
      var least := LeastExists(StalerThan, rest);
    }

    /** A relay that sent something: counted if it is known, and remembered if there is room. */
    method UpdateRelayPerUser(key: PublicKey, url: Url, flags: Flags, now: Timestamp)
      requires NoUrlTwice(RelaysOf(key))
      modifies this
      ensures keys.Keys == old(keys.Keys) + {key}
      ensures forall k :: k in old(keys) && k != key ==> keys[k] == old(keys)[k]
      ensures forall list :: LastChecked(key, list) == old(LastChecked(key, list))
      ensures NoUrlTwice(RelaysOf(key))
      ensures var before, after := old(RelaysOf(key)), RelaysOf(key);
              (exists i: nat :: i < |before| && before[i].0 == url &&
                 after == before[i := (url,
                   RelayData(before[i].1.flags + flags,
                     if before[i].1.received >= 18_446_744_073_709_551_615 then 18_446_744_073_709_551_615
                     else before[i].1.received + 1,
                     Some(now)))])
              || ((forall i: nat :: i < |before| ==> before[i].0 != url) &&
                  after == if |before| <= 7 then before + [(url, RelayData(flags, 1, Some(now)))]
                    else before)
    {
      AddIsUnion(flags, NONE, NONE);
      var data := if key in keys then keys[key] else NO_DATA;
      var i := 0;
      while i < |data.relays| && data.relays[i].0 != url
        invariant i <= |data.relays|
        invariant forall j :: 0 <= j < i ==> data.relays[j].0 != url
      {
        i := i + 1;
      }
      if i < |data.relays| {
        var known := data.relays[i].1;
        data := data.(relays := data.relays[i := (url,
          RelayData(Add(known.flags, flags), CountOne(known.received), Some(now)))]);
      } else if |data.relays| <= MAX_RELAYS_PER_PK {
        data := data.(relays := data.relays + [(url, RelayData(Add(NONE, flags), CountOne(0), Some(now)))]);
      }
      keys := keys[key := data];
    }
  }

  /** The urls of the relays at these positions. */
  predicate UrlsAt(relays: seq<(Url, RelayData)>, picked: seq<nat>, urls: seq<Url>) {
    |urls| == |picked| && forall a | 0 <= a < |picked| :: picked[a] < |relays| && urls[a] == relays[picked[a]].0
  }

  /** At least as many events received, and of as many the last one no earlier. */
  predicate NoWorse(a: RelayData, b: RelayData) {
    && b.received <= a.received
    && (b.received == a.received && b.last.Some? ==> a.last.Some? && b.last.value <= a.last.value)
  }

  /** Every picked relay is no worse than each eligible one left out. */
  predicate NoneOutranks(relays: seq<(Url, RelayData)>, eligible: set<nat>, picked: seq<nat>) {
    forall i, k | i in eligible && i !in picked && k in picked ::
      i < |relays| && k < |relays| && NoWorse(relays[k].1, relays[i].1)
  }

  /** Each relay is no worse than those behind it, and came first when it is no better. */
  predicate InRankOrder(relays: seq<(Url, RelayData)>, picked: seq<nat>) {
    forall a, b | 0 <= a < b < |picked| ::
      && picked[a] < |relays| && picked[b] < |relays|
      && NoWorse(relays[picked[a]].1, relays[picked[b]].1)
      && (NoWorse(relays[picked[b]].1, relays[picked[a]].1) ==> picked[a] < picked[b])
  }

  lemma RankedMeans(relays: seq<(Url, RelayData)>, picked: seq<nat>)
    requires Ranked(relays, picked)
    ensures InRankOrder(relays, picked)
  {
  }

  predicate NoUrlTwice(relays: seq<(Url, RelayData)>) {
    forall i, j :: 0 <= i < j < |relays| ==> relays[i].0 != relays[j].0
  }

  function CountOne(n: nat): nat { if n >= MAX_U64 then MAX_U64 else n + 1 }

  lemma PickedAreFirst(relays: seq<(Url, RelayData)>, order: seq<nat>, limit: nat)
    requires Ranked(relays, order) && forall k: nat :: k in order ==> k < |relays|
    ensures var n := Min(limit, |order|);
            && n == Min(limit, |Elements(order)|)
            && Elements(order[..n]) == FirstN(Ranking(relays), Elements(order), limit)
            && Ranked(relays, order[..n])
            && NoneOutranks(relays, Elements(order), order[..n])
  {
    var n := Min(limit, |order|);
    DistinctElements(relays, order);
    BeginningIsFirst(relays, order, n);
    RankingOrders(relays, Elements(order));
    if n < limit {
      FirstNAll(Ranking(relays), Elements(order), n);
      FirstNAll(Ranking(relays), Elements(order), limit);
    }
    forall i, k | i in Elements(order) && i !in order[..n] && k in order[..n]
      ensures i < |relays| && k < |relays| && NoWorse(relays[k].1, relays[i].1)
    {
      var a :| 0 <= a < n && order[a] == k;
      var b :| 0 <= b < |order| && order[b] == i;
      assert b >= n;
      assert RanksBefore(relays, order[a], order[b]);
    }
  }
}
