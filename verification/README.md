# A verified model of the nostr event stores, text tokenizer and relay plumbing

The project models the parts of a nostr library where several pieces of state have to
agree with each other, and proves what they promise.

* **The in-memory event store** (`memory_*.dfy`, on top of `order.dfy`, `event.dfy` and
  `filter.dfy`). `MemorySpec.Step` says, on the set of stored events and the tombstones
  alone, what one delivery does. `Memory.MemoryStore` is the store with its id map, three
  secondary indexes and loops, and `IndexEvent` is proved to do exactly one `Step`.
  `MemoryQuery` sets the query planner against a plain scan, `MemoryRuns` holds the
  invariants of whole runs, and `MemoryConvergence` the independence from delivery order.
* **The text tokenizer** (`utf8.dfy`, `scanner.dfy`, `tokenizer.dfy`). The byte scanner and
  the lazy iterator with its three pending slots yield exactly `Tokenizer.TokensFrom`, which
  is lossless, and whose slices never cut a character.
* **The SQLite store** (`sql_filter.dfy`, `sql_store.dfy`). The filter compiler pushes text
  and parameters; `ParseQuery` reads them back and an evaluator over tables gives the meaning.
  The save transaction works on a copy of the tables. `stores_agree.dfy` runs both stores
  side by side, and `sql_limit.dfy` settles queries cut by a limit.
* **Concurrency and streams**. `pool_merge.dfy` interleaves the relay tasks that share one set
  of seen ids and one bounded channel; `notification.dfy` is the lossy broadcast stream;
  `relay_handle.dfy` is the shared handle counter.
* **Gossip** (`gossip*.dfy`). List replacement in the SQLite gossip store; ranking and staleness in
  the in-memory one.

The `*_meaning.dfy` files say once more, in kinds, numbers, bytes and tags alone, what the main
operations find, answer, leave and match; each statement is proved of the operation, so that none of
the predicates the operations are built from is taken on trust.

Events are assumed to be identified by their ids wherever a theorem says `UniqueIds`; the
clock is a parameter. Foreign parsers (URLs, NIP-21, bech32) are uninterpreted functions.

## What the code does that its documentation does not say

Each of these is proved, with the exact condition under which it happens.

* The address plan of the in-memory store looks at one `d` value and no other tag: a filter with a
  non-empty window and a limit other than 0 is answered rightly on every store of events with one
  identifier if and only if its tags are exactly one `d` value (`AddressPlanAgreesIff`). Its index
  looks at an event's first `d` tag: an event is answered rightly if and only if no later `d` tag has
  another value (`IndexAgreesIff`).
* A deletion request answered `InvalidDelete` in memory keeps what its earlier tags did, and
  changes nothing if and only if they cover nothing new (`RejectedDeletionIsVoidIff`); the SQLite
  store undoes it.
* An event and a deletion request may end in different stored events when their order changes.
  `OrdersAgreeIff` says exactly when they do not, from every coherent unbounded store that would take
  both; `OwnOrdersAgreeIff` and `ForeignOrdersAgreeIff` say it for a request of the event's author and
  of somebody else. With nothing stored that precedes the event, the request has to delete it exactly
  when its tombstones keep it out. Three kinds of input fail that: a request by id, one that names an
  addressable kind without an identifier, and a replaceable event with an identifier
  (`NotDeletedEarly`, `NotDeletedEarlyByKind`, `DeletedOnlyEarly`). With a newer version stored, a
  request that deletes that version by its id lets an older one back in (`OlderVersionReturns`).
* Of the other pairs: two events always end the same (`TwoEventsAgree`); a gift wrap is removed by its
  addressee's request to vanish only if it came first (`VanishOrdersAgreeIff`); the second request to
  vanish of one author is lost (`TwoVanishesAgreeIff`); and a deletion request depends on the order if
  it names, or covers, another request (`RequestsOrdersAgreeIff`, `ForeignRequestsOrdersAgreeIff`,
  `DeletionAndVanishAgreeIff`).
* A deletion request that names a stored event's own coordinate misses it if and only if it is a
  replaceable event with an identifier, and the request names neither its id nor its kind without an
  identifier (`DeletionMissesIff`).
* `Success` from a bounded store means the event is stored if and only if there was room or
  something stored comes after it (`SuccessIsKeptIff`).
* The parenthesis balancing at the end of a URL is never reached (`UrlNeverEndsClosing`).
* The SQL compiler skips a tag without values, where the filter matches nothing
  (`EmptyTagSetsIff`); turns an empty search text, which matches everything, into a condition no row
  meets (`EmptySearchIff`); and wraps times past the signed range (`WrappedTimesIff`).
* The SQL search looks into the `title`, `description`, `subject` and `name` tags besides the content,
  where alone the filter looks: every filter with a search text and an open window selects an event it
  does not match (`TitledSample`). Over given events it selects just the matches if and only if none is
  found by a tag alone (`SearchAgreesOnIff`). `FilterAgreesIff` puts all four together: for every
  filter, exactly when the query selects what the filter matches, whatever is stored.
* The SQLite store sets a limit of 10,000 on a query that has none, and orders by time alone, so which
  of several events of one time survives a cut is open. For any filter, every result it may give is the
  in-memory one if and only if that fills the limit and is newer than all else selected
  (`AnyQueryAgreesIff`); for a filter both read alike, if and only if nothing is cut off, or the limit is
  the filter's own and no time is on both sides of the cut, with a further condition when a search finds
  events by a tag (`QueriesAgreeIff`).
* A count under a limit counts past it, and a count with limit 0 has no row (`CountMeaning`); the two
  stores' counts agree if and only if the limit is positive and cuts nothing off and no event is found
  by a tag alone (`CountsAgreeIff`).
* SQLite keeps the first deletion time of a coordinate, so a deletion keeps an event away unless an
  earlier one, older than the event, is on record (`DeletionSticksIff`, `SavedAgainIff`).
* SQLite does not look at the time of a request that names an id, so it removes an event newer than
  the request where the in-memory store keeps it (`NewerThanItsRequest`).
* A filtered delete in SQLite ignores the filter's limit (`DeletesAgreeIff`).
* Wiping the SQLite store keeps the vanished keys (`WipedRefusesIff`), and deleting with an empty
  filter keeps all tombstones; the in-memory store forgets them (`WipesAgreeIff`, `DeletesAgreeIff`).
* Given addressable events with one `d` tag, these are all the places where the two stores part,
  besides expired events, missing identifiers and times past the signed range: over every run of saves,
  filtered deletes and wipes they answer alike and hold the same if and only if each operation avoids
  them (`OneSaveAgreesIff`, `DeletesAgreeIff`, `StoresAgreeIff`).
* `GossipFlags::remove` flips bits: replacing a mark works if and only if the relay is unmarked or the
  flag left out was set before (`FlippedIsReplacedIff`), and the same mark sent twice gives both
  (`SameMarkTwiceGivesBoth`).
* The cap of seven relays per user admits an eighth (`UpdateRelayPerUser`).

## Model

| member | source | states |
|---|---|---|
| Events.KindsDisjoint | nostr/src/event/kind.rs:249-276 | the replaceable, ephemeral and addressable kinds never overlap, and the kinds with rules of their own are in none of them |
| Filters.EventsOrdered | nostr/src/event/mod.rs:107-119 | newest first, ties by lowest id, is a strict total order on any events with distinct ids |
| Order.FirstNSize | database/nostr-memory/src/store.rs:570-575 | taking `n` from an ordered set gives `n` elements, or all of them |
| Order.FirstNDownClosed | database/nostr-memory/src/store.rs:570-575 | no omitted element comes before a taken one |
| Order.FirstNUnique | database/nostr-memory/src/store.rs:570-575 | size and downward closure determine the first `n` |
| Order.FirstNInsert | database/nostr-memory/src/store.rs:160-174 | keeping only the first `n` at every step loses nothing against keeping everything and cutting at the end |
| Order.TakenAreFirst | database/nostr-memory/src/store.rs:570-577 | taking the least of what is left until there are `n`, or none is left, gives the first `n` |
| Order.LexMeans | gossip/nostr-gossip/src/lib.rs:178-186 | texts are ordered by the first place where they differ, one that ends there coming first |
| MemoryQuery.PlannerAgrees | database/nostr-memory/src/store.rs:80-136 | whichever of the four patterns answers, the query is the first `limit` matches of a plain scan; the two conditions on the address pattern are the exact ones of the next two rows |
| MemoryQuery.AddressPlanAgreesIff | database/nostr-memory/src/store.rs:94-132 | the address plan agrees with the plain scan on all stores of events with one identifier if and only if the filter's tags are exactly one `d` value |
| MemoryQuery.IndexAgreesIff | database/nostr-memory/src/store.rs:330-335 | whatever single address is asked for, an event is answered as by the plain scan if and only if none of its `d` tags has another value than the first |
| MemoryQuery.SecondIdentifierIsMissed | database/nostr-memory/src/store.rs:330-335 | for any such filter, an event that matches by its second `d` tag is found by the scan and missed by the index |
| MemoryQuery.OtherIdentifierIsMissed | database/nostr-memory/src/store.rs:330-335 | an addressable event is missed when asked for by any later, different value of its `d` tag |
| QueryMeaning.QueryMeans | database/nostr-memory/src/store.rs:544-577 | a query finds, of the stored events whose id, author, kind, time, tags and content are as asked, as many as the limit allows, each newer than every one left out, or as new with the lower id |
| QueryMeaning.ContainsMeans | nostr/src/filter/mod.rs:659-671 | a text is found in another if and only if that is something, then the text up to the case of its ASCII letters, then something |
| QueryMeaning.SearchMeans | nostr/src/filter/mod.rs:659-671 | a search alone finds an event if and only if its content contains the text anywhere; in SQLite also if a title, description, subject or name tag does |
| QueryMeaning.MatchesMeans | nostr/src/filter/mod.rs:605-690 | an event matches if and only if its fields are as asked, condition by condition |
| MemorySpec.CoversOnlyOwn | database/nostr-memory/src/store.rs:251-299 | a deletion request reaches only its own author's events, none newer than itself |
| MemorySpec.StepCoherent | database/nostr-memory/src/store.rs:181-355 | every delivery keeps ids unique, forbidden ids out, one event per address, and the capacity |
| MemorySpec.DeleteCoherent | database/nostr-memory/src/store.rs:640-664 | so does deleting by filter, clearing included |
| TagMeaning.FirstTagMeans | nostr/src/event/mod.rs:247-251 | the tag looked up by name is the first one of that name in the list |
| TagMeaning.OwnIdsMean | database/nostr-memory/src/store.rs:251-265 | the ids a deletion request gets to are those an `e` tag names before any that names somebody else's stored event |
| TagMeaning.OwnCoordinatesMean | database/nostr-memory/src/store.rs:267-272 | the coordinates it gets to are those an `a` tag names before any of somebody else |
| TagMeaning.VanishRequestMeans | nostr/src/nips/nip62.rs:159-165 | a request asks this relay if and only if a relay tag with a value reads as all relays or as this one |
| DeliveryMeaning.AnswerMeans | database/nostr-memory/src/store.rs:181-315 | the answer to any delivery, from the kind, the ids, tombstones and versions stored, the times and the tags |
| DeliveryMeaning.ExpiredIff | nostr/src/event/mod.rs:247-251 | an event nothing else turns away is answered `Expired` if and only if the first tag named expiration reads as a time before now |
| DeliveryMeaning.VersionsGiveWay | database/nostr-memory/src/store.rs:219-250 | an accepted replaceable or addressable event takes the place of exactly its stored versions |
| DeliveryMeaning.DeletionMeans | database/nostr-memory/src/store.rs:251-303 | what a request in order or not removes, which ids it marks and which times it records, tag by tag |
| DeliveryMeaning.VanishMeans | database/nostr-memory/src/store.rs:304-312 | an accepted kind 62 event that asks this relay removes its author's other events and the gift wraps for the author and marks the author; any other is just added |
| DeliveryMeaning.VanishedIff | database/nostr-memory/src/store.rs:304-312 | bounded or not, the author has vanished afterwards if and only if NIP-62 is on and a tag asks this relay, and is then left with the request at most |
| DeliveryMeaning.OrdinaryMeans | database/nostr-memory/src/store.rs:317-352 | any other accepted event is added and nothing else changes |
| DeliveryMeaning.LimitMeans | database/nostr-memory/src/store.rs:317-352 | a bounded store answers as an unbounded one, and keeps of its events as many as it may, each newer than every one dropped, or as new with the lower id |
| Memory.CapInsert | database/nostr-memory/src/store.rs:160-174 | inserting into a capped set keeps the first `max` of the old elements and the new one, reporting the one that fell out or the refusal |
| Memory.FullSetKeeps | database/nostr-memory/src/store.rs:160-174 | the first `max` of a full set and a newcomer are all but the greatest of them |
| Memory.MemoryStore.constructor | database/nostr-memory/src/store.rs:160-174 | a new store is empty, with all indexes describing it |
| Memory.MemoryStore.MakePlan | database/nostr-memory/src/store.rs:80-136 | the pattern chosen, branch by branch, down to the least of several `d` values |
| Memory.MemoryStore.QueryByAuthor | database/nostr-memory/src/store.rs:427-458 | the author's bucket gives exactly the author's stored events in the window |
| Memory.MemoryStore.QueryByKindAndAuthor | database/nostr-memory/src/store.rs:461-493 | likewise for kind and author |
| Memory.MemoryStore.QueryByAddress | database/nostr-memory/src/store.rs:496-533 | the address index gives the only stored event of the address, if it is in the window |
| Memory.MemoryStore.Collect | database/nostr-memory/src/store.rs:570-577 | taking in order up to the limit yields the first elements, nothing skipped |
| Memory.MemoryStore.InternalQuery | database/nostr-memory/src/store.rs:544-577 | the indexed query returns what the plan means on the stored events |
| Memory.MemoryStore.Count | database/nostr-memory/src/store.rs:598-603 | the count is the size of the query |
| Memory.MemoryStore.EventById | database/nostr-memory/src/store.rs:580-582 | an id is found if and only if an event that has it is stored |
| Memory.MemoryStore.NegentropyItems | database/nostr-memory/src/store.rs:605-620 | exactly the results of the query whose first expiration tag does not read as a time before now, newest first |
| Memory.MemoryStore.DiscardEvent | database/nostr-memory/src/store.rs:395-412 | an evicted event leaves every index, which then describe the remaining events |
| Memory.MemoryStore.DiscardEvents | database/nostr-memory/src/store.rs:369-393 | exactly the events with the given ids leave the set and every index |
| Memory.MemoryStore.Clear | database/nostr-memory/src/store.rs:652-664 | the store is empty, tombstones and indexes too, and its capacity is kept |
| Memory.MemoryStore.DeleteMatching | database/nostr-memory/src/store.rs:640-650 | exactly what the query returns is removed; an empty filter clears |
| Memory.MemoryStore.DeleteByIds | database/nostr-memory/src/store.rs:251-265 | the `e` tags up to the first foreign one mark and discard the stored events they name that are not newer |
| Memory.MemoryStore.DeleteByCoordinates | database/nostr-memory/src/store.rs:267-303 | the `a` tags up to the first foreign one raise the deletion times and discard what they cover |
| Memory.MemoryStore.HandleRequestToVanish | database/nostr-memory/src/store.rs:357-367 | the author's events and the gift wraps tagging the author go, and the author is marked |
| Memory.MemoryStore.FindRivals | database/nostr-memory/src/store.rs:219-250 | the newcomer is turned away if and only if a stored event of its address precedes it, and otherwise every such event gives way |
| Memory.MemoryStore.InsertEvent | database/nostr-memory/src/store.rs:317-352 | the newcomer enters the set and every index, and the evicted event leaves them |
| Memory.MemoryStore.IndexEvent | database/nostr-memory/src/store.rs:181-424 | one delivery does exactly one step of the specification, answer included, and all indexes keep describing the stored events |
| MemoryRuns.TombstonesGrow | database/nostr-memory/src/store.rs:251-312 | over any run without a clear, tombstones only grow and deletion times only rise |
| MemoryRuns.ReachableStatesHold | database/nostr-memory/src/store.rs:144-157 | every reachable state is coherent, holds no deleted id, no event at or before the deletion time of its coordinate, and of a vanished key its request at most |
| MemoryRuns.DeletionMissesIff | database/nostr-memory/src/store.rs:251-303 | a request that gets as far as the coordinate of a stored event misses the event if and only if it is replaceable with an identifier, and the request names neither its id nor its kind without an identifier |
| MemoryRuns.EveryRemovalAccounted | database/nostr-memory/src/store.rs:210-367 | a stored event leaves only because a same-address event precedes it, its author's request covers it, its author or addressee vanished, or the full store holds only newer ones |
| MemoryRuns.DeletionSparesOthers | database/nostr-memory/src/store.rs:251-315 | no deletion request, accepted or not, removes another author's event |
| MemoryRuns.RejectedYetObeyed | database/nostr-memory/src/store.rs:251-315 | a request naming an own event and then a foreign one is rejected, and the own event is gone |
| MemoryRuns.RejectedDeletionIsVoidIff | database/nostr-memory/src/store.rs:251-315 | an `InvalidDelete` changes nothing if and only if the tags before the offending one cover no stored event and raise no time |
| MemoryRuns.InvalidDeleteStillDeletes | database/nostr-memory/src/store.rs:251-315 | a concrete store and request for which it does change something |
| MemoryRuns.BoundedStoreIsTopN | database/nostr-memory/src/store.rs:317-352 | fed any run of ordinary events, the bounded store holds exactly the `max` newest distinct ones that had not expired on arrival |
| MemoryRuns.SuccessIsKeptIff | database/nostr-memory/src/store.rs:317-355 | an event answered `Success` is stored if and only if the store is unbounded, had room once the arrival's removals were done, or holds an event that comes after it |
| MemoryRuns.SuccessMayBeDropped | database/nostr-memory/src/store.rs:317-355 | any full store answers `Success` to an ordinary event older than all it holds, and stays as it was |
| MemoryConvergence.RunSettles | database/nostr-memory/src/store.rs:181-355 | after any deliveries the store holds exactly the seen events that lead their address and outlive its deletions, with the latest deletion times |
| MemoryConvergence.Convergence | database/nostr-memory/src/store.rs:181-355 | any two delivery orders, with repeats, of the same events end in the same state |
| MemoryConvergence.AddressHoldsItsLeader | database/nostr-memory/src/store.rs:669-678 | an address holds the first event seen there if it is newer than the latest deletion, else nothing |
| MemoryConvergence.Redelivery | database/nostr-memory/src/store.rs:181-208 | delivering an event again changes nothing, even if it has been replaced or deleted since |
| MemoryConvergence.EventThenRequest | database/nostr-memory/src/store.rs:181-355 | what an event and then any deletion request leave stored, in any coherent unbounded store that would take both |
| MemoryConvergence.RequestThenEvent | database/nostr-memory/src/store.rs:181-355 | what the request and then the event leave stored, in any such store |
| MemoryConvergence.CoversAlone | database/nostr-memory/src/store.rs:251-303 | the request covers the event if and only if it is no older and names the own event's id, or an own coordinate that reaches it before the first foreign one |
| MemoryConvergence.OrdersAgreeIff | database/nostr-memory/src/store.rs:181-355 | from any such store and for any two authors, both orders end in the same events if and only if: with a preceding event stored, the request keeps the newcomer out or spares that event; otherwise it deletes the newcomer exactly when it keeps it out, then what the newcomer replaces too, and reaches the same of the rest |
| MemoryConvergence.OwnOrdersAgreeIff | database/nostr-memory/src/store.rs:181-355 | the same for a request of the event's author, the store before either deciding alone |
| MemoryConvergence.ForeignOrdersAgreeIff | database/nostr-memory/src/store.rs:251-265 | for somebody else's request that is in order: if and only if it does not name the event's id or the event is not let in anyway |
| MemoryConvergence.OlderVersionReturns | database/nostr-memory/src/store.rs:219-265 | for every stored newer version a request deletes without keeping the address out: the older version is stored if and only if it comes second |
| MemoryConvergence.RefusedRequestOrders | database/nostr-memory/src/store.rs:181-208 | a request the store refuses makes no difference in either order |
| MemoryConvergence.RefusedEventOrders | database/nostr-memory/src/store.rs:181-208 | neither does an event that a tombstone turns away |
| MemoryConvergence.RedeliveredOrdersAgreeIff | database/nostr-memory/src/store.rs:181-355 | an event stored already and sent again makes no difference if and only if the request spares it, deletes it by its id, or something keeps it out |
| MemoryConvergence.OrdersFromEmptyAgreeIff | database/nostr-memory/src/store.rs:181-355 | from the empty store, for any two authors: if and only if the request covers the event exactly when its tombstones keep it out, and does not fail for naming this event of somebody else alone |
| MemoryConvergence.TwoEventsAgree | database/nostr-memory/src/store.rs:181-250 | two events that are no requests end in the same state in either order, from any such store |
| MemoryConvergence.VanishOrdersAgreeIff | database/nostr-memory/src/store.rs:357-367 | an event and a request to vanish end in the same events if and only if the event is not another author's gift wrap for the one who vanishes |
| MemoryConvergence.TwoVanishesAgreeIff | database/nostr-memory/src/store.rs:357-367 | two requests to vanish end in the same events if and only if their authors differ |
| MemoryConvergence.RequestsOrdersAgreeIff | database/nostr-memory/src/store.rs:251-315 | two deletion requests of one author end in the same events if and only if neither, being in order, is covered by the other |
| MemoryConvergence.ForeignRequestsOrdersAgreeIff | database/nostr-memory/src/store.rs:251-315 | two of different authors, each in order: if and only if neither names the other's id |
| MemoryConvergence.DeletionAndVanishAgreeIff | database/nostr-memory/src/store.rs:251-367 | a deletion request in order and a request to vanish: if and only if they are of one author or the first does not name the second |
| MemoryConvergence.SettledStep | database/nostr-memory/src/store.rs:181-355 | one more delivery keeps the state the one determined by the set of seen events |
| MemoryConvergence.EmptyIdentifierDoesNotConverge | database/nostr-memory/src/store.rs:297-302 | for every addressable kind, a concrete event and request by kind whose order shows |
| MemoryConvergence.DeletionByIdDoesNotConverge | database/nostr-memory/src/store.rs:253-264 | a concrete event and request by id whose order shows |
| MemoryConvergence.NotDeletedEarly | database/nostr-memory/src/store.rs:253-264 | for every event and request of its author that names its id and does not keep out its coordinate: deleted when it came first, stored when it came second |
| MemoryConvergence.NotDeletedEarlyByKind | database/nostr-memory/src/store.rs:297-302 | the same for every addressable event and request naming its kind without an identifier |
| MemoryConvergence.DeletedOnlyEarly | database/nostr-memory/src/store.rs:285-303 | every replaceable event with an identifier: a request naming its coordinate keeps it out and does not delete it |
| MemoryConvergence.ReplaceableIdentifierDoesNotConverge | database/nostr-memory/src/store.rs:285-303 | for every replaceable kind, a concrete event and request whose order shows |
| Utf8.BoundaryStartsChar | nostr/src/parser.rs:486-498 | in valid UTF-8 every boundary is the start of a well-formed character |
| Utf8.SliceValid | nostr/src/parser.rs:547-593 | cutting at boundaries gives valid UTF-8 |
| Utf8.CharDecodes | nostr/src/parser.rs:234-247 | a well-formed character is the encoding of its code point |
| Utf8.EncodedReads | nostr/src/parser.rs:234-247 | the encoding of any scalar value reads as one character with that code point |
| Scanner.MatchBoundaries | nostr/src/parser.rs:207-368 | both ends of a match lie on character boundaries |
| Scanner.AllMatchesSafe | nostr/src/parser.rs:448-502 | on valid text all matches are non-empty, increasing and disjoint, and can be sliced out |
| Scanner.UrlNeverEndsClosing | nostr/src/parser.rs:398-442 | a URL never ends in a closing parenthesis, and stops only before trailing punctuation or a byte no URL has |
| ScannerMeaning.HashtagMeans | nostr/src/parser.rs:220-259 | a hashtag is `#` at the beginning or behind one of five white space bytes, with the longest non-empty run of code points other than the listed ones, both ways |
| ScannerMeaning.UriMeans | nostr/src/parser.rs:261-317 | a URI is `nostr:`, one of the listed entities, `1` and the longest non-empty run of bech32 bytes, both ways |
| ScannerMeaning.UrlMeans | nostr/src/parser.rs:321-368 | a URL is a letter, scheme bytes, `://` and the longest run of the listed bytes less the listed punctuation at its end, both ways |
| ScannerMeaning.MatchMeans | nostr/src/parser.rs:448-487 | what matches at a position is what looks like a match of an enabled kind there, and no two kinds do |
| ScannerMeaning.MatchesMean | nostr/src/parser.rs:448-502 | the matches of a valid text are exactly what looks like one and does not begin inside another |
| Scanner.FindMatches.TryParseHashtag | nostr/src/parser.rs:220-259 | the loop over characters finds the maximal run, no slice failing |
| Scanner.FindMatches.TryParseNostrUri | nostr/src/parser.rs:261-317 | prefix, separator and the maximal run of bech32 bytes, no slice failing |
| Scanner.FindMatches.FindPostUrlSchemePosition | nostr/src/parser.rs:321-344 | the position after `scheme://` |
| Scanner.FindMatches.FindUrlEnd | nostr/src/parser.rs:372-394 | the end of the maximal run of URL bytes, if it is not empty |
| Scanner.FindMatches.TrimUrlEnd | nostr/src/parser.rs:398-442 | the end without its trailing punctuation |
| Scanner.FindMatches.TryParseUrl | nostr/src/parser.rs:346-368 | a URL is what is left after the scheme once trimmed, if anything is |
| Scanner.FindMatches.Next | nostr/src/parser.rs:448-502 | the first match at or after the cursor, which moves behind it; terminates and stays between characters |
| Tokenizer.Lossless | nostr/src/parser.rs:547-700 | with text on, the source texts of the tokens put together are the input |
| Tokenizer.TokensNonEmpty | nostr/src/parser.rs:547-621 | no token is empty, whatever the options |
| Tokenizer.TextOptionFilters | nostr/src/parser.rs:448-502 | turning text off gives the same tokens as dropping text, line breaks and spaces afterwards, for any other options |
| Tokenizer.NextWithoutText | nostr/src/parser.rs:450-458 | without text the scanner finds the first match that is not a line break |
| ScannerMeaning.TokensMean | nostr/src/parser.rs:547-593 | the URL, URI and hashtag tokens of a text are exactly those of its matches, one a foreign parser refuses giving none |
| ScannerMeaning.OtherMatchesMean | nostr/src/parser.rs:547-593 | a line break is a token of its own, and a match its parser refuses gives the tokens of its text, or none with text off |
| ScannerMeaning.TextMeans | nostr/src/parser.rs:595-621 | a text gives a token for each line break and space it begins with, one for the rest, and one more for a space at its end |
| Tokenizer.NostrParserIter.HandleStrAsText | nostr/src/parser.rs:595-621 | the token returned and what it parks in the slots are the split of the text |
| Tokenizer.NostrParserIter.HandleMatch | nostr/src/parser.rs:547-593 | the token returned and the slots are the match's tokens, a foreign parser's refusal turning it into text; only then, with text off, another round is asked for |
| Tokenizer.NostrParserIter.Next | nostr/src/parser.rs:627-700 | each call yields the head of the remaining tokens and leaves the tail; `None` only when nothing remains; the calls to itself terminate |
| Tokenizer.Parse | nostr/src/parser.rs:107-109 | draining the iterator gives exactly the tokens of the text |
| SqlFilter.ListReads | database/nostr-sqlite/src/store.rs:800-845 | a list of placeholders reads back as its values, in order |
| SqlFilter.ReadsInTurn | database/nostr-sqlite/src/store.rs:799-895 | conditions pushed one after the other read back one after the other, each with its own parameters |
| SqlFilter.FilterQuery.PushIn | database/nostr-sqlite/src/store.rs:802-813 | one placeholder, one comma between two, and one parameter per value |
| SqlFilter.FilterQuery.AddTag | database/nostr-sqlite/src/store.rs:876-894 | the subquery pushed for a tag holds of a stored event just when it carries one of the values |
| SqlFilter.FilterQuery.AddFilterConditions | database/nostr-sqlite/src/store.rs:799-895 | what is pushed reads back as clauses that decide the filter's conditions for every stored event |
| SqlFilter.BuildFilter | database/nostr-sqlite/src/store.rs:713-796 | the text reads back, parameters in place, as the query the filter stands for |
| SqlFilter.HolesMatchParameters | database/nostr-sqlite/src/store.rs:713-895 | a text that reads back has as many placeholders as parameters |
| SqlFilter.RowsAreSelected | database/nostr-sqlite/src/store.rs:770-775 | join and `DISTINCT` select each event that meets the conditions once, and drop only events without any tag |
| SqlFilter.SelectedIsWanted | database/nostr-sqlite/src/store.rs:799-895 | with filled tag sets, times in range and no empty search text, join and skipped conditions make no difference: the rows are the filter's events |
| SqlFilter.SelectMeaning | database/nostr-sqlite/src/store.rs:713-796 | a query for events returns distinct matching events, as many as there are up to the limit, none older than an omitted one |
| SqlFilter.CountMeaning | database/nostr-sqlite/src/store.rs:576-593 | a count reads the number of matching events, whatever the limit, except that limit 0 leaves no row to read |
| SqlFilter.DeleteMeaning | database/nostr-sqlite/src/store.rs:740-767 | a DELETE removes exactly what an unlimited SELECT of the filter returns |
| SqlFilter.SomeOrderExists | database/nostr-sqlite/src/store.rs:787-793 | a result in the required order always exists |
| SqlFilter.EmptyTagSetsIff | database/nostr-sqlite/src/store.rs:876-878 | the compiled query agrees with the filter if and only if no tag set is empty |
| SqlFilter.EmptySearchIff | database/nostr-sqlite/src/store.rs:856-874 | the compiled query selects what the filter asks for, the search taken as SQLite does it, if and only if the search text is not empty |
| SqlFilter.WrappedTimesIff | database/nostr-sqlite/src/store.rs:846-854 | for any window, the compiled query agrees with the filter if and only if both bounds fit 63 bits, or an unreachable start meets an end no stored time meets |
| SqlFilter.SearchAgreesOnIff | database/nostr-sqlite/src/store.rs:856-874 | of any stored events, a query without the other differences selects exactly the matches if and only if no event has the text in a title, description, subject or name tag and not in its content |
| SqlFilter.TitledSample | database/nostr-sqlite/src/store.rs:856-874 | for every filter with a search text, an event at any time in the window whose title is that text: selected by the query and not matched by the filter |
| SqlFilter.FilterAgreesIff | database/nostr-sqlite/src/store.rs:713-895 | for every filter with letter tags, the exact condition on it under which the compiled query selects just the matching events, whatever storable events there are |
| QueryMeaning.SelectedMeans | database/nostr-sqlite/src/store.rs:770-895 | an event is selected if and only if its fields are as the statement asks, condition by condition, casts and skipped tags included |
| QueryMeaning.RowsMean | database/nostr-sqlite/src/store.rs:713-895 | the compiled query, evaluated over the tables, gives exactly those events |
| SqlLimit.EveryCutIsIff | database/nostr-sqlite/src/store.rs:787-793 | every listing by time is cut to the same wanted events if and only if those fill the limit and are newer than the rest |
| SqlLimit.CutsAgreeIff | database/nostr-sqlite/src/store.rs:787-793 | every listing by time, cut after `n`, holds the first `n` by time and id if and only if no event left out is as new as a kept one |
| SqlLimit.LimitedAnswersIff | database/nostr-sqlite/src/store.rs:898-903 | with the limit the store sets for want of one, every cut is what the filter's own limit asks for if and only if nothing is cut off, or the limit is the filter's own, fits 63 bits, and no tie is cut |
| SqlStore.SaveWellFormed | database/nostr-sqlite/src/store.rs:186-321 | a save keeps the tag table the list of the stored events' single-letter tags |
| SqlStore.SaveKeepsOnePerAddress | database/nostr-sqlite/src/store.rs:230-282 | a save keeps at most one event per address although it looks at one row |
| SqlStore.SaveTombstonesHold | database/nostr-sqlite/src/store.rs:150-321 | a save keeps deleted ids, deleted coordinates and vanished keys out |
| SqlStore.RunsHold | database/nostr-sqlite/src/store.rs:186-321 | all three over any run of saves, filtered deletes and wipes whose addressable events have one `d` tag |
| SqlStore.WipedRefusesIff | database/nostr-sqlite/src/store.rs:675-690 | a wiped store still refuses the events of vanished keys, and no other that it would store at all |
| SaveMeaning.FoundMeans | database/nostr-sqlite/src/store.rs:230-282 | the row a save looks at is one of the newcomer's author, kind and, if addressable, identifier, and there is none only if no row is |
| SaveMeaning.SaveAnswerMeans | database/nostr-sqlite/src/store.rs:186-321 | the answer to any save, from the kind, the ids, tombstones, the row found, the times as cast and the tags |
| SaveMeaning.SavedMeans | database/nostr-sqlite/src/store.rs:230-321 | a saved event that is no request replaces exactly the row found |
| SaveMeaning.SavedDeletionMeans | database/nostr-sqlite/src/store.rs:150-184 | what a saved deletion request removes, which ids it marks and which times it records, tag by tag |
| SaveMeaning.SavedVanishMeans | database/nostr-sqlite/src/store.rs:289-303 | the author of a saved kind 62 event has vanished if and only if NIP-62 is on and a tag asks this relay; then only the request is left of the author and no gift wrap for the author, and otherwise every event stays |
| SqlStore.RecordedTimesStay | database/nostr-sqlite/src/store.rs:331-346 | a recorded deletion time never changes |
| SqlStore.DeletionSticksIff | database/nostr-sqlite/src/store.rs:331-346 | after a deletion the event is refused by its coordinate if and only if no earlier deletion, older than the event, is on record |
| SqlStore.StoredIsDeleted | database/nostr-sqlite/src/store.rs:166-181 | an accepted deletion naming a stored event's coordinate takes it and everything at its address away |
| SqlStore.SavedAgainIff | database/nostr-sqlite/src/store.rs:186-321 | saved again after the deletion, the event is accepted if and only if its id was not named and an earlier deletion, older than it, is on record |
| SqlStore.LaterDeletionDoesNotStick | database/nostr-sqlite/src/store.rs:331-346 | for every replaceable or addressable event: a later deletion removes it, and it is saved again |
| SqlStore.Transaction.DeleteByIds | database/nostr-sqlite/src/store.rs:151-164 | invalid if and only if an id names a foreign event; otherwise the named events are marked and gone |
| SqlStore.Transaction.DeleteByCoordinates | database/nostr-sqlite/src/store.rs:166-181 | invalid if and only if a coordinate is foreign; otherwise what the coordinates reach is gone and they are marked |
| SqlStore.Transaction.HandleDeletionEvent | database/nostr-sqlite/src/store.rs:150-184 | both together, read against the tables before the request |
| SqlStore.Transaction.HandleRequestToVanish | database/nostr-sqlite/src/store.rs:396-427 | the author's events and the gift wraps tagging the author go, and the author is marked |
| SqlStore.Transaction.InsertTags | database/nostr-sqlite/src/model.rs:60-72 | the rows added are exactly the event's single-letter tags that have a value |
| SqlStore.SqliteStore.SaveEvent | database/nostr-sqlite/src/store.rs:186-321 | all of the save or nothing: every rejection leaves the tables as they were, rolled-back deletions included |
| SqlStore.SqliteStore.DeleteMatching | database/nostr-sqlite/src/store.rs:659-673 | the compiled statement, read back and evaluated over the tables, removes exactly the selected events and their tag rows |
| SqlStore.SqliteStore.Wipe | database/nostr-sqlite/src/store.rs:675-690 | every table but that of the vanished keys is empty |
| StoresAgree.DeletionAgreesIff | database/nostr-sqlite/src/store.rs:150-184 | after any request both honour the stores hold the same events if and only if no stored event it names by id is newer than it and the stores read its coordinates alike, and the same tombstones too if and only if no named coordinate has an earlier deletion |
| StoresAgree.CanonicalDeletionAgreesIff | database/nostr-memory/src/store.rs:251-303 | with canonical coordinates, the same events if and only if no stored event named by id is newer than the request |
| StoresAgree.NewerThanItsRequest | database/nostr-sqlite/src/store.rs:151-164 | a concrete event newer than the request that names it: kept in memory and removed by SQLite |
| StoresAgree.OneSaveAgreesIff | database/nostr-sqlite/src/store.rs:186-321 | from equal contents both stores give the same answer and reach equal contents if and only if both refuse the event at once, or it has not expired, has its identifier, fits the table, and, if a request, is void in both or deletes alike in both |
| StoresAgree.StoresAgreeIff | database/nostr-memory/src/store.rs:181-355 | over any run of saves, filtered deletes and wipes the stores answer alike and hold the same all along if and only if each operation meets its own condition, and then they are in step at the end |
| StoresAgree.DeletesAgreeIff | database/nostr-memory/src/store.rs:640-650 | a filtered delete removes the same from both if and only if: for an empty filter, there is no tombstone; for a filter both read alike, the limit, which SQLite ignores, cuts nothing off and no event is found by a tag alone; for another, the rows selected are the in-memory result |
| StoresAgree.WipesAgreeIff | database/nostr-memory/src/store.rs:652-664 | a wipe leaves the same in both if and only if no key has vanished |
| StoresAgree.AnyQueryAgreesIff | database/nostr-sqlite/src/store.rs:595-612 | for every filter, limited or not: every result SQLite may give is the in-memory one if and only if that fills the limit of the rows selected and is newer than the rest of them |
| StoresAgree.QueriesAgreeIff | database/nostr-sqlite/src/store.rs:595-612 | for a filter both read alike: if and only if nothing is cut off at the filter's limit or the store's own 10,000, or the filter's limit fits and no tie is cut; with events found by a tag alone, if and only if the matches fill the limit and those asked for are newer than all else found |
| StoresAgree.CountsAgreeIff | database/nostr-sqlite/src/store.rs:576-593 | the two stores' counts agree if and only if no event is found by a tag alone, and the filter has no limit, or a positive one that cuts nothing off |
| PoolMerge.NoEventTwice | nostr-sdk/src/pool/mod.rs:824-848 | under any interleaving no event id is forwarded twice, and the channel never holds more than its capacity |
| PoolMerge.RelayOrderKept | nostr-sdk/src/pool/mod.rs:828-871 | what is forwarded for a relay is a beginning of its stream in order with only events left out, and nothing follows its end |
| PoolMerge.AllYieldedForwarded | nostr-sdk/src/pool/mod.rs:804-888 | if the receiver stays until every task is done, the forwarded ids are exactly those the streams yielded up to their ends |
| PoolMerge.AtRestIff | nostr-sdk/src/pool/mod.rs:816-888 | nothing can go on if and only if every task is done and the receiver, if it is there, has taken everything |
| PoolMerge.StepLowersMeasure | nostr-sdk/src/pool/mod.rs:824-888 | every step but the closing of the channel leaves less to do |
| PoolMerge.RestMeansAllForwarded | nostr-sdk/src/pool/mod.rs:804-888 | with a receiver that stays, every run is bounded by the work at its start, and at rest the forwarded ids are exactly those the streams yielded |
| PoolMerge.ReachableInv | nostr-sdk/src/pool/mod.rs:804-888 | every step keeps the order, de-duplication and progress invariants |
| Notifications.EveryNotificationAccounted | nostr-sdk/src/stream/notification.rs:46-72 | for any schedule delivered items and reported gaps add up to the position, each item is the one sent there, only items no longer kept are lost, and after a terminal item every poll ends |
| Notifications.PlainIsGapsWithoutLosses | nostr-sdk/src/stream/notification.rs:84-121 | every run of the plain stream, sends arriving between its own polls included, is a run of the gap stream with the gaps left out |
| Notifications.NotificationStream.PollNextWithErr | nostr-sdk/src/stream/notification.rs:46-72 | one receive: a loss of what is more than the capacity behind, else the next item, else nothing yet or the end; the receiver is let go after a terminal item and at the end |
| Notifications.NotificationStream.PollNext | nostr-sdk/src/stream/notification.rs:84-96 | the loop past gaps ends, never with a gap, where the specification's polls end |
| RelayHandles.CounterCountsHandles | nostr-sdk/src/relay/mod.rs:82-102 | over any interleaving the counter is the number of live handles, clones and drops in progress |
| RelayHandles.ShutDownExactlyOnce | nostr-sdk/src/relay/mod.rs:95-102 | while a handle exists no shutdown has happened or is under way; once none does it happens exactly once |
| RelayHandles.DropsNeverUnderflow | nostr-sdk/src/relay/mod.rs:95-102 | a drop under way always finds the counter positive, and decides to shut down if and only if it is the last handle |
| Gossip.ListFlagsMeanMarks | gossip/nostr-gossip-sqlite/src/store.rs:512-520 | the flags a list gives a relay are READ where it is marked read or unmarked, WRITE where marked write or unmarked, and no others |
| Gossip.ClearedThenListed | gossip/nostr-gossip-sqlite/src/store.rs:500-535 | clearing and adding leaves exactly the list's marks and every other flag |
| Gossip.ClearedThenInbox | gossip/nostr-gossip-sqlite/src/store.rs:539-571 | the same for PRIVATE_MESSAGE |
| Gossip.FlippedIsReplacedIff | gossip/nostr-gossip/src/flags.rs:38-42 | flipping and adding replaces the mark if and only if the relay is unmarked or the flag left out was set before |
| Gossip.SameMarkTwiceGivesBoth | gossip/nostr-gossip-memory/src/store.rs:98-103 | sending the same mark again gives the relay both flags |
| GossipSqlite.Transaction.GetOrSaveRelayUrl | gossip/nostr-gossip-sqlite/src/store.rs:427-459 | a url keeps one id, and saving it changes no user's row |
| GossipSqlite.Transaction.RemoveFlagFromUserRelays | gossip/nostr-gossip-sqlite/src/store.rs:461-471 | the flags are cleared from every relay of the user; other flags, counters and users stay |
| GossipSqlite.Transaction.UpdateRelayPerUser | gossip/nostr-gossip-sqlite/src/store.rs:474-498 | the flags are added, the count goes up by one and the time is set, in that row only |
| GossipSqlite.Transaction.AddMarks | gossip/nostr-gossip-sqlite/src/store.rs:512-534 | the loop adds to every relay exactly the list's flags for it |
| GossipSqlite.Transaction.AddInboxes | gossip/nostr-gossip-sqlite/src/store.rs:550-568 | the loop adds PRIVATE_MESSAGE to exactly the listed relays |
| GossipSqlite.Transaction.UpdateNip65Relays | gossip/nostr-gossip-sqlite/src/store.rs:500-537 | after a list of any length READ and WRITE are exactly the list's marks; other flags, counters and other users' rows are unchanged, and rows appear only for listed relays |
| GossipSqlite.Transaction.UpdateNip17Relays | gossip/nostr-gossip-sqlite/src/store.rs:539-571 | likewise PRIVATE_MESSAGE for a NIP-17 list |
| GossipMemory.StableSort | gossip/nostr-gossip-memory/src/store.rs:364-368 | the sort returns the same positions, ranked, equals in their old order |
| GossipMemory.BeginningIsFirst | gossip/nostr-gossip-memory/src/store.rs:370-375 | the beginning of a ranked sequence holds its first elements |
| GossipMemory.PickedAreFirst | gossip/nostr-gossip-memory/src/store.rs:364-375 | what is taken is as much as the limit allows, and nothing left out outranks it |
| GossipMemory.GossipStore.GetRelaysByFlag | gossip/nostr-gossip-memory/src/store.rs:337-376 | the first `limit` allowed relays with one of the flags; each has received no fewer events than those behind it and those left out, and of as many its last one is no earlier |
| GossipMemory.GossipStore.GetStatus | gossip/nostr-gossip-memory/src/store.rs:161-192 | outdated more than 86,400 seconds after the last check of the list asked about, else updated, or missing |
| GossipMemory.GossipStore.CollectOutdatedPublicKeys | gossip/nostr-gossip-memory/src/store.rs:207-232 | the `limit` longest unchecked of exactly the keys whose status at that time is outdated, each checked before every one left out, or at the same time with the lesser key |
| GossipMemory.OutdatedOrdered | gossip/nostr-gossip/src/lib.rs:178-186 | oldest check first, ties by key, is a strict total order |
| GossipMemory.GossipStore.UpdateRelayPerUser | gossip/nostr-gossip-memory/src/store.rs:380-401 | a known relay is counted, an unknown one is added while at most seven are there, nothing else changes |

## Left out

- Signatures, hashing, JSON, bech32 and URL parsing: uninterpreted functions, or readings a tag carries.
- The sorted set with a capacity: its library contract is assumed; `CapInsert` states it and implements it on sets.
- Async locks, connection pools, websockets and the relay registry of the pool: only the merge, the notification channel and the handle counter are modelled, as interleaved steps over an assumed channel contract.
- Relays whose stream could not be opened: modelled as a one-item stream whose error is already waiting to be sent.
- SQLite itself: the statements used are modelled over sets of rows; `CHECK`, `UNIQUE`, `ON DELETE CASCADE` and `OR IGNORE` follow database/nostr-sqlite/migrations/001_init.sql.
- SqlFilter.BuildFilter: the SQL text is a list of fragments, not characters; `INSTR` and `LOWER` are modelled as finding a text in another regardless of the case of ASCII letters.
- SqlFilter.CountMeaning: the error a count with limit 0 raises for want of a row is not modelled, only that there is no row.
- SqlStore.SqliteStore.SaveEvent: rows are sets in a working copy, so row order, rowids and page-level effects are not modelled, and expiration is not looked at because the store does not.
- StoresAgree.StoresAgreeIff: an addressable event saved has one `d` tag, as `RunsHold` needs; the in-memory store is unbounded, as the tables are.
- MemoryQuery.PlannerAgrees: for the address plan it covers filters with one `d` value and events with one identifier; outside of these the property is false, as `AddressPlanAgreesIff` and `IndexAgreesIff` show.
- MemoryConvergence.Convergence: covers unexpired events without vanish requests, replaceable events without an identifier, and deletions of owned canonical coordinates; outside of these `OrdersAgreeIff`, `VanishOrdersAgreeIff` and the lemmas beside them say, for every unbounded store that would take both, exactly which pairs converge, except for a deletion request that is not in order and another author's request.
- MemoryRuns.BoundedStoreIsTopN: covers regular events other than deletion and vanish requests, as replacement frees places in a full store.
- Memory.MemoryStore.IndexEvent: the indexes are maps of values and not shared references, so aliasing between them is not modelled.
- Other database back ends, migrations, limits and capability flags: finite or one-branch facts.
- The NIP-65 loop of the in-memory gossip store beyond one relay's flags: the flags are flipped there, which `FlippedIsReplacedIff` settles; relays a new list omits also keep their marks.
- Least-recently-used eviction of users in the in-memory gossip store, and the union of several selections.
- RelayHandles.CounterCountsHandles: the counter is unbounded; the reference count of the shared allocation aborts the program before the machine word could wrap.
- GossipSqlite.Transaction.UpdateNip65Relays: row ids are unbounded and a url is never empty; a word of flags is the set of its one bits.
