/**
  Events, kinds, tags and coordinates.

  An event id is the big-endian number its 32 bytes spell, so the numeric order is
  the byte order. A public key is its 64-character lowercase hexadecimal text.
  A tag carries its texts and, in `reading`, what the identifier, coordinate,
  expiration and relay parsers make of them.
*/
module Events {
  import opened Wrappers

  type EventId = nat
  type PublicKey = string
  type Timestamp = t: nat | t < 0x1_0000_0000_0000_0000
  type Kind = k: nat | k < 0x1_0000

  const METADATA: Kind := 0
  const CONTACT_LIST: Kind := 3
  const EVENT_DELETION: Kind := 5
  const CHANNEL_METADATA: Kind := 41
  const REQUEST_TO_VANISH: Kind := 62
  const GIFT_WRAP: Kind := 1059

  predicate IsReplaceable(k: Kind) {
    k == METADATA || k == CONTACT_LIST || k == CHANNEL_METADATA || 10_000 <= k < 20_000
  }

  predicate IsEphemeral(k: Kind) { 20_000 <= k < 30_000 }

  predicate IsAddressable(k: Kind) { 30_000 <= k < 40_000 }

  datatype Coordinate = Coordinate(kind: Kind, author: PublicKey, identifier: string)

  datatype Reading =
    | Unread
    | EventRef(id: EventId)
    | AddressRef(coordinate: Coordinate)
    | ExpiresAt(time: Timestamp)
    | AllRelays
    | OneRelay(url: string)

  datatype Tag = Tag(name: string, content: Option<string>, reading: Reading)

  datatype Event = Event(
    id: EventId,
    author: PublicKey,
    createdAt: Timestamp,
    kind: Kind,
    tags: seq<Tag>,
    content: string)

  /** The first tag of the given name, if any. */
  function FindTag(tags: seq<Tag>, name: string): (r: Option<Tag>)
    ensures r.None? <==> forall t :: t in tags ==> t.name != name
    ensures r.Some? ==> r.value in tags && r.value.name == name
  {
    if tags == [] then None
    else if tags[0].name == name then Some(tags[0])
    else FindTag(tags[1..], name)
  }

  /** The value of the first `d` tag; `None` when there is none or it has no value. */
  function Identifier(e: Event): Option<string> {
    match FindTag(e.tags, "d")
    case Some(t) => t.content
    case None => None
  }

  predicate IsExpiredAt(e: Event, now: Timestamp) {
    match FindTag(e.tags, "expiration")
    case Some(t) => t.reading.ExpiresAt? && t.reading.time < now
    case None => false
  }

  /** The ids the `e` tags name, in order. */
  function EventIds(tags: seq<Tag>): seq<EventId> {
    if tags == [] then []
    else
      var t := tags[0];
      (if t.name == "e" && t.content.Some? && t.reading.EventRef? then [t.reading.id] else [])
      + EventIds(tags[1..])
  }

  /** The coordinates the `a` tags name, in order. */
  function Coordinates(tags: seq<Tag>): seq<Coordinate> {
    if tags == [] then []
    else
      var t := tags[0];
      (if t.name == "a" && t.content.Some? && t.reading.AddressRef? then [t.reading.coordinate] else [])
      + Coordinates(tags[1..])
  }

  /** Does a request to vanish concern this relay? (NIP-62) */
  predicate IsVanishRequestFor(tags: seq<Tag>, relay: Option<string>) {
    exists t :: t in tags && t.name == "relay" && t.content.Some? &&
                (t.reading.AllRelays? || (t.reading.OneRelay? && relay == Some(t.reading.url)))
  }

  /** The coordinate of a replaceable or addressable event; a missing identifier reads as empty. */
  function CoordinateOf(e: Event): Option<Coordinate> {
    if IsReplaceable(e.kind) || IsAddressable(e.kind) then
      Some(Coordinate(e.kind, e.author, match Identifier(e) case Some(i) => i case None => ""))
    else None
  }

  /** The order of events: newest first, ties by lowest id. */
  predicate Before(a: Event, b: Event) {
    a.createdAt > b.createdAt || (a.createdAt == b.createdAt && a.id < b.id)
  }

  /** An id determines the event that bears it. */
  ghost predicate UniqueIds(s: set<Event>) {
    forall a, b :: a in s && b in s && a.id == b.id ==> a == b
  }

  /** An existing event takes precedence over an incoming one of the same address. */
  predicate HasBeenReplaced(stored: Event, incoming: Event) {
    if stored.createdAt > incoming.createdAt then true
    else if stored.createdAt == incoming.createdAt then stored.id < incoming.id
    else false
  }

  /** The kind ranges never overlap, so the branches on them exclude each other. */
  lemma KindsDisjoint(k: Kind)
    ensures !(IsReplaceable(k) && IsAddressable(k))
    ensures !(IsReplaceable(k) && IsEphemeral(k))
    ensures !(IsAddressable(k) && IsEphemeral(k))
    ensures k == EVENT_DELETION || k == REQUEST_TO_VANISH || k == GIFT_WRAP
            ==> !IsReplaceable(k) && !IsAddressable(k) && !IsEphemeral(k)
  {
  }
}
