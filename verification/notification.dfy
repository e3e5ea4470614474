/**
  The notification stream over a broadcast channel. The channel keeps the last
  `capacity` items sent; a receiver that has fallen further behind is told how many
  items it lost and continues at the oldest one kept.
*/
module Notifications {
  import opened Wrappers

  type Capacity = c: nat | c > 0 witness 1

  datatype Channel<T> = Channel(sent: seq<T>, capacity: Capacity, open: bool)

  function Oldest<T>(ch: Channel<T>): nat {
    if |ch.sent| <= ch.capacity then 0 else |ch.sent| - ch.capacity
  }

  datatype Outcome<T> = Item(value: T) | Lagged(skipped: nat) | Ended | NotReady

  /** The channel's own receive, at a position: the outcome and the next position. */
  function Receive<T>(ch: Channel<T>, next: nat): (Outcome<T>, nat) {
    if next < Oldest(ch) then (Lagged(Oldest(ch) - next), Oldest(ch))
    else if next < |ch.sent| then (Item(ch.sent[next]), next + 1)
    else if ch.open then (NotReady, next)
    else (Ended, next)
  }

  /** One poll: the stream lets its receiver go after a terminal item and at the end. */
  function Poll<T>(isTerminal: T -> bool, inner: Option<nat>, ch: Channel<T>): (Outcome<T>, Option<nat>) {
    match inner
    case None => (Ended, None)
    case Some(next) =>
      var (r, next') := Receive(ch, next);
      (r, if r.Ended? || (r.Item? && isTerminal(r.value)) then None else Some(next'))
  }

  /** The channel, the stream's receiver and every outcome its polls had. */
  datatype World<T> = World(ch: Channel<T>, inner: Option<nat>, heard: seq<Outcome<T>>)

  datatype Op<T> = Send(x: T) | Close | GapPoll

  function SendAll<T>(w: World<T>, xs: seq<T>): World<T> {
    if w.ch.open then w.(ch := w.ch.(sent := w.ch.sent + xs)) else w
  }

  function Apply<T>(isTerminal: T -> bool, w: World<T>, op: Op<T>): World<T> {
    match op
    case Send(x) => SendAll(w, [x])
    case Close => w.(ch := w.ch.(open := false))
    case GapPoll =>
      var (r, inner) := Poll(isTerminal, w.inner, w.ch);
      w.(inner := inner, heard := w.heard + [r])
  }

  function Run<T>(isTerminal: T -> bool, w: World<T>, ops: seq<Op<T>>): World<T> {
    if ops == [] then w else Apply(isTerminal, Run(isTerminal, w, ops[..|ops| - 1]), ops[|ops| - 1])
  }

  /** A stream that has just subscribed. */
  ghost predicate Subscribed<T>(w: World<T>) { w.heard == [] && w.inner == Some(|w.ch.sent|) }

  // ---- accounting ----

  /** How many items these outcomes account for: those delivered and those reported lost. */
  function Covered<T>(heard: seq<Outcome<T>>): nat {
    if heard == [] then 0
    else
      var last := heard[|heard| - 1];
      Covered(heard[..|heard| - 1]) + if last.Item? then 1 else if last.Lagged? then last.skipped else 0
  }

  predicate IsLast<T>(isTerminal: T -> bool, r: Outcome<T>) { r.Ended? || (r.Item? && isTerminal(r.value)) }

  /**
    A delivered item is the one sent at the position the earlier outcomes account for; a
    loss is of items no longer kept.
  */
  ghost predicate TellsTruth<T>(isTerminal: T -> bool, ch: Channel<T>, start: nat, heard: seq<Outcome<T>>, k: nat)
    requires k < |heard|
  {
    var at := start + Covered(heard[..k]);
    match heard[k]
    case Item(v) => at < |ch.sent| && ch.sent[at] == v
    case Lagged(n) => n > 0 && at + n + ch.capacity <= |ch.sent|
    case Ended => (exists j :: 0 <= j < k && IsLast(isTerminal, heard[j])) || (!ch.open && at == |ch.sent|)
    case NotReady => at <= |ch.sent|
  }

  ghost predicate Accounted<T>(isTerminal: T -> bool, start: nat, w: World<T>) {
    && start + Covered(w.heard) <= |w.ch.sent|
    && (w.inner.Some? ==> w.inner.value == start + Covered(w.heard))
    && (w.inner.None? <==> exists k :: 0 <= k < |w.heard| && IsLast(isTerminal, w.heard[k]))
    && (forall k :: 0 <= k < |w.heard| ==> TellsTruth(isTerminal, w.ch, start, w.heard, k))
    && (forall j, k :: 0 <= j < k < |w.heard| && IsLast(isTerminal, w.heard[j]) ==> w.heard[k].Ended?)
  }

  lemma GrowthKeeps<T>(isTerminal: T -> bool, start: nat, w: World<T>, ch: Channel<T>)
    requires Accounted(isTerminal, start, w) && w.ch.sent <= ch.sent && ch.capacity == w.ch.capacity
    requires (!w.ch.open ==> ch == w.ch)
    ensures Accounted(isTerminal, start, w.(ch := ch))
  {
    forall k | 0 <= k < |w.heard|
      ensures TellsTruth(isTerminal, ch, start, w.heard, k)
    {
      assert TellsTruth(isTerminal, w.ch, start, w.heard, k);
    }
  }

  lemma PollTellsTruth<T>(isTerminal: T -> bool, start: nat, w: World<T>, k: nat)
    requires Accounted(isTerminal, start, w) && k <= |w.heard|
    ensures var w' := Apply(isTerminal, w, GapPoll); TellsTruth(isTerminal, w'.ch, start, w'.heard, k)
  {
    var w' := Apply(isTerminal, w, GapPoll);
    assert w'.heard[..k] == w.heard[..k];
    assert forall j :: 0 <= j < k ==> w'.heard[j] == w.heard[j];
    if k < |w.heard| {
      assert TellsTruth(isTerminal, w.ch, start, w.heard, k);
    } else {
      assert w.heard[..k] == w.heard;
    }
  }

  lemma PollKeeps<T>(isTerminal: T -> bool, start: nat, w: World<T>)
    requires Accounted(isTerminal, start, w)
    ensures Accounted(isTerminal, start, Apply(isTerminal, w, GapPoll))
  {
    hide TellsTruth, Covered, IsLast, Poll;
    PollMoves(isTerminal, start, w);
    PollCloses(isTerminal, start, w);
    forall k | 0 <= k <= |w.heard|
      ensures var w' := Apply(isTerminal, w, GapPoll); TellsTruth(isTerminal, w'.ch, start, w'.heard, k)
    {
      PollTellsTruth(isTerminal, start, w, k);
    }
  }

  /** The receiver moves by what the poll reports. */
  lemma PollMoves<T>(isTerminal: T -> bool, start: nat, w: World<T>)
    requires Accounted(isTerminal, start, w)
    ensures var w' := Apply(isTerminal, w, GapPoll);
            && start + Covered(w'.heard) <= |w'.ch.sent|
            && (w'.inner.Some? ==> w'.inner.value == start + Covered(w'.heard))
  {
    hide TellsTruth, IsLast, Covered;
    var w' := Apply(isTerminal, w, GapPoll);
    CoveredLast(w.heard, w'.heard[|w.heard|]);
  }

  lemma CoveredLast<T>(heard: seq<Outcome<T>>, last: Outcome<T>)
    ensures Covered(heard + [last]) ==
            Covered(heard) + if last.Item? then 1 else if last.Lagged? then last.skipped else 0
  {
    assert (heard + [last])[..|heard|] == heard;
  }

  /** The receiver is gone after a last outcome, and then only ends are heard. */
  lemma PollCloses<T>(isTerminal: T -> bool, start: nat, w: World<T>)
    requires Accounted(isTerminal, start, w)
    ensures var w' := Apply(isTerminal, w, GapPoll);
            && (w'.inner.None? <==> exists k :: 0 <= k < |w'.heard| && IsLast(isTerminal, w'.heard[k]))
            && (forall j, k :: 0 <= j < k < |w'.heard| && IsLast(isTerminal, w'.heard[j]) ==> w'.heard[k].Ended?)
  {
    hide TellsTruth, Covered, Receive;
    var w' := Apply(isTerminal, w, GapPoll);
    var n := |w.heard|;
    assert forall j :: 0 <= j < n ==> w'.heard[j] == w.heard[j];
    assert w'.inner.None? <==> w.inner.None? || IsLast(isTerminal, w'.heard[n]);
  }

  /**
    Whatever is sent and however it is polled: delivered items and reported losses
    together are the receiver's position, each delivered item is the one sent at the
    position so reported, only items no longer kept are lost, and a terminal item or
    the end is followed by nothing.
  */
  lemma {:induction false} EveryNotificationAccounted<T>(isTerminal: T -> bool, w: World<T>, ops: seq<Op<T>>)
    requires Subscribed(w)
    ensures Accounted(isTerminal, |w.ch.sent|, Run(isTerminal, w, ops))
  {
    if ops != [] {
      var before, op := Run(isTerminal, w, ops[..|ops| - 1]), ops[|ops| - 1];
      EveryNotificationAccounted(isTerminal, w, ops[..|ops| - 1]);
      match op {
        case GapPoll => PollKeeps(isTerminal, |w.ch.sent|, before);
        case Send(x) => GrowthKeeps(isTerminal, |w.ch.sent|, before, Apply(isTerminal, before, op).ch);
        case Close => GrowthKeeps(isTerminal, |w.ch.sent|, before, Apply(isTerminal, before, op).ch);
      }
    }
  }

  // ---- the plain stream ----

  /** The plain poll goes on past every loss; `arrivals[k]` is sent while it goes on for the k-th time. */
  function PlainPoll<T>(isTerminal: T -> bool, w: World<T>, arrivals: seq<seq<T>>): World<T>
    decreases |arrivals|, w.inner.Some? && w.inner.value < Oldest(w.ch)
  {
    var (r, inner) := Poll(isTerminal, w.inner, w.ch);
    if !r.Lagged? then w.(inner := inner, heard := w.heard + [r])
    else if arrivals == [] then PlainPoll(isTerminal, w.(inner := inner), [])
    else PlainPoll(isTerminal, SendAll(w.(inner := inner), arrivals[0]), arrivals[1..])
  }

  datatype PlainOp<T> = PlainSend(x: T) | PlainClose | PlainPolls(arrivals: seq<seq<T>>)

  function PlainApply<T>(isTerminal: T -> bool, w: World<T>, op: PlainOp<T>): World<T> {
    match op
    case PlainSend(x) => SendAll(w, [x])
    case PlainClose => w.(ch := w.ch.(open := false))
    case PlainPolls(arrivals) => PlainPoll(isTerminal, w, arrivals)
  }

  function PlainRun<T>(isTerminal: T -> bool, w: World<T>, ops: seq<PlainOp<T>>): World<T> {
    if ops == [] then w else PlainApply(isTerminal, PlainRun(isTerminal, w, ops[..|ops| - 1]), ops[|ops| - 1])
  }

  function WithoutLosses<T>(heard: seq<Outcome<T>>): seq<Outcome<T>> {
    if heard == [] then []
    else
      var last := heard[|heard| - 1];
      WithoutLosses(heard[..|heard| - 1]) + if last.Lagged? then [] else [last]
  }

  /** The two streams are at the same point, and the plain one heard what the other did but for the losses. */
  ghost predicate Alike<T>(plain: World<T>, gaps: World<T>) {
    plain.ch == gaps.ch && plain.inner == gaps.inner && plain.heard == WithoutLosses(gaps.heard)
  }

  lemma RunOneMore<T>(isTerminal: T -> bool, w: World<T>, ops: seq<Op<T>>, op: Op<T>)
    ensures Run(isTerminal, w, ops + [op]) == Apply(isTerminal, Run(isTerminal, w, ops), op)
  {
    assert (ops + [op])[..|ops|] == ops;
  }

  lemma {:induction false} SendsOneByOne<T>(isTerminal: T -> bool, w: World<T>, ops: seq<Op<T>>, xs: seq<T>)
    returns (more: seq<Op<T>>)
    ensures Run(isTerminal, w, more) == SendAll(Run(isTerminal, w, ops), xs)
  {
    more := ops;
    if xs == [] {
      var now := Run(isTerminal, w, ops);
      assert now.ch.sent + xs == now.ch.sent;
    } else {
      var init, last := xs[..|xs| - 1], xs[|xs| - 1];
      more := SendsOneByOne(isTerminal, w, ops, init);
      RunOneMore(isTerminal, w, more, Send(last));
      assert Run(isTerminal, w, ops).ch.sent + xs == Run(isTerminal, w, ops).ch.sent + init + [last];
      more := more + [Send(last)];
    }
  }

  /** A poll that reports a loss leaves the receiver at the oldest item kept, so the next one reports none. */
  lemma LossEndsLag<T>(isTerminal: T -> bool, inner: Option<nat>, ch: Channel<T>)
    requires Poll(isTerminal, inner, ch).0.Lagged?
    ensures inner.Some? && inner.value < Oldest(ch) && Poll(isTerminal, inner, ch).1 == Some(Oldest(ch))
  {
  }

  /** One poll of both streams: they stay alike, the plain one keeping a loss to itself. */
  lemma OnePollEach<T>(isTerminal: T -> bool, plain: World<T>, w: World<T>, ops: seq<Op<T>>)
    requires Alike(plain, Run(isTerminal, w, ops))
    ensures var (r, inner) := Poll(isTerminal, plain.inner, plain.ch);
            Alike(plain.(inner := inner, heard := if r.Lagged? then plain.heard else plain.heard + [r]),
                  Run(isTerminal, w, ops + [GapPoll]))
  {
    RunOneMore(isTerminal, w, ops, GapPoll);
    hide Poll, Run;
    var gaps := Run(isTerminal, w, ops);
    var gaps' := Apply(isTerminal, gaps, GapPoll);
    assert gaps'.heard[..|gaps.heard|] == gaps.heard;
  }

  lemma SendsKeepAlike<T>(plain: World<T>, gaps: World<T>, xs: seq<T>)
    requires Alike(plain, gaps)
    ensures Alike(SendAll(plain, xs), SendAll(gaps, xs))
  {
  }

  lemma {:induction false} PlainPollIsGapPolls<T>(
      isTerminal: T -> bool, plain: World<T>, arrivals: seq<seq<T>>, w: World<T>, ops: seq<Op<T>>)
    returns (more: seq<Op<T>>)
    requires Alike(plain, Run(isTerminal, w, ops))
    ensures Alike(PlainPoll(isTerminal, plain, arrivals), Run(isTerminal, w, more))
    decreases |arrivals|, plain.inner.Some? && plain.inner.value < Oldest(plain.ch)
  {
    hide Poll, Run, Alike, SendAll, Oldest;
    var (r, inner) := Poll(isTerminal, plain.inner, plain.ch);
    OnePollEach(isTerminal, plain, w, ops);
    more := ops + [GapPoll];
    if r.Lagged? {
      LossEndsLag(isTerminal, plain.inner, plain.ch);
      var plain' := plain.(inner := inner);
      assert plain' == plain.(inner := inner, heard := plain.heard);
      if arrivals == [] {
        more := PlainPollIsGapPolls(isTerminal, plain', [], w, more);
      } else {
        SendsKeepAlike(plain', Run(isTerminal, w, more), arrivals[0]);
        more := SendsOneByOne(isTerminal, w, more, arrivals[0]);
        more := PlainPollIsGapPolls(isTerminal, SendAll(plain', arrivals[0]), arrivals[1..], w, more);
      }
    }
  }

  /** Every run of the plain stream is a run of the gap-reporting one with the losses left out. */
  lemma {:induction false} PlainIsGapsWithoutLosses<T>(isTerminal: T -> bool, w: World<T>, ops: seq<PlainOp<T>>)
    returns (gapOps: seq<Op<T>>)
    requires Subscribed(w)
    ensures Alike(PlainRun(isTerminal, w, ops), Run(isTerminal, w, gapOps))
  {
    gapOps := [];
    if ops != [] {
      var op := ops[|ops| - 1];
      gapOps := PlainIsGapsWithoutLosses(isTerminal, w, ops[..|ops| - 1]);
      match op {
        case PlainSend(x) =>
          RunOneMore(isTerminal, w, gapOps, Send(x));
          gapOps := gapOps + [Send(x)];
        case PlainClose =>
          RunOneMore(isTerminal, w, gapOps, Close);
          gapOps := gapOps + [Close];
        case PlainPolls(arrivals) =>
          gapOps := PlainPollIsGapPolls(isTerminal, PlainRun(isTerminal, w, ops[..|ops| - 1]), arrivals, w, gapOps);
      }
    }
  }

  class NotificationStream<T> {
    var inner: Option<nat>
    const isTerminal: T -> bool

    constructor (next: nat, isTerminal: T -> bool)
      ensures this.inner == Some(next) && this.isTerminal == isTerminal
    {
      this.inner := Some(next);
      this.isTerminal := isTerminal;
    }

    constructor Empty()
      ensures this.inner == None
    {
      this.inner := None;
      this.isTerminal := _ => false;
    }

    method PollNextWithErr(ch: Channel<T>) returns (r: Outcome<T>)
      modifies this`inner
      ensures (r, inner) == Poll(isTerminal, old(inner), ch)
      ensures old(inner).None? ==> r == Ended
      ensures old(inner).Some? ==>
        var n := old(inner).value;
        r == if n + ch.capacity < |ch.sent| then Lagged(|ch.sent| - ch.capacity - n)
             else if n < |ch.sent| then Item(ch.sent[n])
             else if ch.open then NotReady
             else Ended
    {
      if inner == None {
        return Ended;
      }
      var (outcome, next) := Receive(ch, inner.value);
      inner := Some(next);
      match outcome {
        case Item(notification) =>
          if isTerminal(notification) {
            inner := None;
          }
        case Ended =>
          inner := None;
        case _ =>
      }
      r := outcome;
    }

    /** `arrivals` is what others send while the loop goes on. */
    method PollNext(ch: Channel<T>, arrivals: seq<seq<T>>) returns (r: Outcome<T>, after: Channel<T>)
      modifies this`inner
      ensures World(after, inner, [r]) == PlainPoll(isTerminal, World(ch, old(inner), []), arrivals)
      ensures !r.Lagged?
    {
      var k := 0;
      after := ch;
      while true
        invariant 0 <= k <= |arrivals|
        invariant PlainPoll(isTerminal, World(after, inner, []), arrivals[k..])
               == PlainPoll(isTerminal, World(ch, old(inner), []), arrivals)
        decreases |arrivals| - k, inner.Some? && inner.value < Oldest(after)
      {
        r := PollNextWithErr(after);
        if !r.Lagged? {
          return;
        }
        if k < |arrivals| {
          after := SendAll(World(after, inner, []), arrivals[k]).ch;
          assert arrivals[k..][1..] == arrivals[k + 1..];
          k := k + 1;
        }
      }
    }
  }
}
