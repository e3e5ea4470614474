/**
  The merge of several relay streams into one channel. Each relay has a task; the
  tasks share the set of ids already seen and a bounded channel. Every await is a
  place where another task may run, so a run is any interleaving of the steps below.
*/
module PoolMerge {
  import opened Events

  const CAPACITY: nat := 1024

  datatype Item = EventItem(event: Event) | ErrorItem(message: string) | Completed | LimitReached

  predicate Ends(x: Item) { x.Completed? || x.LimitReached? }

  /**
    At the head of the loop; holding an event while waiting for the lock; waiting for room
    in the channel; finished.
  */
  datatype Phase = Ready | Locking(event: Event) | Sending(item: Item) | Done

  datatype Task = Task(stream: seq<Item>, pos: nat, phase: Phase)

  datatype Entry = Entry(relay: nat, item: Item)

  /** `log` is everything ever sent, of which the receiver has taken the first `received`. */
  datatype System = System(tasks: seq<Task>, ids: set<EventId>, log: seq<Entry>, received: nat, closed: bool)

  datatype Step = Poll(i: nat) | Lock(i: nat) | Send(i: nat) | NoticeClosed(i: nat) | Receive | Close

  predicate Enabled(s: System, step: Step) {
    match step
    case Poll(i) => i < |s.tasks| && s.tasks[i].phase.Ready?
    case Lock(i) => i < |s.tasks| && s.tasks[i].phase.Locking?
    case Send(i) => i < |s.tasks| && s.tasks[i].phase.Sending? && (s.closed || |s.log| < s.received + CAPACITY)
    case NoticeClosed(i) => i < |s.tasks| && s.tasks[i].phase.Ready? && s.closed
    case Receive => !s.closed && s.received < |s.log|
    case Close => true
  }

  function WithTask(s: System, i: nat, t: Task): System
    requires i < |s.tasks|
  {
    s.(tasks := s.tasks[i := t])
  }

  function Apply(s: System, step: Step): System
    requires Enabled(s, step)
  {
    match step
    case Poll(i) =>
      var t := s.tasks[i];
      if t.pos >= |t.stream| then WithTask(s, i, t.(phase := Done))
      else
        var next := t.stream[t.pos];
        WithTask(s, i, t.(pos := t.pos + 1, phase := if next.EventItem? then Locking(next.event) else Sending(next)))
    case Lock(i) =>
      var t := s.tasks[i];
      if t.phase.event.id in s.ids then WithTask(s, i, t.(phase := Ready))
      else WithTask(s, i, t.(phase := Sending(EventItem(t.phase.event)))).(ids := s.ids + {t.phase.event.id})
    case Send(i) =>
      var t := s.tasks[i];
      if s.closed then WithTask(s, i, t.(phase := Done))
      else
        WithTask(s, i, t.(phase := if Ends(t.phase.item) then Done else Ready))
        .(log := s.log + [Entry(i, t.phase.item)])
    case NoticeClosed(i) => WithTask(s, i, s.tasks[i].(phase := Done))
    case Receive => s.(received := s.received + 1)
    case Close => s.(closed := true)
  }

  /** Every relay starts at the head of its loop; one whose stream could not be opened sends its error and ends. */
  predicate Initial(s: System) {
    && s.ids == {} && s.log == [] && s.received == 0 && !s.closed
    && forall t | t in s.tasks ::
         || (t.pos == 0 && t.phase == Ready)
         || (|t.stream| == 1 && t.stream[0].ErrorItem? && t.pos == 1 && t.phase == Sending(t.stream[0]))
  }

  ghost predicate Reaches(s: System, steps: seq<Step>, s': System)
    decreases |steps|
  {
    if steps == [] then s == s'
    else Enabled(s, steps[0]) && Reaches(Apply(s, steps[0]), steps[1..], s')
  }

  // ---- what was sent for one relay ----

  function SentFor(log: seq<Entry>, i: nat): seq<Item> {
    if log == [] then []
    else
      var last := log[|log| - 1];
      SentFor(log[..|log| - 1], i) + if last.relay == i then [last.item] else []
  }

  /** `sent` is `items` in order, with nothing but events left out. */
  predicate Selection(sent: seq<Item>, items: seq<Item>)
    decreases |items|
  {
    if items == [] then sent == []
    else
      var last, init := items[|items| - 1], items[..|items| - 1];
      || (sent != [] && sent[|sent| - 1] == last && Selection(sent[..|sent| - 1], init))
      || (last.EventItem? && Selection(sent, init))
  }

  /** Nothing before the last polled item ends the stream. */
  predicate NoEarlierEnd(t: Task) {
    forall k | 0 <= k < t.pos - 1 && k < |t.stream| :: !Ends(t.stream[k])
  }

  /** A task, with what was sent for it. */
  ghost predicate TaskInv(t: Task, sent: seq<Item>, closed: bool) {
    && t.pos <= |t.stream| && NoEarlierEnd(t)
    && match t.phase
       case Ready => Selection(sent, t.stream[..t.pos]) && (t.pos > 0 ==> !Ends(t.stream[t.pos - 1]))
       case Locking(e) => t.pos > 0 && t.stream[t.pos - 1] == EventItem(e) && Selection(sent, t.stream[..t.pos - 1])
       case Sending(x) => t.pos > 0 && t.stream[t.pos - 1] == x && Selection(sent, t.stream[..t.pos - 1])
       case Done =>
         || (Selection(sent, t.stream[..t.pos])
           && (closed || t.pos == |t.stream| || (t.pos > 0 && Ends(t.stream[t.pos - 1]))))
         || (closed && t.pos > 0 && Selection(sent, t.stream[..t.pos - 1]))
  }

  ghost predicate TasksInv(s: System) {
    forall i :: 0 <= i < |s.tasks| ==> TaskInv(s.tasks[i], SentFor(s.log, i), s.closed)
  }

  // ---- the shared ids ----

  predicate Carries(x: Item, id: EventId) { x.EventItem? && x.event.id == id }

  ghost predicate Logged(s: System, id: EventId) { exists a :: 0 <= a < |s.log| && Carries(s.log[a].item, id) }

  ghost predicate Pending(s: System, i: nat, id: EventId) {
    i < |s.tasks| && s.tasks[i].phase.Sending? && Carries(s.tasks[i].phase.item, id)
  }

  ghost predicate IdsInv(s: System) {
    && (forall a, b, id :: 0 <= a < b < |s.log| && Carries(s.log[a].item, id) ==> !Carries(s.log[b].item, id))
    && (forall id :: Logged(s, id) ==> id in s.ids)
    && (forall i, id :: Pending(s, i, id) ==> id in s.ids && !Logged(s, id))
    && (forall i, j, id :: Pending(s, i, id) && Pending(s, j, id) ==> i == j)
    && (!s.closed ==> forall id :: id in s.ids ==> Logged(s, id) || exists i :: Pending(s, i, id))
  }

  /** Every event a task is past was seen by somebody. */
  ghost predicate SeenInv(s: System) {
    forall i, k :: 0 <= i < |s.tasks| && 0 <= k < |s.tasks[i].stream| &&
                   (k < s.tasks[i].pos - 1 || (k < s.tasks[i].pos && !s.tasks[i].phase.Locking?)) &&
                   s.tasks[i].stream[k].EventItem?
                   ==> s.tasks[i].stream[k].event.id in s.ids
  }

  ghost predicate Inv(s: System) {
    TasksInv(s) && IdsInv(s) && SeenInv(s) && |s.log| <= s.received + CAPACITY && s.received <= |s.log|
  }

  lemma InitialInv(s: System)
    requires Initial(s)
    ensures Inv(s)
  {
    forall i | 0 <= i < |s.tasks|
      ensures TaskInv(s.tasks[i], SentFor(s.log, i), s.closed)
    {
      assert s.tasks[i] in s.tasks;
    }
  }

  lemma SentForOneMore(log: seq<Entry>, x: Entry, i: nat)
    ensures SentFor(log + [x], i) == SentFor(log, i) + if x.relay == i then [x.item] else []
  {
    assert (log + [x])[..|log|] == log;
  }

  lemma SelectionTakes(sent: seq<Item>, items: seq<Item>, n: nat)
    requires 0 < n <= |items| && Selection(sent, items[..n - 1])
    ensures Selection(sent + [items[n - 1]], items[..n])
    ensures items[n - 1].EventItem? ==> Selection(sent, items[..n])
  {
    assert items[..n][..n - 1] == items[..n - 1];
    assert (sent + [items[n - 1]])[..|sent|] == sent;
  }

  lemma PollKeeps(t: Task, sent: seq<Item>, closed: bool)
    requires TaskInv(t, sent, closed) && t.phase.Ready? && t.pos < |t.stream|
    ensures var next := t.stream[t.pos];
            TaskInv(t.(pos := t.pos + 1, phase := if next.EventItem? then Locking(next.event) else Sending(next)),
              sent, closed)
  {
    hide Selection;
  }

  lemma LockKeeps(t: Task, sent: seq<Item>, closed: bool)
    requires TaskInv(t, sent, closed) && t.phase.Locking?
    ensures TaskInv(t.(phase := Ready), sent, closed)
    ensures TaskInv(t.(phase := Sending(EventItem(t.phase.event))), sent, closed)
  {
    SelectionTakes(sent, t.stream, t.pos);
    hide Selection;
  }

  lemma SendKeeps(t: Task, sent: seq<Item>)
    requires TaskInv(t, sent, false) && t.phase.Sending?
    ensures TaskInv(t.(phase := if Ends(t.phase.item) then Done else Ready), sent + [t.phase.item], false)
  {
    SelectionTakes(sent, t.stream, t.pos);
    hide Selection;
  }

  /** A task whose channel is closed may give up at the head of its loop or when sending. */
  lemma GiveUpKeeps(t: Task, sent: seq<Item>)
    requires TaskInv(t, sent, true) && (t.phase.Ready? || t.phase.Sending?)
    ensures TaskInv(t.(phase := Done), sent, true)
  {
    hide Selection;
  }

  lemma ClosingKeeps(t: Task, sent: seq<Item>)
    requires TaskInv(t, sent, false)
    ensures TaskInv(t, sent, true)
  {
    hide Selection;
  }

  lemma EndOfStreamKeeps(t: Task, sent: seq<Item>, closed: bool)
    requires TaskInv(t, sent, closed) && t.phase.Ready? && t.pos == |t.stream|
    ensures TaskInv(t.(phase := Done), sent, closed)
  {
    hide Selection;
  }

  lemma TasksStep(s: System, step: Step)
    requires TasksInv(s) && Enabled(s, step)
    ensures TasksInv(Apply(s, step))
  {
    hide TaskInv, SentFor;
    var s' := Apply(s, step);
    forall j | 0 <= j < |s'.tasks|
      ensures TaskInv(s'.tasks[j], SentFor(s'.log, j), s'.closed)
    {
      var t, sent := s.tasks[j], SentFor(s.log, j);
      assert TaskInv(t, sent, s.closed);
      Bounded(t, sent, s.closed);
      match step {
        case Poll(i) =>
          if i == j && t.pos < |t.stream| { PollKeeps(t, sent, s.closed); }
          if i == j && t.pos == |t.stream| { EndOfStreamKeeps(t, sent, s.closed); }
        case Lock(i) =>
          if i == j { LockKeeps(t, sent, s.closed); }
        case Send(i) =>
          if s.closed {
            if i == j { GiveUpKeeps(t, sent); }
          } else {
            SentForOneMore(s.log, Entry(i, s.tasks[i].phase.item), j);
            if i == j {
              SendKeeps(t, sent);
            } else {
              assert sent + [] == sent;
            }
          }
        case NoticeClosed(i) =>
          if i == j { GiveUpKeeps(t, sent); }
        case Receive =>
        case Close =>
          if !s.closed { ClosingKeeps(t, sent); }
      }
    }
  }

  lemma Bounded(t: Task, sent: seq<Item>, closed: bool)
    requires TaskInv(t, sent, closed)
    ensures t.pos <= |t.stream|
  {
  }

  lemma IdsStep(s: System, step: Step)
    requires IdsInv(s) && Enabled(s, step)
    ensures IdsInv(Apply(s, step))
  {
    var s' := Apply(s, step);
    match step {
      case Poll(i) => PendingElsewhere(s, s', i);
      case Lock(i) =>
        PendingElsewhere(s, s', i);
        if s.tasks[i].phase.event.id !in s.ids {
          assert Pending(s', i, s.tasks[i].phase.event.id);
        }
      case Send(i) =>
        PendingElsewhere(s, s', i);
        if !s.closed { SendIds(s, i); }
      case NoticeClosed(i) => PendingElsewhere(s, s', i);
      case Receive => SamePending(s, s');
      case Close => SamePending(s, s');
    }
  }

  /** Only the task that steps changes what it is sending. */
  lemma PendingElsewhere(s: System, s': System, i: nat)
    requires i < |s.tasks| && |s'.tasks| == |s.tasks|
    requires forall j :: 0 <= j < |s.tasks| && j != i ==> s'.tasks[j] == s.tasks[j]
    ensures forall j, id :: j != i ==> (Pending(s', j, id) <==> Pending(s, j, id))
    ensures s'.log == s.log ==> forall id :: Logged(s', id) <==> Logged(s, id)
  {
  }

  lemma SamePending(s: System, s': System)
    requires s'.tasks == s.tasks && s'.log == s.log
    ensures forall j, id :: Pending(s', j, id) <==> Pending(s, j, id)
    ensures forall id :: Logged(s', id) <==> Logged(s, id)
  {
  }

  lemma SendIds(s: System, i: nat)
    requires IdsInv(s) && Enabled(s, Send(i)) && !s.closed
    ensures IdsInv(Apply(s, Send(i)))
  {
    var x := s.tasks[i].phase.item;
    var s' := Apply(s, Send(i));
    PendingElsewhere(s, s', i);
    assert forall a :: 0 <= a < |s.log| ==> s'.log[a] == s.log[a];
    forall id
      ensures Logged(s', id) <==> Logged(s, id) || Carries(x, id)
    {
      if Carries(x, id) { assert Carries(s'.log[|s.log|].item, id); }
      if a :| 0 <= a < |s.log| && Carries(s.log[a].item, id) { assert Carries(s'.log[a].item, id); }
    }
    forall id | Carries(x, id)
      ensures !Logged(s, id) && id in s.ids && forall j :: j != i ==> !Pending(s, j, id)
    {
      assert Pending(s, i, id);
    }
    assert !exists id :: Pending(s', i, id);
    forall id | id in s'.ids
      ensures Logged(s', id) || exists j :: Pending(s', j, id)
    {
      if !Logged(s, id) {
        var j :| Pending(s, j, id);
        if j != i { assert Pending(s', j, id); }
      }
    }
  }

  lemma SeenStep(s: System, step: Step)
    requires SeenInv(s) && TasksInv(s) && Enabled(s, step)
    ensures SeenInv(Apply(s, step))
  {
    hide Selection, SentFor, NoEarlierEnd;
    var s' := Apply(s, step);
    if step.Lock? {
      var t := s.tasks[step.i];
      assert TaskInv(t, SentFor(s.log, step.i), s.closed);
    }
    if step.Poll? {
      var t := s.tasks[step.i];
      assert TaskInv(t, SentFor(s.log, step.i), s.closed);
    }
  }

  lemma StepInv(s: System, step: Step)
    requires Inv(s) && Enabled(s, step)
    ensures Inv(Apply(s, step))
  {
    TasksStep(s, step);
    IdsStep(s, step);
    SeenStep(s, step);
  }

  lemma {:induction false} ReachableInv(s: System, steps: seq<Step>, s': System)
    requires Inv(s) && Reaches(s, steps, s')
    ensures Inv(s')
    decreases |steps|
  {
    if steps != [] {
      StepInv(s, steps[0]);
      ReachableInv(Apply(s, steps[0]), steps[1..], s');
    }
  }

  /** Under any interleaving no event is forwarded twice, and the channel never overflows. */
  lemma NoEventTwice(s: System, steps: seq<Step>, s': System, a: nat, b: nat)
    requires Initial(s) && Reaches(s, steps, s') && a < b < |s'.log|
    requires s'.log[a].item.EventItem? && s'.log[b].item.EventItem?
    ensures s'.log[a].item.event.id != s'.log[b].item.event.id
    ensures |s'.log| - s'.received <= 1024
  {
    InitialInv(s);
    ReachableInv(s, steps, s');
    assert Carries(s'.log[a].item, s'.log[a].item.event.id);
  }

  /** What a selection keeps of a stretch without an end has no end either, and an end is its last item. */
  lemma {:induction false} SelectionEnds(sent: seq<Item>, items: seq<Item>)
    requires Selection(sent, items) && forall k :: 0 <= k < |items| - 1 ==> !Ends(items[k])
    ensures forall k :: 0 <= k < |sent| - 1 ==> !Ends(sent[k])
    ensures sent != [] && Ends(sent[|sent| - 1]) ==> items != [] && Ends(items[|items| - 1])
    decreases |items|
  {
    if items != [] {
      var last, init := items[|items| - 1], items[..|items| - 1];
      if sent != [] && sent[|sent| - 1] == last && Selection(sent[..|sent| - 1], init) {
        NoEnds(sent[..|sent| - 1], init);
      } else {
        NoEnds(sent, init);
      }
    }
  }

  lemma {:induction false} NoEnds(sent: seq<Item>, items: seq<Item>)
    requires Selection(sent, items) && forall k :: 0 <= k < |items| ==> !Ends(items[k])
    ensures forall k :: 0 <= k < |sent| ==> !Ends(sent[k])
    decreases |items|
  {
    if items != [] {
      var last, init := items[|items| - 1], items[..|items| - 1];
      if sent != [] && sent[|sent| - 1] == last && Selection(sent[..|sent| - 1], init) {
        NoEnds(sent[..|sent| - 1], init);
      } else {
        NoEnds(sent, init);
      }
    }
  }

  /** The tasks keep their streams. */
  lemma {:induction false} StreamsStay(s: System, steps: seq<Step>, s': System)
    requires Reaches(s, steps, s')
    ensures |s'.tasks| == |s.tasks| && forall i :: 0 <= i < |s.tasks| ==> s'.tasks[i].stream == s.tasks[i].stream
    decreases |steps|
  {
    if steps != [] {
      StreamsStay(Apply(s, steps[0]), steps[1..], s');
    }
  }

  /**
    What is forwarded for a relay is a beginning of its stream, in order, with only
    events left out; and nothing follows a completion or a reached limit.
  */
  lemma RelayOrderKept(s: System, steps: seq<Step>, s': System, i: nat) returns (n: nat)
    requires Initial(s) && Reaches(s, steps, s') && i < |s.tasks|
    ensures n <= |s.tasks[i].stream| && Selection(SentFor(s'.log, i), s.tasks[i].stream[..n])
    ensures forall k :: 0 <= k < |SentFor(s'.log, i)| - 1 ==>
              !SentFor(s'.log, i)[k].Completed? && !SentFor(s'.log, i)[k].LimitReached?
  {
    hide Initial, Reaches, SentFor, Selection;
    RelayInv(s, steps, s', i);
    var t, sent := s'.tasks[i], SentFor(s'.log, i);
    n := if Selection(sent, t.stream[..t.pos]) then t.pos else t.pos - 1;
    SelectionEnds(sent, t.stream[..n]);
  }

  lemma RelayInv(s: System, steps: seq<Step>, s': System, i: nat)
    requires Initial(s) && Reaches(s, steps, s') && i < |s.tasks|
    ensures |s'.tasks| == |s.tasks| && s'.tasks[i].stream == s.tasks[i].stream
    ensures TaskInv(s'.tasks[i], SentFor(s'.log, i), s'.closed)
  {
    hide TaskInv, IdsInv, SeenInv, SentFor;
    InitialInv(s);
    ReachableInv(s, steps, s');
    StreamsStay(s, steps, s');
  }

  /** The items of a stream up to and with its first end. */
  function Yielded(stream: seq<Item>): seq<Item> {
    if stream == [] then []
    else [stream[0]] + if stream[0].Completed? || stream[0].LimitReached? then [] else Yielded(stream[1..])
  }

  lemma {:induction false} YieldedIs(stream: seq<Item>, n: nat)
    requires n <= |stream| && forall k :: 0 <= k < n - 1 ==> !Ends(stream[k])
    requires n == |stream| || (n > 0 && Ends(stream[n - 1]))
    ensures Yielded(stream) == stream[..n]
  {
    if stream != [] && !Ends(stream[0]) {
      YieldedIs(stream[1..], n - 1);
      assert stream[..n] == [stream[0]] + stream[1..][..n - 1];
    }
  }

  lemma {:induction false} SentComesFrom(log: seq<Entry>, a: nat)
    requires a < |log|
    ensures log[a].item in SentFor(log, log[a].relay)
  {
    if a < |log| - 1 {
      SentComesFrom(log[..|log| - 1], a);
    }
  }

  lemma {:induction false} SelectionWithin(sent: seq<Item>, items: seq<Item>)
    requires Selection(sent, items)
    ensures forall x :: x in sent ==> x in items
    decreases |items|
  {
    if items != [] {
      var init := items[..|items| - 1];
      assert items == init + [items[|items| - 1]];
      if sent != [] && sent[|sent| - 1] == items[|items| - 1] && Selection(sent[..|sent| - 1], init) {
        SelectionWithin(sent[..|sent| - 1], init);
        assert sent == sent[..|sent| - 1] + [items[|items| - 1]];
      } else {
        SelectionWithin(sent, init);
      }
    }
  }

  lemma {:induction false} RelaysExist(s: System, steps: seq<Step>, s': System)
    requires Reaches(s, steps, s') && forall a :: 0 <= a < |s.log| ==> s.log[a].relay < |s.tasks|
    ensures forall a :: 0 <= a < |s'.log| ==> s'.log[a].relay < |s'.tasks|
    decreases |steps|
  {
    if steps != [] {
      RelaysExist(Apply(s, steps[0]), steps[1..], s');
    }
  }

  /** A finished task forwarded a selection of everything its stream yielded. */
  lemma DoneMeansYielded(t: Task, sent: seq<Item>)
    requires TaskInv(t, sent, false) && t.phase.Done?
    ensures Yielded(t.stream) == t.stream[..t.pos] && Selection(sent, Yielded(t.stream))
  {
    hide Selection;
    YieldedIs(t.stream, t.pos);
  }

  ghost predicate YieldedBy(s: System, i: nat, id: EventId) {
    i < |s.tasks| && exists x :: x in Yielded(s.tasks[i].stream) && Carries(x, id)
  }

  /** If the receiver stays until every task is done, the forwarded ids are exactly those the streams yielded. */
  lemma AllYieldedForwarded(s: System, steps: seq<Step>, s': System, id: EventId)
    requires Initial(s) && Reaches(s, steps, s') && !s'.closed
    requires forall i :: 0 <= i < |s'.tasks| ==> s'.tasks[i].phase == Done
    ensures Logged(s', id) <==> exists i :: YieldedBy(s, i, id)
  {
    InitialInv(s);
    ReachableInv(s, steps, s');
    StreamsStay(s, steps, s');
    RelaysExist(s, steps, s');
    if Logged(s', id) {
      ForwardedWasYielded(s', id);
      var i :| YieldedBy(s', i, id);
      assert YieldedBy(s, i, id);
    }
    if i :| YieldedBy(s, i, id) {
      assert YieldedBy(s', i, id);
      YieldedWasForwarded(s', i, id);
    }
  }

  lemma ForwardedWasYielded(s: System, id: EventId)
    requires TasksInv(s) && !s.closed && Logged(s, id)
    requires forall i :: 0 <= i < |s.tasks| ==> s.tasks[i].phase == Done
    requires forall a :: 0 <= a < |s.log| ==> s.log[a].relay < |s.tasks|
    ensures exists i :: YieldedBy(s, i, id)
  {
    hide Selection, TaskInv, SentFor, Yielded;
    var a :| 0 <= a < |s.log| && Carries(s.log[a].item, id);
    var i := s.log[a].relay;
    SentComesFrom(s.log, a);
    DoneMeansYielded(s.tasks[i], SentFor(s.log, i));
    SelectionWithin(SentFor(s.log, i), Yielded(s.tasks[i].stream));
    assert YieldedBy(s, i, id);
  }

  lemma YieldedWasForwarded(s: System, i: nat, id: EventId)
    requires Inv(s) && !s.closed && YieldedBy(s, i, id)
    requires forall i :: 0 <= i < |s.tasks| ==> s.tasks[i].phase == Done
    ensures Logged(s, id)
  {
    hide Selection, TaskInv, SentFor, Yielded;
    DoneMeansYielded(s.tasks[i], SentFor(s.log, i));
    var t := s.tasks[i];
    var x :| x in Yielded(t.stream) && Carries(x, id);
    Bounded(t, SentFor(s.log, i), s.closed);
    var k :| 0 <= k < t.pos && t.stream[k] == x;
    assert id in s.ids;
    assert !exists j :: Pending(s, j, id);
  }

  // ---- every run comes to an end, and only there ----

  function PhaseWork(p: Phase): nat {
    match p
    case Done => 0
    case Ready => 1
    case Sending(_) => 2
    case Locking(_) => 3
  }

  /** An upper bound on the steps a task still has to take. */
  function TaskWork(t: Task): nat {
    (if t.pos <= |t.stream| then 4 * (|t.stream| - t.pos) else 0) + PhaseWork(t.phase)
  }

  function TotalWork(tasks: seq<Task>): nat {
    if tasks == [] then 0 else TotalWork(tasks[..|tasks| - 1]) + TaskWork(tasks[|tasks| - 1])
  }

  /** What is left to do: each step of a task counts double, as it may leave the receiver an item. */
  function Measure(s: System): nat
    requires s.received <= |s.log|
  {
    2 * TotalWork(s.tasks) + (|s.log| - s.received)
  }

  lemma {:induction false} WorkOfOne(tasks: seq<Task>, i: nat, t: Task)
    requires i < |tasks|
    ensures TotalWork(tasks[i := t]) + TaskWork(tasks[i]) == TotalWork(tasks) + TaskWork(t)
  {
    hide TaskWork;
    var n := |tasks| - 1;
    if i < n {
      WorkOfOne(tasks[..n], i, t);
      assert tasks[i := t][..n] == tasks[..n][i := t];
    } else {
      assert tasks[i := t][..n] == tasks[..n];
    }
  }

  /** A step of a task leaves that task less to do, and the receiver at most one item more. */
  lemma TaskStepLowers(s: System, step: Step)
    requires Enabled(s, step) && step != Close && step != Receive
    requires s.tasks[step.i].pos <= |s.tasks[step.i].stream|
    ensures var s', i := Apply(s, step), step.i;
            && s'.tasks == s.tasks[i := s'.tasks[i]]
            && TaskWork(s'.tasks[i]) < TaskWork(s.tasks[i])
            && s'.received == s.received && |s.log| <= |s'.log| <= |s.log| + 1
  {
  }

  /** Every step but the closing of the channel leaves less to do. */
  lemma StepLowersMeasure(s: System, step: Step)
    requires Inv(s) && Enabled(s, step) && step != Close
    ensures Inv(Apply(s, step)) && Measure(Apply(s, step)) < Measure(s)
  {
    StepInv(s, step);
    if step != Receive {
      TaskBounded(s, step.i);
      TaskStepLowers(s, step);
      WorkOfOne(s.tasks, step.i, Apply(s, step).tasks[step.i]);
      hide TasksInv, IdsInv, SeenInv, TotalWork, TaskWork, Apply;
    }
  }

  lemma TaskBounded(s: System, i: nat)
    requires Inv(s) && i < |s.tasks|
    ensures s.tasks[i].pos <= |s.tasks[i].stream|
  {
    Bounded(s.tasks[i], SentFor(s.log, i), s.closed);
  }

  /** So a run whose receiver stays takes a bounded number of steps. */
  lemma {:induction false} RunsEnd(s: System, steps: seq<Step>, s': System)
    requires Inv(s) && Reaches(s, steps, s') && Close !in steps
    ensures Inv(s') && |steps| <= Measure(s) - Measure(s')
    decreases |steps|
  {
    hide Inv, Measure, Enabled, Apply;
    if steps != [] {
      assert steps[0] in steps;
      StepLowersMeasure(s, steps[0]);
      RunsEnd(Apply(s, steps[0]), steps[1..], s');
    }
  }

  /** No task nor the receiver can take a step. */
  ghost predicate AtRest(s: System) { forall step :: step != Close ==> !Enabled(s, step) }

  /** A system comes to rest exactly when every task is done and the receiver, if it is there, has taken everything. */
  lemma AtRestIff(s: System)
    requires Inv(s)
    ensures AtRest(s) <==>
            (forall i :: 0 <= i < |s.tasks| ==> s.tasks[i].phase == Done) && (s.closed || s.received == |s.log|)
  {
    hide TasksInv, IdsInv, SeenInv;
    if AtRest(s) {
      assert !Enabled(s, Receive);
      forall i | 0 <= i < |s.tasks|
        ensures s.tasks[i].phase == Done
      {
        assert !Enabled(s, Poll(i)) && !Enabled(s, Lock(i)) && !Enabled(s, Send(i));
      }
    }
  }

  /**
    From the start, if the receiver stays: the run has at most as many steps as there was
    work, and when nothing can go on the forwarded ids are exactly those the streams yielded.
  */
  lemma RestMeansAllForwarded(s: System, steps: seq<Step>, s': System, id: EventId)
    requires Initial(s) && Reaches(s, steps, s') && Close !in steps && AtRest(s')
    ensures |steps| <= Measure(s)
    ensures !s'.closed && s'.received == |s'.log|
    ensures Logged(s', id) <==> exists i :: YieldedBy(s, i, id)
  {
    InitialInv(s);
    RunsEnd(s, steps, s');
    StaysOpen(s, steps, s');
    AtRestIff(s');
    AllYieldedForwarded(s, steps, s', id);
  }

  lemma {:induction false} StaysOpen(s: System, steps: seq<Step>, s': System)
    requires Reaches(s, steps, s') && Close !in steps
    ensures s'.closed == s.closed
    decreases |steps|
  {
    if steps != [] {
      assert steps[0] in steps;
      StaysOpen(Apply(s, steps[0]), steps[1..], s');
    }
  }
}
