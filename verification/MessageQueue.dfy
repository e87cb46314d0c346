/** The in-memory message queue: a queue per topic, and the table of messages not yet acknowledged. */
module MessageQueue {
  import opened Wrappers
  import opened Sequences

  datatype Status = Pending | Delivered | Acknowledged | Failed | Expired

  class Message {
    const id: string
    const topic: string
    const payload: string
    var status: Status

    constructor (id: string, topic: string, payload: string)
      ensures this.id == id && this.topic == topic && this.payload == payload && status == Pending
    {
      this.id, this.topic, this.payload, status := id, topic, payload, Pending;
    }
  }

  datatype Queue = Queue(
    queues: map<string, seq<Message>>,
    messages: map<string, Message>,
    published: nat,
    delivered: nat,
    acknowledged: nat,
    pending: nat,
    topics: nat)

  datatype Action = Publish(message: Message) | Consume(topic: string) | Acknowledge(id: string)

  datatype Answer = Done(ok: bool) | Got(message: Message) | Nothing

  function QueueOf(q: Queue, topic: string): seq<Message> {
    if topic in q.queues then q.queues[topic] else []
  }

  /** Asking an unknown topic for a message creates its queue. */
  function Step(q: Queue, a: Action, maxSize: int): (Queue, Answer) {
    match a
    case Publish(m) =>
      if |q.messages| >= maxSize then (q, Done(false))
      else
        var queues, messages := q.queues[m.topic := QueueOf(q, m.topic) + [m]], q.messages[m.id := m];
        var stats := q.(published := q.published + 1, pending := |messages|, topics := |queues|);
        (stats.(queues := queues, messages := messages), Done(true))
    case Consume(topic) =>
      var waiting := QueueOf(q, topic);
      if waiting == [] then (q.(queues := q.queues[topic := []]), Nothing)
      else (q.(queues := q.queues[topic := waiting[1..]], delivered := q.delivered + 1), Got(waiting[0]))
    case Acknowledge(id) =>
      if id !in q.messages then (q, Done(false))
      else
        var messages := q.messages - {id};
        (q.(messages := messages, acknowledged := q.acknowledged + 1, pending := |messages|), Done(true))
  }

  const EMPTY := Queue(map[], map[], 0, 0, 0, 0, 0)

  function After(acts: seq<Action>, k: nat, maxSize: int): Queue
    requires k <= |acts|
  {
    if k == 0 then EMPTY else Step(After(acts, k - 1, maxSize), acts[k - 1], maxSize).0
  }

  lemma AfterNext(acts: seq<Action>, k: nat, maxSize: int)
    requires 0 < k <= |acts|
    ensures After(acts, k, maxSize) == Step(After(acts, k - 1, maxSize), acts[k - 1], maxSize).0
  {}

  /** What an action changes of the counters: a publish or acknowledgement that succeeds and a message that is
      handed out count once each, and the number of topics is that of the last accepted publish. */
  lemma StepCounts(q: Queue, a: Action, maxSize: int)
    ensures var (q', r) := Step(q, a, maxSize);
      && q'.published == q.published + (if a.Publish? && r == Done(true) then 1 else 0)
      && q'.delivered == q.delivered + (if r.Got? then 1 else 0)
      && q'.acknowledged == q.acknowledged + (if a.Acknowledge? && r == Done(true) then 1 else 0)
      && q'.topics == (if a.Publish? && r == Done(true) then |q'.queues| else q.topics)
  {}

  /** A topic has a queue from its first accepted message or its first consumer on. */
  lemma StepTopics(q: Queue, a: Action, maxSize: int, topic: string)
    ensures topic in Step(q, a, maxSize).0.queues <==>
      topic in q.queues || a == Consume(topic)
      || (a.Publish? && a.message.topic == topic && Step(q, a, maxSize).1 == Done(true))
  {}

  // ----- first in, first out

  /** What an action adds to the accepted messages of a topic. */
  function AcceptedBy(q: Queue, a: Action, maxSize: int, topic: string): seq<Message> {
    if a.Publish? && a.message.topic == topic && Step(q, a, maxSize).1 == Done(true) then [a.message] else []
  }

  /** What an action hands to a consumer of a topic. */
  function ConsumedBy(q: Queue, a: Action, maxSize: int, topic: string): seq<Message> {
    if a == Consume(topic) && Step(q, a, maxSize).1.Got? then [Step(q, a, maxSize).1.message] else []
  }

  function Accepted(acts: seq<Action>, k: nat, maxSize: int, topic: string): seq<Message>
    requires k <= |acts|
  {
    if k == 0 then []
    else Accepted(acts, k - 1, maxSize, topic) + AcceptedBy(After(acts, k - 1, maxSize), acts[k - 1], maxSize, topic)
  }

  function Consumed(acts: seq<Action>, k: nat, maxSize: int, topic: string): seq<Message>
    requires k <= |acts|
  {
    if k == 0 then []
    else Consumed(acts, k - 1, maxSize, topic) + ConsumedBy(After(acts, k - 1, maxSize), acts[k - 1], maxSize, topic)
  }

  lemma StepMovesQueue(q: Queue, a: Action, maxSize: int, topic: string)
    ensures QueueOf(q, topic) + AcceptedBy(q, a, maxSize, topic) ==
      ConsumedBy(q, a, maxSize, topic) + QueueOf(Step(q, a, maxSize).0, topic)
  {}

  /** Whatever the ids, and whenever messages are acknowledged: what a topic accepted is what its
      consumers got, followed by what still waits. */
  lemma {:induction false} FirstInFirstOut(acts: seq<Action>, k: nat, maxSize: int, topic: string)
    requires k <= |acts|
    ensures Accepted(acts, k, maxSize, topic) ==
      Consumed(acts, k, maxSize, topic) + QueueOf(After(acts, k, maxSize), topic)
  {
    hide Step, QueueOf, AcceptedBy, ConsumedBy, After;
    var q' := After(acts, k, maxSize);
    if k > 0 {
      var q, a := After(acts, k - 1, maxSize), acts[k - 1];
      AfterNext(acts, k, maxSize);
      FirstInFirstOut(acts, k - 1, maxSize, topic);
      StepMovesQueue(q, a, maxSize, topic);
      var consumed := Consumed(acts, k - 1, maxSize, topic);
      Regroup(consumed, QueueOf(q, topic), AcceptedBy(q, a, maxSize, topic));
      Regroup(consumed, ConsumedBy(q, a, maxSize, topic), QueueOf(q', topic));
    } else {
      EmptyQueues(acts, maxSize, topic);
    }
  }

  lemma EmptyQueues(acts: seq<Action>, maxSize: int, topic: string)
    ensures QueueOf(After(acts, 0, maxSize), topic) == []
  {}

  /** No message is delivered more often than it was accepted; if each was published once, at most once. */
  lemma DeliveredOnce(acts: seq<Action>, k: nat, maxSize: int, topic: string)
    requires k <= |acts|
    requires forall i, j :: 0 <= i < j < k && acts[i].Publish? && acts[j].Publish? ==>
      acts[i].message != acts[j].message
    ensures Consumed(acts, k, maxSize, topic) <= Accepted(acts, k, maxSize, topic)
    ensures forall i, j :: 0 <= i < j < |Consumed(acts, k, maxSize, topic)| ==>
      Consumed(acts, k, maxSize, topic)[i] != Consumed(acts, k, maxSize, topic)[j]
  {
    FirstInFirstOut(acts, k, maxSize, topic);
    AcceptedDistinct(acts, k, maxSize, topic);
  }

  lemma {:induction false} AcceptedDistinct(acts: seq<Action>, k: nat, maxSize: int, topic: string)
    requires k <= |acts|
    requires forall i, j :: 0 <= i < j < k && acts[i].Publish? && acts[j].Publish? ==>
      acts[i].message != acts[j].message
    ensures var all := Accepted(acts, k, maxSize, topic);
      && (forall m :: m in all ==> exists i :: 0 <= i < k && acts[i] == Publish(m))
      && (forall i, j :: 0 <= i < j < |all| ==> all[i] != all[j])
  {
    if k > 0 {
      AcceptedDistinct(acts, k - 1, maxSize, topic);
      var before, all := Accepted(acts, k - 1, maxSize, topic), Accepted(acts, k, maxSize, topic);
      forall m | m in all ensures exists i :: 0 <= i < k && acts[i] == Publish(m) {
        if m in before {
          var i :| 0 <= i < k - 1 && acts[i] == Publish(m);
        } else {
          assert acts[k - 1] == Publish(m);
        }
      }
      forall i, j | 0 <= i < j < |all| ensures all[i] != all[j] {
        if j == |before| { assert all[i] in before; }
      }
    }
  }

  // ----- outstanding messages

  /** An accepted publish whose id is still outstanding: the new message takes the old one's place. */
  predicate Replaces(q: Queue, a: Action, maxSize: int) {
    a.Publish? && |q.messages| < maxSize && a.message.id in q.messages
  }

  function Replacements(acts: seq<Action>, k: nat, maxSize: int): nat
    requires k <= |acts|
  {
    if k == 0 then 0
    else
      var one := if Replaces(After(acts, k - 1, maxSize), acts[k - 1], maxSize) then 1 else 0;
      one + Replacements(acts, k - 1, maxSize)
  }

  /** Published messages are acknowledged, outstanding or replaced; and never more than `maxSize` are outstanding. */
  predicate Balanced(q: Queue, replaced: nat, maxSize: int) {
    && q.published == q.acknowledged + |q.messages| + replaced
    && |q.messages| <= (if maxSize > 0 then maxSize else 0)
    && q.pending == |q.messages|
  }

  lemma StepBalances(q: Queue, a: Action, replaced: nat, maxSize: int)
    requires Balanced(q, replaced, maxSize)
    ensures Balanced(Step(q, a, maxSize).0, (if Replaces(q, a, maxSize) then 1 else 0) + replaced, maxSize)
  {
    match a
    case Publish(m) => Adding(q.messages, m.id, m);
    case Acknowledge(id) => if id in q.messages { Removing(q.messages, id); }
    case _ =>
  }

  lemma {:induction false} Conservation(acts: seq<Action>, k: nat, maxSize: int)
    requires k <= |acts|
    ensures Balanced(After(acts, k, maxSize), Replacements(acts, k, maxSize), maxSize)
  {
    hide Step, Replaces, After, Balanced;
    if k > 0 {
      AfterNext(acts, k, maxSize);
      Conservation(acts, k - 1, maxSize);
      StepBalances(After(acts, k - 1, maxSize), acts[k - 1], Replacements(acts, k - 1, maxSize), maxSize);
    } else {
      EmptyBalanced(acts, maxSize);
    }
  }

  lemma EmptyBalanced(acts: seq<Action>, maxSize: int)
    ensures Balanced(After(acts, 0, maxSize), 0, maxSize)
  {}

  lemma Adding<T>(m: map<string, T>, id: string, x: T)
    ensures |m[id := x]| == |m| + if id in m then 0 else 1
  {
    assert m[id := x].Keys == m.Keys + {id};
    assert id in m ==> m.Keys + {id} == m.Keys;
    assert |m[id := x]| == |m[id := x].Keys|;
  }

  lemma Removing<T>(m: map<string, T>, id: string)
    requires id in m
    ensures |m - {id}| == |m| - 1
  {
    assert (m - {id}).Keys == m.Keys - {id};
    assert |m - {id}| == |(m - {id}).Keys|;
  }

  /** The books balance exactly when no accepted message ever reused an outstanding id. */
  lemma {:induction false} BalancedIffUnique(acts: seq<Action>, k: nat, maxSize: int)
    requires k <= |acts|
    ensures After(acts, k, maxSize).published - After(acts, k, maxSize).acknowledged ==
      |After(acts, k, maxSize).messages|
      <==> forall i :: 0 <= i < k ==> !Replaces(After(acts, i, maxSize), acts[i], maxSize)
  {
    Conservation(acts, k, maxSize);
    NoReplacements(acts, k, maxSize);
  }

  /** Two messages under one id, both accepted and none acknowledged: one is outstanding. */
  lemma ReusedIdUnbalances(m: Message, n: Message)
    requires m.id == n.id
    ensures var q := After([Publish(m), Publish(n)], 2, 10);
      q.published == 2 && q.acknowledged == 0 && |q.messages| == 1
  {
    var acts := [Publish(m), Publish(n)];
    assert After(acts, 1, 10) == Step(EMPTY, acts[0], 10).0;
    assert After(acts, 2, 10) == Step(After(acts, 1, 10), acts[1], 10).0;
    assert After(acts, 2, 10).messages == map[m.id := n];
  }

  lemma {:induction false} NoReplacements(acts: seq<Action>, k: nat, maxSize: int)
    requires k <= |acts|
    ensures Replacements(acts, k, maxSize) == 0 <==>
      forall i :: 0 <= i < k ==> !Replaces(After(acts, i, maxSize), acts[i], maxSize)
  {
    hide Replaces, After;
    if k > 0 {
      NoReplacements(acts, k - 1, maxSize);
    }
  }

  /** Publishing with an id, or acknowledging it, successfully. */
  predicate Touches(q: Queue, a: Action, maxSize: int, id: string) {
    && Step(q, a, maxSize).1 == Done(true)
    && ((a.Publish? && a.message.id == id) || a == Acknowledge(id))
  }

  predicate Concerns(acts: seq<Action>, i: nat, maxSize: int, id: string)
    requires i < |acts|
  {
    Touches(After(acts, i, maxSize), acts[i], maxSize, id)
  }

  predicate Outstanding(q: Queue, id: string, m: Message) { id in q.messages && q.messages[id] == m }

  lemma StepOutstanding(q: Queue, a: Action, maxSize: int, id: string, m: Message)
    ensures Outstanding(Step(q, a, maxSize).0, id, m) <==>
      if Touches(q, a, maxSize, id) then a == Publish(m) else Outstanding(q, id, m)
  {}

  /** Action i published m, and nothing after it and before k concerned its id. */
  predicate Latest(acts: seq<Action>, i: nat, k: nat, maxSize: int, id: string, m: Message)
    requires i < k <= |acts|
  {
    acts[i] == Publish(m) && Concerns(acts, i, maxSize, id) && forall j :: i < j < k ==> !Concerns(acts, j, maxSize, id)
  }

  ghost predicate SomeLatest(acts: seq<Action>, k: nat, maxSize: int, id: string, m: Message)
    requires k <= |acts|
  {
    exists i :: 0 <= i < k && Latest(acts, i, k, maxSize, id, m)
  }

  /** A message is outstanding exactly when it is the latest accepted under its id and has not been
      acknowledged since; consuming it does not matter. */
  lemma {:induction false} OutstandingMeans(acts: seq<Action>, k: nat, maxSize: int, id: string, m: Message)
    requires k <= |acts|
    ensures Outstanding(After(acts, k, maxSize), id, m) <==> SomeLatest(acts, k, maxSize, id, m)
  {
    hide After, SomeLatest, Step, Outstanding, Touches;
    if k > 0 {
      AfterNext(acts, k, maxSize);
      OutstandingMeans(acts, k - 1, maxSize, id, m);
      StepOutstanding(After(acts, k - 1, maxSize), acts[k - 1], maxSize, id, m);
      LatestExtends(acts, k, maxSize, id, m);
    } else {
      NothingOutstanding(acts, maxSize, id, m);
    }
  }

  lemma NothingOutstanding(acts: seq<Action>, maxSize: int, id: string, m: Message)
    ensures !Outstanding(After(acts, 0, maxSize), id, m) && !SomeLatest(acts, 0, maxSize, id, m)
  {}

  lemma LatestExtends(acts: seq<Action>, k: nat, maxSize: int, id: string, m: Message)
    requires 0 < k <= |acts|
    ensures SomeLatest(acts, k, maxSize, id, m) <==>
      if Concerns(acts, k - 1, maxSize, id) then acts[k - 1] == Publish(m) else SomeLatest(acts, k - 1, maxSize, id, m)
  {
    hide Concerns;
    if Concerns(acts, k - 1, maxSize, id) {
      if acts[k - 1] == Publish(m) { assert Latest(acts, k - 1, k, maxSize, id, m); }
    } else {
      var p := k - 1;
      if i :| 0 <= i < p && Latest(acts, i, p, maxSize, id, m) {
        assert Latest(acts, i, k, maxSize, id, m);
      }
      if i :| 0 <= i < k && Latest(acts, i, k, maxSize, id, m) {
        assert Latest(acts, i, k - 1, maxSize, id, m);
      }
    }
  }

  /** What each call answers. A publish succeeds exactly below the size limit. A consumer gets the oldest accepted
      message of the topic that was not handed out yet, and nothing exactly if all were. An acknowledgement
      succeeds exactly if a message with this id is outstanding. */
  lemma AnswersMean(acts: seq<Action>, k: nat, maxSize: int)
    requires k < |acts|
    ensures var q, a, r := After(acts, k, maxSize), acts[k], Step(After(acts, k, maxSize), acts[k], maxSize).1;
      && (a.Publish? ==> r == Done(|q.messages| < maxSize))
      && (a.Consume? ==>
        var accepted, n := Accepted(acts, k, maxSize, a.topic), |Consumed(acts, k, maxSize, a.topic)|;
        && n <= |accepted| && r == if n == |accepted| then Nothing else Got(accepted[n]))
      && (a.Acknowledge? ==> r == Done(exists m :: SomeLatest(acts, k, maxSize, a.id, m)))
  {
    hide SomeLatest, After, Accepted, Consumed;
    var q, a := After(acts, k, maxSize), acts[k];
    if a.Consume? {
      FirstInFirstOut(acts, k, maxSize, a.topic);
    } else if a.Acknowledge? {
      forall m ensures Outstanding(q, a.id, m) <==> SomeLatest(acts, k, maxSize, a.id, m) {
        OutstandingMeans(acts, k, maxSize, a.id, m);
      }
      if a.id in q.messages { assert Outstanding(q, a.id, q.messages[a.id]); }
    }
  }

  // ----- waiting messages

  /** Every waiting message is outstanding, and no two waiting messages share an id. */
  ghost predicate Sound(q: Queue) {
    && (forall t, i :: 0 <= i < |QueueOf(q, t)| ==> QueueOf(q, t)[i].id in q.messages)
    && (forall t, u, i, j :: 0 <= i < |QueueOf(q, t)| && 0 <= j < |QueueOf(q, u)| && (t != u || i != j) ==>
          QueueOf(q, t)[i].id != QueueOf(q, u)[j].id)
  }

  ghost predicate Waits(q: Queue, id: string) {
    exists t, i :: 0 <= i < |QueueOf(q, t)| && QueueOf(q, t)[i].id == id
  }

  /** A successful acknowledgement of an id that still waits, or an accepted publish under such an id. */
  ghost predicate Early(q: Queue, a: Action, maxSize: int) {
    match a
    case Publish(m) => |q.messages| < maxSize && Waits(q, m.id)
    case Acknowledge(id) => id in q.messages && Waits(q, id)
    case Consume(_) => false
  }

  /** An action keeps the waiting messages sound exactly when it is not early. */
  lemma SoundIffNotEarly(q: Queue, a: Action, maxSize: int)
    requires Sound(q)
    ensures Sound(Step(q, a, maxSize).0) <==> !Early(q, a, maxSize)
  {
    match a
    case Publish(m) => if |q.messages| < maxSize { PublishSound(q, m, maxSize); }
    case Acknowledge(id) => if id in q.messages { AcknowledgeSound(q, id, maxSize); }
    case Consume(topic) => ConsumeSound(q, topic, maxSize);
  }

  lemma PublishQueues(q: Queue, m: Message, maxSize: int)
    requires |q.messages| < maxSize
    ensures var q' := Step(q, Publish(m), maxSize).0;
      && q'.messages == q.messages[m.id := m]
      && forall t :: QueueOf(q', t) == if t == m.topic then QueueOf(q, t) + [m] else QueueOf(q, t)
  {}

  lemma PublishSound(q: Queue, m: Message, maxSize: int)
    requires Sound(q) && |q.messages| < maxSize
    ensures Sound(Step(q, Publish(m), maxSize).0) <==> !Waits(q, m.id)
  {
    hide Step, QueueOf;
    var q' := Step(q, Publish(m), maxSize).0;
    var last := |QueueOf(q, m.topic)|;
    PublishQueues(q, m, maxSize);
    assert QueueOf(q', m.topic)[last] == m;
    if Waits(q, m.id) {
      var t, i :| 0 <= i < |QueueOf(q, t)| && QueueOf(q, t)[i].id == m.id;
      assert QueueOf(q', t)[i].id == QueueOf(q', m.topic)[last].id;
    }
  }

  lemma AcknowledgeSound(q: Queue, id: string, maxSize: int)
    requires Sound(q) && id in q.messages
    ensures Sound(Step(q, Acknowledge(id), maxSize).0) <==> !Waits(q, id)
  {
    var q' := Step(q, Acknowledge(id), maxSize).0;
    assert forall t :: QueueOf(q', t) == QueueOf(q, t);
  }

  lemma ConsumeQueues(q: Queue, topic: string, maxSize: int)
    ensures var q' := Step(q, Consume(topic), maxSize).0;
      && q'.messages == q.messages
      && forall t :: QueueOf(q', t) == if t == topic && QueueOf(q, t) != [] then QueueOf(q, t)[1..] else QueueOf(q, t)
  {}

  lemma ConsumeSound(q: Queue, topic: string, maxSize: int)
    requires Sound(q)
    ensures Sound(Step(q, Consume(topic), maxSize).0)
  {
    hide Step, QueueOf;
    ConsumeQueues(q, topic, maxSize);
  }

  ghost predicate NoneEarly(acts: seq<Action>, k: nat, maxSize: int)
    requires k <= |acts|
  {
    forall i :: 0 <= i < k ==> !Early(After(acts, i, maxSize), acts[i], maxSize)
  }

  /** Over a run the waiting messages are sound all the way exactly when no action is early. */
  lemma {:induction false} SoundRun(acts: seq<Action>, k: nat, maxSize: int)
    requires k <= |acts|
    ensures NoneEarly(acts, k, maxSize) <==> forall i :: 0 <= i <= k ==> Sound(After(acts, i, maxSize))
  {
    hide After, Step, Early, Sound;
    if k > 0 {
      SoundRun(acts, k - 1, maxSize);
      AfterNext(acts, k, maxSize);
      if Sound(After(acts, k - 1, maxSize)) { SoundIffNotEarly(After(acts, k - 1, maxSize), acts[k - 1], maxSize); }
    } else {
      EmptySound(acts, maxSize);
    }
  }

  lemma EmptySound(acts: seq<Action>, maxSize: int)
    ensures Sound(After(acts, 0, maxSize))
  {}

  /** What waits under the given topics, one after the other. */
  function Waiting(q: Queue, topics: seq<string>): seq<Message> {
    if topics == [] then [] else QueueOf(q, topics[0]) + Waiting(q, topics[1..])
  }

  ghost predicate DistinctTopics(topics: seq<string>) {
    forall i, j :: 0 <= i < j < |topics| ==> topics[i] != topics[j]
  }

  lemma {:induction false} WaitingPlace(q: Queue, topics: seq<string>, m: Message) returns (t: string, i: nat)
    requires m in Waiting(q, topics)
    ensures t in topics && i < |QueueOf(q, t)| && QueueOf(q, t)[i] == m
  {
    if m in QueueOf(q, topics[0]) {
      t := topics[0];
      i :| i < |QueueOf(q, t)| && QueueOf(q, t)[i] == m;
    } else {
      t, i := WaitingPlace(q, topics[1..], m);
    }
  }

  lemma {:induction false} WaitingDistinct(q: Queue, topics: seq<string>)
    requires Sound(q) && DistinctTopics(topics)
    ensures forall i, j :: 0 <= i < j < |Waiting(q, topics)| ==> Waiting(q, topics)[i].id != Waiting(q, topics)[j].id
  {
    if topics != [] {
      WaitingDistinct(q, topics[1..]);
      var first, later := QueueOf(q, topics[0]), Waiting(q, topics[1..]);
      var all := first + later;
      forall i, j | 0 <= i < j < |all| ensures all[i].id != all[j].id {
        if i < |first| <= j {
          assert all[j] in later;
          var t, k := WaitingPlace(q, topics[1..], all[j]);
          assert t != topics[0];
        }
      }
    }
  }

  lemma {:induction false} DistinctIdsFit(waiting: seq<Message>, ids: set<string>)
    requires forall i, j :: 0 <= i < j < |waiting| ==> waiting[i].id != waiting[j].id
    requires forall i :: 0 <= i < |waiting| ==> waiting[i].id in ids
    ensures |waiting| <= |ids|
  {
    if waiting != [] {
      assert forall i :: 0 < i < |waiting| ==> waiting[i].id != waiting[0].id;
      DistinctIdsFit(waiting[1..], ids - {waiting[0].id});
    }
  }

  /** Without an early action, `maxSize` bounds what waits as well, under all topics together. */
  lemma WaitingBounded(acts: seq<Action>, k: nat, maxSize: int, topics: seq<string>)
    requires k <= |acts| && NoneEarly(acts, k, maxSize) && DistinctTopics(topics)
    ensures |Waiting(After(acts, k, maxSize), topics)| <= if maxSize > 0 then maxSize else 0
  {
    hide Step, Early, After;
    var q := After(acts, k, maxSize);
    SoundRun(acts, k, maxSize);
    Conservation(acts, k, maxSize);
    WaitingDistinct(q, topics);
    forall i | 0 <= i < |Waiting(q, topics)| ensures Waiting(q, topics)[i].id in q.messages.Keys {
      var t, j := WaitingPlace(q, topics, Waiting(q, topics)[i]);
    }
    DistinctIdsFit(Waiting(q, topics), q.messages.Keys);
  }

  /** So one topic never holds more than `maxSize`. */
  lemma QueueBounded(acts: seq<Action>, k: nat, maxSize: int, topic: string)
    requires k <= |acts| && NoneEarly(acts, k, maxSize)
    ensures |QueueOf(After(acts, k, maxSize), topic)| <= if maxSize > 0 then maxSize else 0
  {
    WaitingBounded(acts, k, maxSize, [topic]);
    assert Waiting(After(acts, k, maxSize), [topic]) ==
      QueueOf(After(acts, k, maxSize), topic) + Waiting(After(acts, k, maxSize), []);
  }

  /** With early acknowledgements `maxSize` does not limit what waits: after n rounds of publish and acknowledge, n
      messages wait in a queue of size one. */
  lemma {:induction false} WaitingUnbounded(m: Message, n: nat) returns (acts: seq<Action>)
    ensures |acts| == 2 * n && |QueueOf(After(acts, 2 * n, 1), m.topic)| == n && After(acts, 2 * n, 1).messages == map[]
  {
    if n == 0 {
      acts := [];
    } else {
      var fewer := WaitingUnbounded(m, n - 1);
      acts := fewer + [Publish(m), Acknowledge(m.id)];
      AfterPrefix(fewer, acts, 2 * n - 2, 1);
      var q := After(acts, 2 * n - 2, 1);
      var q' := After(acts, 2 * n - 1, 1);
      assert q' == Step(q, Publish(m), 1).0;
      assert q'.messages == map[m.id := m];
      assert After(acts, 2 * n, 1) == Step(q', Acknowledge(m.id), 1).0;
    }
  }

  lemma {:induction false} AfterPrefix(short: seq<Action>, long: seq<Action>, k: nat, maxSize: int)
    requires k <= |short| && short <= long
    ensures After(short, k, maxSize) == After(long, k, maxSize)
  {
    if k > 0 { AfterPrefix(short, long, k - 1, maxSize); }
  }

  // ----- the backend as an object

  class MemoryQueueBackend {
    const maxSize: int
    var queues: map<string, seq<Message>>
    var messages: map<string, Message>
    var published: nat
    var delivered: nat
    var acknowledged: nat
    var pending: nat
    var topics: nat

    function Value(): Queue reads this { Queue(queues, messages, published, delivered, acknowledged, pending, topics) }

    constructor (maxSize: int)
      ensures Value() == EMPTY && this.maxSize == maxSize
    {
      this.maxSize, queues, messages := maxSize, map[], map[];
      published, delivered, acknowledged, pending, topics := 0, 0, 0, 0, 0;
    }

    method Publish(message: Message) returns (ok: bool)
      modifies this
      ensures (Value(), Done(ok)) == Step(old(Value()), Action.Publish(message), maxSize)
    {
      if |messages| >= maxSize { return false; }
      ghost var waiting := QueueOf(Value(), message.topic);
      if message.topic !in queues { queues := queues[message.topic := []]; }
      queues := queues[message.topic := queues[message.topic] + [message]];
      assert queues == old(queues)[message.topic := waiting + [message]];
      messages := messages[message.id := message];
      published := published + 1;
      pending := |messages|;
      topics := |queues|;
      ok := true;
    }

    /** Without waiting: a consumer that waits asks again when it wakes up. */
    method Consume(topic: string) returns (got: Option<Message>)
      modifies this, if QueueOf(Value(), topic) != [] then {QueueOf(Value(), topic)[0]} else {}
      ensures (Value(), if got.Some? then Got(got.value) else Nothing) ==
        Step(old(Value()), Action.Consume(topic), maxSize)
      ensures got.Some? ==> got.value.status == Delivered
    {
      if topic !in queues { queues := queues[topic := []]; }
      if queues[topic] == [] {
        assert queues == old(queues)[topic := []];
        return None;
      }
      var message := queues[topic][0];
      queues := queues[topic := queues[topic][1..]];
      message.status := Delivered;
      delivered := delivered + 1;
      got := Some(message);
    }

    method Acknowledge(id: string) returns (ok: bool)
      modifies this, if id in messages then {messages[id]} else {}
      ensures (Value(), Done(ok)) == Step(old(Value()), Action.Acknowledge(id), maxSize)
      ensures ok ==> old(messages)[id].status == Acknowledged
    {
      if id !in messages { return false; }
      messages[id].status := Acknowledged;
      messages := messages - {id};
      acknowledged := acknowledged + 1;
      pending := |messages|;
      ok := true;
    }

    method GetPending(topic: string) returns (waiting: seq<Message>)
      ensures waiting == QueueOf(Value(), topic)
    {
      waiting := if topic in queues then queues[topic] else [];
    }
  }
}
