/**
 The promises of the prefetching reader, over all runs.
 */
module PrefetchTheorems {
  import opened Wrappers
  import opened Prefetch
  import opened PrefetchProofs

  lemma {:induction false} RunKeeps(c: Setup, s: State, actions: seq<Action>)
    requires Inv(c, s) && Run(c, s, actions).Some?
    ensures Inv(c, Run(c, s, actions).value)
    decreases |actions|
  {
    if actions != [] {
      InvKept(c, s, actions[0]);
      RunKeeps(c, Next(c, s, actions[0]).value, actions[1..]);
    }
  }

  lemma ReachableInv(c: Setup, s: State)
    requires Reachable(c, s)
    ensures Inv(c, s)
  {
    var actions: seq<Action> :| Run(c, Initial(c), actions) == Some(s);
    InvInitially(c);
    RunKeeps(c, Initial(c), actions);
  }

  // ----- Safety

  /** What the caller has been given or will be given next from messages already received or in the channel. */
  function Delivered(s: State): seq<string> {
    s.consumer.yielded + s.consumer.current + Items(s.channel)
  }

  /** Until a stop, a drop or a panic, every sentence is in exactly one place, in order. */
  lemma Conservation(c: Setup, s: State)
    requires Reachable(c, s) && !s.stop && !s.producer.panicked
    ensures Delivered(s) + Unsent(s.producer) == c.corpus
  {
    ReachableInv(c, s);
  }

  /** Whatever happens, what the caller gets is a prefix of the corpus. */
  lemma DeliveredIsPrefix(c: Setup, s: State)
    requires Reachable(c, s)
    ensures s.consumer.yielded + s.consumer.current <= c.corpus
    ensures !InDrop(s.consumer) ==> Delivered(s) <= c.corpus
  {
    ReachableInv(c, s);
  }

  ghost predicate TerminalAt(messages: seq<Message>, i: nat) {
    i < |messages| && !messages[i].Batch?
  }

  /** At most one terminal message is ever sent, and nothing after it. */
  lemma OneTerminalMessage(c: Setup, s: State, i: nat)
    requires Reachable(c, s) && TerminalAt(s.producer.sent, i)
    ensures i == |s.producer.sent| - 1 && s.producer.pc.Exited?
    ensures s.producer.sent[i] == if s.producer.panicked then Error else Done
  {
    ReachableInv(c, s);
    var p := s.producer;
    if p.pc.Exited? {
      if i < |p.sent| - 1 { BatchesFirst(c, p.sent[..|p.sent| - 1], i); }
    } else {
      BatchesFirst(c, p.sent, i);
    }
  }

  // ----- Progress in normal operation

  /** A producer that has exited has left its terminal message for a consumer that has not seen it. */
  lemma TerminalStillThere(c: Setup, s: State)
    requires Reachable(c, s) && s.producer.pc.Exited? && !InDrop(s.consumer) && !s.consumer.exhausted
    ensures s.channel != []
  {
    ReachableInv(c, s);
  }

  /** The producer can move: by itself, or by sending. */
  ghost predicate ProducerCanMove(c: Setup, s: State) {
    Enabled(c, s, Send) || exists a :: ProducerStep(c, s.producer, s.stop, a).Some?
  }

  lemma MovesUnlessSending(c: Setup, s: State)
    ensures ProducerCanMove(c, s) || s.producer.pc.Exited? || (Pending(s.producer).Some? && |s.channel| >= c.capacity)
  {
    var p := s.producer;
    match p.pc
    case Fetch => assert ProducerStep(c, p, s.stop, ReadPanic).Some?;
    case Check(_) => assert ProducerStep(c, p, s.stop, LookAtFlag).Some?;
    case FinalCheck => assert ProducerStep(c, p, s.stop, LookAtFlagAgain).Some?;
    case _ =>
  }

  /** A waiting consumer and a producer waiting for room never wait for each other; the channel never closes early. */
  lemma NeverBothBlocked(c: Setup, s: State)
    requires Reachable(c, s) && c.capacity >= 1 && s.consumer.pc.Receiving?
    ensures Enabled(c, s, Receive) || ProducerCanMove(c, s)
    ensures !Enabled(c, s, ReceiveClosed)
  {
    ReachableInv(c, s);
    MovesUnlessSending(c, s);
    if s.producer.pc.Exited? { TerminalStillThere(c, s); }
  }

  /** `b` is the least number of batches of at most `size` sentences that hold `n`: `n / size` rounded up. */
  predicate IsCeiling(n: nat, size: nat, b: nat) {
    n <= b * size && (b == 0 || (b - 1) * size < n)
  }

  lemma MulSucc(k: nat, size: nat)
    ensures (k + 1) * size == k * size + size
  {
  }

  lemma {:induction false} FullBatchesCount(c: Setup, messages: seq<Message>)
    requires AllFull(c, messages)
    ensures |Items(messages)| == Batches(messages) * c.FullSize()
  {
    if messages != [] {
      var init, last := messages[..|messages| - 1], messages[|messages| - 1];
      FullBatchesCount(c, init);
      MulSucc(Batches(init), c.FullSize());
      assert messages == init + [last];
      ItemsSnoc(init, last);
      hide Items, Batches;
      assert Batches(messages) == Batches(init) + 1;
    }
  }

  lemma BatchesOfEnded(c: Setup, messages: seq<Message>)
    requires Ended(c, messages, false)
    ensures IsCeiling(|Items(messages)|, c.FullSize(), Batches(messages))
  {
    var before, size := messages[..|messages| - 1], c.FullSize();
    assert messages == before + [Done];
    ItemsSnoc(before, Done);
    if AllFull(c, before) {
      FullBatchesCount(c, before);
      if Batches(before) > 0 { MulSucc(Batches(before) - 1, size); }
    } else {
      var full, last := before[..|before| - 1], before[|before| - 1];
      FullBatchesCount(c, full);
      assert before == full + [last];
      ItemsSnoc(full, last);
      MulSucc(Batches(full), size);
      hide Items, Batches;
      assert Batches(messages) == Batches(full) + 1;
    }
  }

  /** Neither side can move, unless the caller stops or drops the reader: the run is over. */
  ghost predicate Quiet(c: Setup, s: State) {
    && !ProducerCanMove(c, s)
    && !Enabled(c, s, Call) && !Enabled(c, s, Receive) && !Enabled(c, s, ReceiveClosed)
  }

  /**
   Stopped, panicked or neither, a run that comes to rest before a drop has ended properly: the
   consumer knows the end, and has been given just what was sent, in as many batches.
   */
  lemma EveryRunEnds(c: Setup, s: State)
    requires Reachable(c, s) && c.capacity >= 1 && !InDrop(s.consumer) && Quiet(c, s)
    ensures s.consumer.exhausted && s.producer.pc.Exited? && s.channel == [] && s.consumer.current == []
    ensures s.consumer.yielded == Items(s.producer.sent) && s.consumer.yielded <= c.corpus
    ensures s.consumer.batchesReceived == Batches(s.producer.sent)
    ensures Ended(c, s.producer.sent, s.producer.panicked)
  {
    ReachableInv(c, s);
    MovesUnlessSending(c, s);
    var k := s.consumer;
    assert k.pc.Idle? || k.pc.Receiving?;
    if k.pc.Receiving? { NeverBothBlocked(c, s); }
    assert k.current == [] && k.exhausted && s.channel == [];
    assert Items(s.channel) == [] && Batches(s.channel) == 0;
  }

  /** A run without stop, drop or panic ends only when every sentence was delivered, in as few batches as possible. */
  lemma UndisturbedRunDelivers(c: Setup, s: State)
    requires Reachable(c, s) && c.capacity >= 1 && !s.stop && !s.producer.panicked && Quiet(c, s)
    ensures s.consumer.yielded == c.corpus && s.consumer.exhausted && s.producer.pc.Exited?
    ensures IsCeiling(|c.corpus|, c.FullSize(), s.consumer.batchesReceived)
    ensures Ended(c, s.producer.sent, false)
  {
    hide Reachable, Quiet, Inv, Items, Batches, Ended, IsCeiling;
    NotStoppedNotDropped(c, s);
    EveryRunEnds(c, s);
    AllSent(c, s);
    BatchesOfEnded(c, s.producer.sent);
  }

  lemma NotStoppedNotDropped(c: Setup, s: State)
    requires Reachable(c, s) && !s.stop
    ensures !InDrop(s.consumer)
  {
    ReachableInv(c, s);
    hide Reachable, ContentInv, ShapeInv, ChannelInv, DeliveryInv, ReceivedInv;
  }

  lemma AllSent(c: Setup, s: State)
    requires Reachable(c, s) && !s.stop && !s.producer.panicked && s.producer.pc.Exited?
    ensures Items(s.producer.sent) == c.corpus
  {
    ReachableInv(c, s);
    hide Reachable, ShapeInv, ChannelInv, DeliveryInv, ReceivedInv, Items;
  }

  /**
   How much one step can do: it reads one sentence, sends one message behind those in the channel or
   takes the first one out; and a call of `next` that returns has given one sentence, or a whole
   batch if that is what is asked for, or has come to the end.
   */
  lemma OneAtATime(c: Setup, s: State, a: Action)
    requires Reachable(c, s) && Enabled(c, s, a)
    ensures var t := Next(c, s, a).value;
            && (t.producer.unread == s.producer.unread
                || (s.producer.unread != [] && t.producer.unread == s.producer.unread[1..]))
            && (t.channel == s.channel
                || (exists m :: t.channel == s.channel + [m] && t.producer.sent == s.producer.sent + [m])
                || (s.channel != [] && t.channel == s.channel[1..]))
            && (t.producer.sent == s.producer.sent || t.channel == s.channel + [t.producer.sent[|s.producer.sent|]])
            && (t.consumer.yielded != s.consumer.yielded ==> t.consumer.pc.Idle?)
            && (a in {Call, Receive, ReceiveClosed} && t.consumer.pc.Idle? ==>
                  || (t.consumer.exhausted && t.consumer.yielded == s.consumer.yielded)
                  || (!c.byBatch && |t.consumer.yielded| == |s.consumer.yielded| + 1)
                  || (c.byBatch && s.channel != [] && s.channel[0].Batch?
                      && t.consumer.yielded == s.consumer.yielded + s.channel[0].items))
            && (a !in {Call, Receive} ==> t.consumer.yielded == s.consumer.yielded)
  {
    ReachableInv(c, s);
    WaitsWithNothing(c, s);
    hide Reachable, Inv;
    OneStep(c, s, a);
  }

  lemma WaitsWithNothing(c: Setup, s: State)
    requires Inv(c, s)
    ensures s.consumer.pc.Receiving? ==> !s.consumer.exhausted && s.consumer.current == []
    ensures c.byBatch ==> s.consumer.current == []
  {
    hide ContentInv, ShapeInv, ChannelInv, ReceivedInv, Items, Batches;
  }

  lemma OneStep(c: Setup, s: State, a: Action)
    requires Enabled(c, s, a) && (c.byBatch ==> s.consumer.current == [])
    requires s.consumer.pc.Receiving? ==> !s.consumer.exhausted && s.consumer.current == []
    ensures var t := Next(c, s, a).value;
            && (t.producer.unread == s.producer.unread
                || (s.producer.unread != [] && t.producer.unread == s.producer.unread[1..]))
            && (t.channel == s.channel
                || (exists m :: t.channel == s.channel + [m] && t.producer.sent == s.producer.sent + [m])
                || (s.channel != [] && t.channel == s.channel[1..]))
            && (t.producer.sent == s.producer.sent || t.channel == s.channel + [t.producer.sent[|s.producer.sent|]])
            && (t.consumer.yielded != s.consumer.yielded ==> t.consumer.pc.Idle?)
            && (a in {Call, Receive, ReceiveClosed} && t.consumer.pc.Idle? ==>
                  || (t.consumer.exhausted && t.consumer.yielded == s.consumer.yielded)
                  || (!c.byBatch && |t.consumer.yielded| == |s.consumer.yielded| + 1)
                  || (c.byBatch && s.channel != [] && s.channel[0].Batch?
                      && t.consumer.yielded == s.consumer.yielded + s.channel[0].items))
            && (a !in {Call, Receive} ==> t.consumer.yielded == s.consumer.yielded)
  {
    if a == Send {
      assert (s.producer.sent + [Pending(s.producer).value])[|s.producer.sent|] == Pending(s.producer).value;
    }
  }

  // ----- Every run is finite

  function ChannelWeight(channel: seq<Message>): nat {
    if channel == [] then 0 else ChannelWeight(channel[..|channel| - 1]) + MessageWeight(channel[|channel| - 1])
  }

  function MessageWeight(m: Message): nat {
    3 + if m.Batch? then |m.items| else 0
  }

  lemma WeightSnoc(channel: seq<Message>, m: Message)
    ensures ChannelWeight(channel + [m]) == ChannelWeight(channel) + MessageWeight(m)
  {
    assert (channel + [m])[..|channel|] == channel;
  }

  lemma {:induction false} WeightFront(channel: seq<Message>)
    requires channel != []
    ensures ChannelWeight(channel) == MessageWeight(channel[0]) + ChannelWeight(channel[1..])
  {
    if |channel| > 1 {
      WeightFront(channel[..|channel| - 1]);
      assert channel[..|channel| - 1][1..] == channel[1..][..|channel| - 2];
    }
  }

  function ProducerWeight(p: Producer): nat {
    7 * |p.unread| + 5 * |p.batch| +
    match p.pc
    case Fetch => 7
    case Check(_) => 13
    case SendFull => 7
    case FinalCheck => 6
    case SendPartial => 5
    case SendDone => 4
    case SendError => 4
    case Exited => 0
  }

  function ConsumerWeight(k: Consumer): nat {
    |k.current| + (if k.exhausted then 0 else 2) +
    match k.pc
    case Idle => 5
    case Receiving => 4
    case Draining => 2
    case Joining => 1
    case Gone => 0
  }

  /** A measure that every action of either side lowers. */
  function Rank(s: State): nat {
    ProducerWeight(s.producer) + ChannelWeight(s.channel) + ConsumerWeight(s.consumer) + if s.stop then 0 else 1
  }

  lemma ProducerWeightDrops(c: Setup, p: Producer, stop: bool, a: Action)
    requires ProducerStep(c, p, stop, a).Some?
    ensures ProducerWeight(ProducerStep(c, p, stop, a).value) < ProducerWeight(p)
  {
  }

  /** A message weighs less than what the producer gives up by sending it. */
  lemma SendWeighs(c: Setup, p: Producer)
    requires ShapeInv(c, p) && Pending(p).Some?
    ensures ProducerWeight(AfterSend(p)) + MessageWeight(Pending(p).value) < ProducerWeight(p)
  {
    hide AllFull, FullButLast, Ended;
  }

  lemma ReceiveWeighs(c: Setup, k: Consumer, m: Message)
    requires k.pc.Receiving? && !k.exhausted && k.current == []
    ensures ConsumerWeight(AfterReceive(c, k, m)) < ConsumerWeight(k) + MessageWeight(m)
  {
  }

  lemma RankDrops(c: Setup, s: State, a: Action)
    requires Inv(c, s) && Enabled(c, s, a)
    ensures Rank(Next(c, s, a).value) < Rank(s)
  {
    hide ContentInv, ChannelInv, ReceivedInv, ShapeInv, Items, Batches;
    if ProducerStep(c, s.producer, s.stop, a).Some? {
      ProducerWeightDrops(c, s.producer, s.stop, a);
      hide ProducerWeight, ConsumerWeight, ChannelWeight;
    } else if a.Send? {
      SendWeighs(c, s.producer);
      WeightSnoc(s.channel, Pending(s.producer).value);
      hide ProducerWeight, ConsumerWeight, ChannelWeight, AfterSend, MessageWeight;
    } else if a.Receive? {
      ReceiveWeighs(c, s.consumer, s.channel[0]);
      WeightFront(s.channel);
      hide ProducerWeight, ConsumerWeight, ChannelWeight, AfterReceive, MessageWeight;
    } else if a.Drain? {
      WeightFront(s.channel);
      hide ProducerWeight, ConsumerWeight, ChannelWeight;
    } else {
      hide ProducerWeight, ChannelWeight, ProducerStep;
    }
  }

  lemma {:induction false} RunIsBounded(c: Setup, s: State, actions: seq<Action>)
    requires Inv(c, s) && Run(c, s, actions).Some?
    ensures |actions| + Rank(Run(c, s, actions).value) <= Rank(s)
    decreases |actions|
  {
    if actions != [] {
      InvKept(c, s, actions[0]);
      RankDrops(c, s, actions[0]);
      RunIsBounded(c, Next(c, s, actions[0]).value, actions[1..]);
    }
  }

  /** No run, in any interleaving, takes more than a fixed number of steps per sentence. */
  lemma RunsAreShort(c: Setup, actions: seq<Action>)
    requires Run(c, Initial(c), actions).Some?
    ensures |actions| <= 7 * |c.corpus| + 15
  {
    InvInitially(c);
    RunIsBounded(c, Initial(c), actions);
  }

  // ----- Drop

  /** How many messages the producer may still send once the stop flag is set. */
  function Budget(pc: ProducerPc): nat {
    match pc
    case SendFull => 2
    case SendPartial => 2
    case Exited => 0
    case _ => 1
  }

  lemma BudgetSpent(c: Setup, s: State, a: Action)
    requires s.stop && Enabled(c, s, a)
    ensures var t := Next(c, s, a).value;
            && t.stop
            && |t.producer.sent| + Budget(t.producer.pc) <= |s.producer.sent| + Budget(s.producer.pc)
  {
  }

  /** After a stop the producer sends at most two more messages. */
  lemma {:induction false} AtMostTwoAfterStop(c: Setup, s: State, actions: seq<Action>)
    requires s.stop && Run(c, s, actions).Some?
    ensures |Run(c, s, actions).value.producer.sent|
         <= |s.producer.sent| + Budget(s.producer.pc) <= |s.producer.sent| + 2
    decreases |actions|
  {
    if actions != [] {
      BudgetSpent(c, s, actions[0]);
      AtMostTwoAfterStop(c, Next(c, s, actions[0]).value, actions[1..]);
    }
  }

  /** Once the drain has found the channel empty, what is still to come fits in two places. */
  ghost predicate DropInv(s: State) {
    && (InDrop(s.consumer) ==> s.stop)
    && (s.consumer.pc.Joining? || s.consumer.pc.Gone? ==> |s.channel| + Budget(s.producer.pc) <= 2)
    && (s.consumer.pc.Gone? ==> s.producer.pc.Exited?)
  }

  lemma {:induction false} RunKeepsDrop(c: Setup, s: State, actions: seq<Action>)
    requires DropInv(s) && Run(c, s, actions).Some?
    ensures DropInv(Run(c, s, actions).value)
    ensures InDrop(s.consumer) ==> InDrop(Run(c, s, actions).value.consumer)
    decreases |actions|
  {
    if actions != [] { RunKeepsDrop(c, Next(c, s, actions[0]).value, actions[1..]); }
  }

  /** While the reader is being dropped, the producer is never held up: each of its steps is enabled until it exits. */
  lemma DropNeverStuck(c: Setup, s: State)
    requires Reachable(c, s) && c.capacity >= 2 && InDrop(s.consumer) && !s.consumer.pc.Gone?
    ensures s.consumer.pc.Joining? && !s.producer.pc.Exited? ==> ProducerCanMove(c, s)
    ensures exists a :: Enabled(c, s, a)
  {
    var actions: seq<Action> :| Run(c, Initial(c), actions) == Some(s);
    RunKeepsDrop(c, Initial(c), actions);
    MovesUnlessSending(c, s);
    if s.consumer.pc.Draining? {
      assert Enabled(c, s, Drain) || Enabled(c, s, DrainEnd);
    } else if s.producer.pc.Exited? {
      assert Enabled(c, s, Join);
    } else if !Enabled(c, s, Send) {
      var a :| ProducerStep(c, s.producer, s.stop, a).Some?;
      assert Enabled(c, s, a);
    }
  }

  lemma {:induction false} RunAppend(c: Setup, s: State, first: seq<Action>, second: seq<Action>)
    requires Run(c, s, first).Some?
    ensures Run(c, s, first + second) == Run(c, Run(c, s, first).value, second)
    decreases |first|
  {
    if first == [] {
      assert first + second == second;
    } else {
      assert (first + second)[1..] == first[1..] + second;
      RunAppend(c, Next(c, s, first[0]).value, first[1..], second);
    }
  }

  /** Dropping terminates in every interleaving: no endless run, and a run that cannot go on has joined the producer. */
  lemma {:induction false} DropTerminates(c: Setup, s: State, actions: seq<Action>)
    requires Reachable(c, s) && c.capacity >= 2 && InDrop(s.consumer)
    requires Run(c, s, actions).Some?
    ensures |actions| <= Rank(s)
    ensures var t := Run(c, s, actions).value;
            (forall a :: !Enabled(c, t, a)) ==> t.consumer.pc.Gone? && t.producer.pc.Exited?
  {
    var t := Run(c, s, actions).value;
    ReachableInv(c, s);
    RunIsBounded(c, s, actions);
    var before: seq<Action> :| Run(c, Initial(c), before) == Some(s);
    RunKeepsDrop(c, Initial(c), before);
    RunKeepsDrop(c, s, actions);
    RunAppend(c, Initial(c), before, actions);
    assert Run(c, Initial(c), before + actions) == Some(t);
    if !t.consumer.pc.Gone? { DropNeverStuck(c, t); }
  }

  /** A reader as it is made from a configuration. */
  function SetupFor(corpus: seq<string>, config: PrefetchConfig, available: nat, byBatch: bool): Setup {
    Setup(corpus, config.batchSize, EffectiveBufferBatches(config, available), byBatch)
  }

  /** Whatever the configuration and the memory, every drop of such a reader comes to an end. */
  lemma EveryDropEnds(corpus: seq<string>, config: PrefetchConfig, available: nat, byBatch: bool,
                      s: State, actions: seq<Action>)
    requires var c := SetupFor(corpus, config, available, byBatch);
             Reachable(c, s) && InDrop(s.consumer) && Run(c, s, actions).Some?
    ensures var c := SetupFor(corpus, config, available, byBatch);
            var t := Run(c, s, actions).value;
            |actions| <= Rank(s) && ((forall a :: !Enabled(c, t, a)) ==> t.consumer.pc.Gone? && t.producer.pc.Exited?)
  {
    hide Reachable, Run, Rank, Enabled;
    DropTerminates(SetupFor(corpus, config, available, byBatch), s, actions);
  }

  lemma ReachableNext(c: Setup, s: State, a: Action)
    requires Reachable(c, s) && Enabled(c, s, a)
    ensures Reachable(c, Next(c, s, a).value)
  {
    var t := Next(c, s, a).value;
    var actions: seq<Action> :| Run(c, Initial(c), actions) == Some(s);
    RunAppend(c, Initial(c), actions, [a]);
    assert [a][1..] == [];
    assert Run(c, Initial(c), actions + [a]) == Some(t);
  }

  /** A run with a channel for one message: the drain misses a batch, and the end message no longer fits. */
  function HangRun(i: nat): (State, Action)
    requires i <= 7
  {
    var k, b := Consumer(Idle, [], false, 0, []), Batch(["x"]);
    if i == 0 then (State(Producer(Fetch, ["x"], [], [], false), [], false, k), Read)
    else if i == 1 then (State(Producer(Check("x"), [], [], [], false), [], false, k), LookAtFlag)
    else if i == 2 then (State(Producer(SendFull, [], ["x"], [], false), [], false, k), Drop)
    else if i == 3 then (State(Producer(SendFull, [], ["x"], [], false), [], true, k.(pc := Draining)), DrainEnd)
    else if i == 4 then (State(Producer(SendFull, [], ["x"], [], false), [], true, k.(pc := Joining)), Send)
    else if i == 5 then (State(Producer(Fetch, [], [], [b], false), [b], true, k.(pc := Joining)), ReadEnd)
    else if i == 6 then (State(Producer(FinalCheck, [], [], [b], false), [b], true, k.(pc := Joining)), LookAtFlagAgain)
    else (State(Producer(SendDone, [], [], [b], false), [b], true, k.(pc := Joining)), Send)
  }

  lemma HangStep(i: nat)
    requires i < 7
    ensures Next(Setup(["x"], 1, 1, false), HangRun(i).0, HangRun(i).1) == Some(HangRun(i + 1).0)
  {
    if i < 4 { HangBefore(i); } else { HangAfter(i); }
  }

  lemma HangPieces()
    ensures ["x"][1..] == [] && [] + ["x"] == ["x"] && [] + [Batch(["x"])] == [Batch(["x"])]
  {
    assert [] + ["x"] == ["x"];
    assert [] + [Batch(["x"])] == [Batch(["x"])];
  }

  lemma HangBefore(i: nat)
    requires i < 4
    ensures Next(Setup(["x"], 1, 1, false), HangRun(i).0, HangRun(i).1) == Some(HangRun(i + 1).0)
  {
    HangPieces();
  }

  lemma HangAfter(i: nat)
    requires 4 <= i < 7
    ensures Next(Setup(["x"], 1, 1, false), HangRun(i).0, HangRun(i).1) == Some(HangRun(i + 1).0)
  {
    HangPieces();
  }

  lemma {:induction false} HangReachable(i: nat)
    requires i <= 7
    ensures Reachable(Setup(["x"], 1, 1, false), HangRun(i).0)
  {
    hide Next, HangRun;
    var c := Setup(["x"], 1, 1, false);
    if i == 0 {
      HangStart();
    } else {
      HangReachable(i - 1);
      HangStep(i - 1);
      ReachableNext(c, HangRun(i - 1).0, HangRun(i - 1).1);
    }
  }

  lemma HangStart()
    ensures Reachable(Setup(["x"], 1, 1, false), HangRun(0).0)
  {
    var c := Setup(["x"], 1, 1, false);
    assert Run(c, Initial(c), []) == Some(HangRun(0).0);
  }

  /** The lower bound of two on the capacity is tight: with one, dropping can hang. */
  lemma CapacityOneHangs() returns (s: State)
    ensures var c := Setup(["x"], 1, 1, false);
            && Reachable(c, s)
            && s.consumer.pc.Joining? && !s.producer.pc.Exited?
            && forall a :: !Enabled(c, s, a)
  {
    HangReachable(7);
    s := HangRun(7).0;
    hide Reachable;
  }
}
