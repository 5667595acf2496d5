/**
 What every run of the prefetching protocol keeps: no sentence is lost or reordered
 before a stop or a panic, messages end with one terminal message, dropping the reader
 never hangs, and a run left alone delivers the whole corpus in full batches.
 */
module PrefetchProofs {
  import opened Prefetch

  // ----- Content: what the producer has sent and holds

  /** What the producer has not sent yet. */
  function Unsent(p: Producer): seq<string> {
    p.batch + ((if p.pc.Check? then [p.pc.sentence] else []) + p.unread)
  }

  /** Nothing has been dropped on the producer's side. */
  ghost predicate NothingLost(c: Setup, p: Producer) {
    Items(p.sent) + Unsent(p) == c.corpus
  }

  predicate AtEnd(pc: ProducerPc) {
    pc.FinalCheck? || pc.SendPartial? || pc.SendDone? || pc.Exited?
  }

  ghost predicate ContentInv(c: Setup, p: Producer, stop: bool) {
    && Items(p.sent) <= c.corpus
    && (p.panicked || stop || NothingLost(c, p))
    && (p.pc.Fetch? || p.pc.Check? || p.pc.SendFull? || p.pc.SendPartial? ==> NothingLost(c, p))
    && (AtEnd(p.pc) ==> p.panicked || stop || p.unread == [])
    && (p.panicked ==> p.pc.SendError? || p.pc.Exited?)
    && (p.pc.SendError? ==> p.panicked)
    && (p.pc.SendDone? || p.pc.SendError? || p.pc.Exited? ==> p.batch == [])
  }

  lemma ContentInitially(c: Setup)
    ensures ContentInv(c, Initial(c).producer, false)
  {
    assert Items([]) + Unsent(Initial(c).producer) == c.corpus;
  }

  lemma ContentKept(c: Setup, p: Producer, stop: bool, a: Action)
    requires ContentInv(c, p, stop) && ProducerStep(c, p, stop, a).Some?
    ensures ContentInv(c, ProducerStep(c, p, stop, a).value, stop)
  {
    hide Items;
    var q := ProducerStep(c, p, stop, a).value;
    match a
    case Read => assert [p.unread[0]] + p.unread[1..] == p.unread;
    case LookAtFlag =>
      if !stop { assert q.batch + ([] + q.unread) == p.batch + ([p.pc.sentence] + p.unread); }
    case _ =>
  }

  lemma MoveLeft(a: seq<string>, b: seq<string>, rest: seq<string>)
    ensures a + (b + ([] + rest)) == (a + b) + ([] + ([] + rest))
  {
  }

  lemma ContentAfterSend(c: Setup, p: Producer, stop: bool)
    requires ContentInv(c, p, stop) && Pending(p).Some?
    ensures ContentInv(c, AfterSend(p), stop)
  {
    var q := AfterSend(p);
    ItemsSnoc(p.sent, Pending(p).value);
    hide Items;
    if p.pc.SendFull? || p.pc.SendPartial? {
      MoveLeft(Items(p.sent), p.batch, p.unread);
    } else {
      assert Unsent(q) == Unsent(p);
    }
  }

  lemma ContentStops(c: Setup, p: Producer, stop: bool)
    requires ContentInv(c, p, stop)
    ensures ContentInv(c, p, true)
  {
  }

  // ----- Shape: how the messages are filled and how they end

  ghost predicate AllFull(c: Setup, messages: seq<Message>) {
    messages == [] ||
    (var n := |messages| - 1;
     messages[n].Batch? && |messages[n].items| == c.FullSize() && AllFull(c, messages[..n]))
  }

  /** Full batches and then, perhaps, one smaller but not empty. */
  ghost predicate FullButLast(c: Setup, messages: seq<Message>) {
    AllFull(c, messages) ||
    (var n := |messages| - 1;
     n >= 0 && messages[n].Batch? && 0 < |messages[n].items| < c.FullSize() && AllFull(c, messages[..n]))
  }

  /** Batches and then one terminal message, which says whether the reader panicked. */
  ghost predicate Ended(c: Setup, messages: seq<Message>, panicked: bool) {
    var n := |messages| - 1;
    && n >= 0
    && messages[n] == (if panicked then Error else Done)
    && (if panicked then AllFull(c, messages[..n]) else FullButLast(c, messages[..n]))
  }

  ghost predicate ShapeInv(c: Setup, p: Producer) {
    match p.pc
    case Fetch => |p.batch| < c.FullSize() && AllFull(c, p.sent) && !p.panicked
    case Check(_) => |p.batch| < c.FullSize() && AllFull(c, p.sent) && !p.panicked
    case SendFull => |p.batch| == c.FullSize() && AllFull(c, p.sent) && !p.panicked
    case FinalCheck => |p.batch| < c.FullSize() && AllFull(c, p.sent) && !p.panicked
    case SendPartial => 0 < |p.batch| < c.FullSize() && AllFull(c, p.sent) && !p.panicked
    case SendDone => FullButLast(c, p.sent) && !p.panicked
    case SendError => AllFull(c, p.sent) && p.panicked
    case Exited => Ended(c, p.sent, p.panicked)
  }

  lemma ShapeKept(c: Setup, p: Producer, stop: bool, a: Action)
    requires ShapeInv(c, p) && ProducerStep(c, p, stop, a).Some?
    ensures ShapeInv(c, ProducerStep(c, p, stop, a).value)
  {
  }

  lemma ShapeAfterSend(c: Setup, p: Producer)
    requires ShapeInv(c, p) && Pending(p).Some?
    ensures ShapeInv(c, AfterSend(p))
  {
    var m := Pending(p).value;
    assert (p.sent + [m])[..|p.sent|] == p.sent;
  }

  // ----- Delivery: what the consumer has taken out

  predicate InDrop(k: Consumer) {
    k.pc.Draining? || k.pc.Joining? || k.pc.Gone?
  }

  /** The channel holds the latest messages sent. */
  ghost predicate ChannelInv(c: Setup, sent: seq<Message>, channel: seq<Message>) {
    |channel| <= c.capacity && |channel| <= |sent| && sent[|sent| - |channel|..] == channel
  }

  /** Before drop the messages sent are those received and those in the channel. */
  ghost predicate DeliveryInv(c: Setup, sent: seq<Message>, channel: seq<Message>, k: Consumer) {
    && (if InDrop(k) then k.yielded + k.current <= Items(sent)
        else k.yielded + k.current + Items(channel) == Items(sent)
             && k.batchesReceived + Batches(channel) == Batches(sent))
    && (c.byBatch ==> k.current == [])
    && (k.pc.Receiving? ==> !k.exhausted && k.current == [])
  }

  /** Until the terminal message arrives, only batches have been received. */
  ghost predicate ReceivedInv(sent: seq<Message>, channel: seq<Message>, k: Consumer) {
    !InDrop(k) && !k.exhausted ==> forall i :: 0 <= i < |sent| - |channel| ==> sent[i].Batch?
  }

  ghost predicate Inv(c: Setup, s: State) {
    && ReceivedInv(s.producer.sent, s.channel, s.consumer)
    && ContentInv(c, s.producer, s.stop)
    && ShapeInv(c, s.producer)
    && ChannelInv(c, s.producer.sent, s.channel)
    && DeliveryInv(c, s.producer.sent, s.channel, s.consumer)
    && (InDrop(s.consumer) ==> s.stop)
    && (s.consumer.exhausted && !InDrop(s.consumer) ==> s.channel == [] && s.producer.pc.Exited?)
  }

  lemma DeliveryAfterSend(c: Setup, sent: seq<Message>, channel: seq<Message>, k: Consumer, m: Message)
    requires ChannelInv(c, sent, channel) && |channel| < c.capacity && DeliveryInv(c, sent, channel, k)
    ensures ChannelInv(c, sent + [m], channel + [m]) && DeliveryInv(c, sent + [m], channel + [m], k)
  {
    ItemsSnoc(sent, m);
    ItemsSnoc(channel, m);
    hide Items, Batches;
    var more := if m.Batch? then m.items else [];
    var x := k.yielded + k.current;
    assert x + (Items(channel) + more) == (x + Items(channel)) + more;
    assert (sent + [m])[|sent| - |channel|..] == sent[|sent| - |channel|..] + [m];
  }

  lemma ChannelTail(c: Setup, sent: seq<Message>, channel: seq<Message>)
    requires ChannelInv(c, sent, channel) && channel != []
    ensures ChannelInv(c, sent, channel[1..]) && sent[|sent| - |channel|] == channel[0]
  {
    assert sent[|sent| - |channel|..][1..] == sent[|sent| - (|channel| - 1)..];
  }

  lemma DeliveryAfterReceive(c: Setup, sent: seq<Message>, channel: seq<Message>, k: Consumer)
    requires DeliveryInv(c, sent, channel, k) && channel != [] && k.pc.Receiving?
    ensures DeliveryInv(c, sent, channel[1..], AfterReceive(c, k, channel[0]))
  {
    ItemsFront(channel);
    hide Items, Batches;
    var m, t := channel[0], AfterReceive(c, k, channel[0]);
    var more, rest := if m.Batch? then m.items else [], Items(channel[1..]);
    assert t.yielded + t.current == k.yielded + more;
    assert k.yielded + k.current + (more + rest) == (k.yielded + more) + rest;
  }

  lemma {:induction false} BatchesFirst(c: Setup, messages: seq<Message>, i: nat)
    requires i < |messages| && FullButLast(c, messages)
    ensures messages[i].Batch?
    decreases |messages|
  {
    if i < |messages| - 1 { BatchesFirst(c, messages[..|messages| - 1], i); }
  }

  /** A terminal message in the channel is the last message there will be. */
  lemma TerminalIsLast(c: Setup, p: Producer, channel: seq<Message>)
    requires ShapeInv(c, p) && ChannelInv(c, p.sent, channel) && channel != [] && !channel[0].Batch?
    ensures p.pc.Exited? && |channel| == 1
  {
    ChannelTail(c, p.sent, channel);
    var i := |p.sent| - |channel|;
    if !p.pc.Exited? {
      BatchesFirst(c, p.sent, i);
    } else if i < |p.sent| - 1 {
      BatchesFirst(c, p.sent[..|p.sent| - 1], i);
    }
  }

  lemma InvInitially(c: Setup)
    ensures Inv(c, Initial(c))
  {
    ContentInitially(c);
  }

  /** A step of the producer alone. */
  lemma ProducerKeeps(c: Setup, s: State, a: Action)
    requires Inv(c, s) && ProducerStep(c, s.producer, s.stop, a).Some?
    ensures Inv(c, s.(producer := ProducerStep(c, s.producer, s.stop, a).value))
  {
    var p := s.producer;
    ContentKept(c, p, s.stop, a);
    ShapeKept(c, p, s.stop, a);
    OwnStep(c, p, s.stop, a);
    hide ContentInv, ShapeInv, ChannelInv, ReceivedInv, DeliveryInv, ProducerStep;
  }

  lemma OwnStep(c: Setup, p: Producer, stop: bool, a: Action)
    requires ProducerStep(c, p, stop, a).Some?
    ensures ProducerStep(c, p, stop, a).value.sent == p.sent && !p.pc.Exited?
  {
  }

  lemma SendKeeps(c: Setup, s: State)
    requires Inv(c, s) && Enabled(c, s, Send)
    ensures Inv(c, Next(c, s, Send).value)
  {
    var p, m := s.producer, Pending(s.producer).value;
    ContentAfterSend(c, p, s.stop);
    ShapeAfterSend(c, p);
    DeliveryAfterSend(c, p.sent, s.channel, s.consumer, m);
    ReceivedAfterSend(p.sent, s.channel, s.consumer, m);
    hide ContentInv, ShapeInv, ChannelInv, ReceivedInv, DeliveryInv;
  }

  lemma ReceivedAfterSend(sent: seq<Message>, channel: seq<Message>, k: Consumer, m: Message)
    requires |channel| <= |sent| && ReceivedInv(sent, channel, k)
    ensures ReceivedInv(sent + [m], channel + [m], k)
  {
  }

  lemma ReceiveKeeps(c: Setup, s: State)
    requires Inv(c, s) && Enabled(c, s, Receive)
    ensures Inv(c, Next(c, s, Receive).value)
  {
    var p, k, m := s.producer, s.consumer, s.channel[0];
    ChannelTail(c, p.sent, s.channel);
    DeliveryAfterReceive(c, p.sent, s.channel, k);
    if !m.Batch? { TerminalIsLast(c, p, s.channel); }
    ReceivedAfterReceive(c, p.sent, s.channel, k);
    hide ContentInv, ShapeInv, ChannelInv, ReceivedInv, DeliveryInv;
  }

  lemma ReceivedAfterReceive(c: Setup, sent: seq<Message>, channel: seq<Message>, k: Consumer)
    requires ChannelInv(c, sent, channel) && channel != [] && ReceivedInv(sent, channel, k) && k.pc.Receiving?
    requires !k.exhausted
    ensures ReceivedInv(sent, channel[1..], AfterReceive(c, k, channel[0]))
  {
    ChannelTail(c, sent, channel);
    hide ChannelInv;
  }

  lemma DrainKeeps(c: Setup, s: State)
    requires Inv(c, s) && Enabled(c, s, Drain)
    ensures Inv(c, Next(c, s, Drain).value)
  {
    ChannelTail(c, s.producer.sent, s.channel);
    assert InDrop(s.consumer);
    hide ContentInv, ShapeInv, ChannelInv, Items, Batches;
  }

  /** A step of the consumer that takes nothing from the channel. */
  lemma ConsumerKeeps(c: Setup, s: State, a: Action)
    requires Inv(c, s) && Enabled(c, s, a)
    requires a in {Call, ReceiveClosed, Stop, Drop, DrainEnd, Join}
    ensures Inv(c, Next(c, s, a).value)
  {
    hide ContentInv, ShapeInv, ChannelInv, Items, Batches;
    var p, k := s.producer, s.consumer;
    ContentStops(c, p, s.stop);
    if a == Call && k.current != [] {
      assert k.yielded + [k.current[0]] + k.current[1..] == k.yielded + k.current;
    }
    if a == Drop {
      StillPrefix(k.yielded + k.current, Items(s.channel), Items(p.sent));
    }
  }

  lemma StillPrefix(x: seq<string>, y: seq<string>, whole: seq<string>)
    ensures x + y == whole ==> x <= whole
  {
  }

  lemma {:induction false} InvKept(c: Setup, s: State, a: Action)
    requires Inv(c, s) && Enabled(c, s, a)
    ensures Inv(c, Next(c, s, a).value)
  {
    match a
    case Send => SendKeeps(c, s);
    case Receive => ReceiveKeeps(c, s);
    case Drain => DrainKeeps(c, s);
    case Call => ConsumerKeeps(c, s, a);
    case ReceiveClosed => ConsumerKeeps(c, s, a);
    case Stop => ConsumerKeeps(c, s, a);
    case Drop => ConsumerKeeps(c, s, a);
    case DrainEnd => ConsumerKeeps(c, s, a);
    case Join => ConsumerKeeps(c, s, a);
    case _ => hide Inv; ProducerKeeps(c, s, a);
  }
}
