/**
 The prefetching reader of src/corpus/prefetch.rs as a protocol: a producer thread, a
 consumer, a bounded channel and a stop flag, with one action per step that the other
 side can observe.  A run is any sequence of enabled actions, so every interleaving is one.

 The receiver outlives the producer (drop joins before it is released), so a send
 waits for room and never finds the channel closed.
 */
module Prefetch {
  import opened Wrappers

  // ----- Capacity

  function Clamp(x: nat, lo: nat, hi: nat): (r: nat)
    requires lo <= hi
    ensures lo <= r <= hi && (lo <= x <= hi ==> r == x) && (x < lo ==> r == lo) && (x > hi ==> r == hi)
  {
    if x < lo then lo else if x > hi then hi else x
  }

  datatype PrefetchConfig = PrefetchConfig(batchSize: nat, bufferBatches: nat, autoTune: bool, ramFraction: real)

  /** `compute_buffer_batches`; `available` is what the memory probe reported. */
  function ComputeBufferBatches(batchSize: nat, ramFraction: real, available: nat): (batches: nat)
    ensures 2 <= batches <= 32
    ensures var room, one := TargetBytes(ramFraction, available), if batchSize == 0 then 1 else batchSize * 100;
            (batches > 2 ==> batches * one <= room) && (batches < 32 ==> room < (batches + 1) * one)
    ensures FillsShare(batches, batchSize, available as real * ramFraction)
  {
    hide FillsShare;
    MeetsShare(batchSize, available as real * ramFraction,
               Clamp(FittingBatches(TargetBytes(ramFraction, available), batchSize * 100), 2, 32));
    Clamp(FittingBatches(TargetBytes(ramFraction, available), batchSize * 100), 2, 32)
  }

  /**
   As many batches of about a hundred bytes a sentence as `share` bytes hold, an empty batch counting as
   one byte, but at least 2 and at most 32.
   */
  predicate FillsShare(batches: nat, batchSize: nat, share: real) {
    var one := if batchSize == 0 then 1 else batchSize * 100;
    && (batches > 2 ==> (batches * one) as real <= share)
    && (batches < 32 ==> share < ((batches + 1) * one) as real)
  }

  lemma MeetsShare(batchSize: nat, share: real, batches: nat)
    requires var one := if batchSize == 0 then 1 else batchSize * 100;
             var room := if share.Floor < 0 then 0 else share.Floor;
             (batches > 2 ==> batches * one <= room) && (batches < 32 ==> room < (batches + 1) * one)
    ensures FillsShare(batches, batchSize, share)
  {
  }

  /** A negative amount converts to none. */
  function TargetBytes(ramFraction: real, available: nat): nat {
    var target := (available as real * ramFraction).Floor;
    if target < 0 then 0 else target
  }

  /** The largest number of batches that fit; an empty batch counts as one byte. */
  function FittingBatches(target: nat, perBatch: nat): (n: nat)
    ensures var one := if perBatch < 1 then 1 else perBatch; n * one <= target < (n + 1) * one
  {
    target / if perBatch < 1 then 1 else perBatch
  }

  /** The channel's capacity. */
  function EffectiveBufferBatches(config: PrefetchConfig, available: nat): (capacity: nat)
    ensures 2 <= capacity <= if config.autoTune then 32 else 64
    ensures !config.autoTune && 2 <= config.bufferBatches <= 64 ==> capacity == config.bufferBatches
    ensures !config.autoTune && config.bufferBatches < 2 ==> capacity == 2
    ensures !config.autoTune && config.bufferBatches > 64 ==> capacity == 64
    ensures config.autoTune ==> FillsShare(capacity, config.batchSize, available as real * config.ramFraction)
  {
    hide TargetBytes;
    if config.autoTune then ComputeBufferBatches(config.batchSize, config.ramFraction, available)
    else Clamp(config.bufferBatches, 2, 64)
  }

  // ----- State

  datatype Message = Batch(items: seq<string>) | Done | Error

  /** Where the producer is; in `Check` it holds a sentence it has not looked at the flag for. */
  datatype ProducerPc =
    | Fetch | Check(sentence: string) | SendFull
    | FinalCheck | SendPartial | SendDone | SendError | Exited

  /** `sent` and `panicked` record history. */
  datatype Producer = Producer(pc: ProducerPc, unread: seq<string>, batch: seq<string>, sent: seq<Message>,
                               panicked: bool)

  /** Where the consumer is; `Idle` is the caller's own code. */
  datatype ConsumerPc = Idle | Receiving | Draining | Joining | Gone

  /** `yielded` records history; the program counts it. */
  datatype Consumer = Consumer(pc: ConsumerPc, current: seq<string>, exhausted: bool, batchesReceived: nat,
                               yielded: seq<string>)

  datatype State = State(producer: Producer, channel: seq<Message>, stop: bool, consumer: Consumer)

  /** `byBatch`: the reader was turned into a batch iterator before iteration began. */
  datatype Setup = Setup(corpus: seq<string>, batchSize: nat, capacity: nat, byBatch: bool) {
    function FullSize(): nat {
      if batchSize == 0 then 1 else batchSize
    }
  }

  function Initial(c: Setup): State {
    State(Producer(Fetch, c.corpus, [], [], false), [], false, Consumer(Idle, [], false, 0, []))
  }

  // ----- Actions

  datatype Action =
    | Read | ReadEnd | ReadPanic | LookAtFlag | Send | LookAtFlagAgain   // producer_loop
    | Call | Receive | ReceiveClosed                                    // next
    | Stop | Drop | Drain | DrainEnd | Join                             // stop and drop

  /** The message that the producer is about to send. */
  function Pending(p: Producer): Option<Message> {
    match p.pc
    case SendFull => Some(Batch(p.batch))
    case SendPartial => Some(Batch(p.batch))
    case SendDone => Some(Done)
    case SendError => Some(Error)
    case _ => None
  }

  /** The producer's next step by itself; sending is for `Next`. */
  function ProducerStep(c: Setup, p: Producer, stop: bool, a: Action): Option<Producer> {
    match a
    case Read =>
      if p.pc.Fetch? && p.unread != [] then Some(p.(pc := Check(p.unread[0]), unread := p.unread[1..])) else None
    case ReadEnd =>
      if p.pc.Fetch? && p.unread == [] then Some(p.(pc := FinalCheck)) else None
    case ReadPanic =>
      if p.pc.Fetch? then Some(p.(pc := SendError, batch := [], panicked := true)) else None
    case LookAtFlag =>
      if !p.pc.Check? then None
      else if stop then Some(p.(pc := FinalCheck))
      else
        var batch := p.batch + [p.pc.sentence];
        Some(p.(pc := if |batch| >= c.batchSize then SendFull else Fetch, batch := batch))
    case LookAtFlagAgain =>
      if !p.pc.FinalCheck? then None
      else if p.batch != [] && !stop then Some(p.(pc := SendPartial))
      else Some(p.(pc := SendDone, batch := []))
    case _ => None
  }

  function AfterSend(p: Producer): Producer
    requires Pending(p).Some?
  {
    var q := p.(sent := p.sent + [Pending(p).value], batch := []);
    match p.pc
    case SendFull => q.(pc := Fetch)
    case SendPartial => q.(pc := SendDone)
    case _ => q.(pc := Exited)
  }

  /** What `next` does with a message. */
  function AfterReceive(c: Setup, k: Consumer, m: Message): Consumer {
    match m
    case Batch(items) =>
      var t := k.(batchesReceived := k.batchesReceived + 1);
      if c.byBatch then t.(pc := Idle, yielded := k.yielded + items)
      else if items == [] then t
      else t.(pc := Idle, yielded := k.yielded + [items[0]], current := items[1..])
    case _ => k.(pc := Idle, exhausted := true)
  }

  /** The state after an action, if it is enabled. */
  function Next(c: Setup, s: State, a: Action): Option<State> {
    var k := s.consumer;
    match a
    case Send =>
      if Pending(s.producer).Some? && |s.channel| < c.capacity
      then Some(s.(channel := s.channel + [Pending(s.producer).value], producer := AfterSend(s.producer)))
      else None
    case Call =>
      if !k.pc.Idle? then None
      else if k.current != [] then
        Some(s.(consumer := k.(yielded := k.yielded + [k.current[0]], current := k.current[1..])))
      else if k.exhausted then None
      else Some(s.(consumer := k.(pc := Receiving)))
    case Receive =>
      if k.pc.Receiving? && s.channel != []
      then Some(s.(channel := s.channel[1..], consumer := AfterReceive(c, k, s.channel[0])))
      else None
    case ReceiveClosed =>
      if k.pc.Receiving? && s.channel == [] && s.producer.pc.Exited?
      then Some(s.(consumer := k.(pc := Idle, exhausted := true))) else None
    case Stop =>
      if k.pc.Idle? && !s.stop then Some(s.(stop := true)) else None
    case Drop =>
      if k.pc.Idle? then Some(s.(stop := true, consumer := k.(pc := Draining))) else None
    case Drain =>
      if k.pc.Draining? && s.channel != [] then Some(s.(channel := s.channel[1..])) else None
    case DrainEnd =>
      if k.pc.Draining? && s.channel == [] then Some(s.(consumer := k.(pc := Joining))) else None
    case Join =>
      if k.pc.Joining? && s.producer.pc.Exited? then Some(s.(consumer := k.(pc := Gone))) else None
    case _ =>
      match ProducerStep(c, s.producer, s.stop, a)
      case None => None
      case Some(p) => Some(s.(producer := p))
  }

  predicate Enabled(c: Setup, s: State, a: Action) {
    Next(c, s, a).Some?
  }

  /** The state after a run, if each action is enabled in turn. */
  function Run(c: Setup, s: State, actions: seq<Action>): Option<State>
    decreases |actions|
  {
    if actions == [] then Some(s)
    else
      match Next(c, s, actions[0])
      case None => None
      case Some(t) => Run(c, t, actions[1..])
  }

  ghost predicate Reachable(c: Setup, s: State) {
    exists actions: seq<Action> :: Run(c, Initial(c), actions) == Some(s)
  }

  // ----- Sentences in messages

  function Items(messages: seq<Message>): seq<string> {
    if messages == [] then []
    else
      var n := |messages| - 1;
      Items(messages[..n]) + if messages[n].Batch? then messages[n].items else []
  }

  function Batches(messages: seq<Message>): nat {
    if messages == [] then 0
    else Batches(messages[..|messages| - 1]) + if messages[|messages| - 1].Batch? then 1 else 0
  }

  lemma ItemsSnoc(messages: seq<Message>, m: Message)
    ensures Items(messages + [m]) == Items(messages) + if m.Batch? then m.items else []
    ensures Batches(messages + [m]) == Batches(messages) + if m.Batch? then 1 else 0
  {
    assert (messages + [m])[..|messages|] == messages;
  }

  lemma ThreeTogether(a: seq<string>, b: seq<string>, c: seq<string>)
    ensures (a + b) + c == a + (b + c)
  {
  }

  lemma {:induction false} ItemsFront(messages: seq<Message>)
    requires messages != []
    ensures Items(messages) == (if messages[0].Batch? then messages[0].items else []) + Items(messages[1..])
    ensures Batches(messages) == (if messages[0].Batch? then 1 else 0) + Batches(messages[1..])
  {
    if |messages| > 1 {
      var init, last := messages[..|messages| - 1], messages[|messages| - 1];
      ItemsFront(init);
      assert messages == init + [last] && messages[1..] == init[1..] + [last];
      ItemsSnoc(init, last);
      ItemsSnoc(init[1..], last);
      hide Items, Batches;
      ThreeTogether(if init[0].Batch? then init[0].items else [], Items(init[1..]),
                    if last.Batch? then last.items else []);
    } else {
      assert messages == [] + [messages[0]];
      ItemsSnoc([], messages[0]);
    }
  }
}
