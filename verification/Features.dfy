/**
 Cutting audio into frames, all at once or as it arrives: the frame bookkeeping of
 src/acoustic/features.rs.  Samples are reals.  A frame is followed up to pre-emphasis and zero
 padding; the window weights, the spectrum and what is computed from it are not part of this model.
 */
module Features {
  import opened Wrappers

  datatype FrameConfig = FrameConfig(frameSize: nat, frameShift: nat, preEmphasis: real)

  type Audio = seq<real>

  // ----- One call on a whole recording

  /** `num_frames`; the source divides by the shift. */
  function FrameCount(c: FrameConfig, length: nat): (n: nat)
    requires c.frameShift > 0
    ensures length >= c.frameSize && length > 0 ==>
      (n - 1) * c.frameShift + c.frameSize <= length < n * c.frameShift + c.frameSize
    ensures n == 0 <==> length == 0
    ensures 0 < length <= c.frameSize ==> n == 1
  {
    if length <= c.frameSize then if length > 0 then 1 else 0
    else
      (length - c.frameSize) / c.frameShift + 1
  }

  ghost function Emphasized(c: FrameConfig, audio: Audio): Audio {
    seq(|audio|, i requires 0 <= i < |audio| =>
      if i == 0 then audio[0] else audio[i] - c.preEmphasis * audio[i - 1])
  }

  ghost function Frame(c: FrameConfig, signal: Audio, start: nat): Audio {
    seq(c.frameSize, i requires 0 <= i < c.frameSize =>
      if start + i < |signal| then signal[start + i] else 0.0)
  }

  /** The frames of a recording start at 0, S, 2S, ... */
  ghost function Frames(c: FrameConfig, audio: Audio): (frames: seq<Audio>)
    requires c.frameShift > 0
  {
    seq(FrameCount(c, |audio|), i requires 0 <= i < FrameCount(c, |audio|) =>
      Frame(c, Emphasized(c, audio), i * c.frameShift))
  }

  method ApplyPreEmphasis(c: FrameConfig, audio: Audio) returns (output: Audio)
    ensures output == Emphasized(c, audio)
    ensures |output| == |audio| && (audio != [] ==> output[0] == audio[0])
    ensures forall k :: 1 <= k < |audio| ==> output[k] + c.preEmphasis * audio[k - 1] == audio[k]
  {
    if c.preEmphasis == 0.0 || audio == [] {
      return audio;
    }
    output := [audio[0]];
    for i := 1 to |audio|
      invariant |output| == i && forall k :: 0 <= k < i ==> output[k] == Emphasized(c, audio)[k]
    {
      output := output + [audio[i] - c.preEmphasis * audio[i - 1]];
    }
  }

  method ExtractFrame(c: FrameConfig, signal: Audio, start: nat) returns (frame: Audio)
    ensures frame == Frame(c, signal, start)
    ensures |frame| == c.frameSize
    ensures forall k :: 0 <= k < c.frameSize ==> frame[k] == if start + k < |signal| then signal[start + k] else 0.0
  {
    frame := seq(c.frameSize, _ => 0.0);
    for i := 0 to c.frameSize
      invariant |frame| == c.frameSize
      invariant forall k :: 0 <= k < i ==> frame[k] == Frame(c, signal, start)[k]
      invariant forall k :: i <= k < c.frameSize ==> frame[k] == 0.0
    {
      if start + i < |signal| {
        frame := frame[i := signal[start + i]];
      }
    }
  }

  /** The loop the four extraction functions share. */
  method ExtractFrames(c: FrameConfig, audio: Audio) returns (frames: seq<Audio>)
    requires c.frameShift > 0
    ensures frames == Frames(c, audio)
  {
    FramesAre(c, audio);
    hide Frames, Frame, Emphasized;
    frames := [];
    if audio == [] {
      return;
    }
    var emphasized := ApplyPreEmphasis(c, audio);
    var count := if |emphasized| > c.frameSize then (|emphasized| - c.frameSize) / c.frameShift + 1 else 1;
    for i := 0 to count
      invariant |frames| == i && forall k :: 0 <= k < i ==> frames[k] == Frames(c, audio)[k]
    {
      var frame := ExtractFrame(c, emphasized, i * c.frameShift);
      frames := frames + [frame];
    }
  }

  lemma FramesAre(c: FrameConfig, audio: Audio)
    requires c.frameShift > 0
    ensures |Frames(c, audio)| == FrameCount(c, |audio|)
    ensures forall i :: 0 <= i < |Frames(c, audio)| ==>
              Frames(c, audio)[i] == Frame(c, Emphasized(c, audio), i * c.frameShift)
  {
  }

  // ----- The same audio, piece by piece

  datatype Stream = Stream(buffer: Audio, samplesProcessed: nat)

  /** One extraction; None is the panic of draining more than the buffer holds. */
  ghost function Extracted(c: FrameConfig, s: Stream): Option<(Stream, seq<Audio>)>
    requires c.frameShift > 0
  {
    var consumed := FrameCount(c, |s.buffer|) * c.frameShift;
    if consumed > |s.buffer| then None
    else
      Some((Stream(s.buffer[consumed..], s.samplesProcessed + consumed), Frames(c, s.buffer)))
  }

  class StreamingFeatureExtractor {
    const config: FrameConfig
    var buffer: Audio
    var samplesProcessed: nat

    ghost function State(): Stream
      reads this
    {
      Stream(buffer, samplesProcessed)
    }

    constructor (config: FrameConfig)
      ensures this.config == config && State() == Stream([], 0)
    {
      this.config := config;
      buffer, samplesProcessed := [], 0;
    }

    method AddSamples(samples: Audio) returns (available: nat)
      requires config.frameShift > 0
      modifies this
      ensures State() == Stream(old(buffer) + samples, old(samplesProcessed))
      ensures available == FrameCount(config, |buffer|)
    {
      buffer := buffer + samples;
      available := FrameCount(config, |buffer|);
    }

    method ExtractFilterbank() returns (features: Option<seq<Audio>>)
      requires config.frameShift > 0
      modifies this
      ensures match Extracted(config, old(State()))
              case None => features == None && State() == old(State())
              case Some((next, frames)) => features == Some(frames) && State() == next
    {
      var count := FrameCount(config, |buffer|);
      if count == 0 {
        assert Frames(config, buffer) == [] && buffer[0..] == buffer;
        return Some([]);
      }
      var frames := ExtractFrames(config, buffer);
      var consumed := count * config.frameShift;
      if consumed > |buffer| {
        return None;
      }
      buffer := buffer[consumed..];
      samplesProcessed := samplesProcessed + consumed;
      features := Some(frames);
    }

    /** What is left is padded to one frame; the count of processed samples stays. */
    method FlushFilterbank() returns (features: seq<Audio>)
      requires config.frameShift > 0
      modifies this
      ensures features == Frames(config, Padded(config, old(buffer)))
      ensures old(buffer) == [] <==> features == []
      ensures 0 < |old(buffer)| <= config.frameSize ==>
                |features| == 1 && |features[0]| == config.frameSize
                && forall k :: |old(buffer)| < k < config.frameSize ==> features[0][k] == 0.0
      ensures State() == Stream([], old(samplesProcessed))
    {
      if buffer == [] {
        return [];
      }
      ghost var left := buffer;
      while |buffer| < config.frameSize
        invariant samplesProcessed == old(samplesProcessed)
        invariant |left| <= |buffer| && buffer[..|left|] == left
        invariant |buffer| <= if |left| < config.frameSize then config.frameSize else |left|
        invariant forall k :: |left| <= k < |buffer| ==> buffer[k] == 0.0
      {
        buffer := buffer + [0.0];
      }
      assert buffer == Padded(config, left);
      features := ExtractFrames(config, buffer);
      buffer := [];
    }

    method Reset()
      modifies this
      ensures State() == Stream([], 0)
    {
      buffer, samplesProcessed := [], 0;
    }
  }

  ghost function Padded(c: FrameConfig, buffer: Audio): Audio {
    if buffer == [] || |buffer| >= c.frameSize then buffer
    else
      buffer + seq(c.frameSize - |buffer|, _ => 0.0)
  }

  // ----- When draining stays inside the buffer

  predicate DrainFits(c: FrameConfig, length: nat)
    requires c.frameShift > 0
  {
    FrameCount(c, length) * c.frameShift <= length
  }

  lemma DrainFitsWhen(c: FrameConfig, length: nat)
    requires 0 < c.frameShift <= c.frameSize
    ensures DrainFits(c, length) <==> length == 0 || length >= c.frameShift
  {
    var n := FrameCount(c, length);
    if length >= c.frameSize {
      assert (n - 1) * c.frameShift == n * c.frameShift - c.frameShift;
    } else if length > 0 {
      assert n * c.frameShift == c.frameShift;
    }
  }

  /** No extraction from a full frame can panic, exactly when the shift is within the frame. */
  lemma FullFramesDrain(c: FrameConfig)
    requires c.frameShift > 0 && c.frameSize > 0
    ensures (forall length: nat :: length >= c.frameSize ==> DrainFits(c, length)) <==> c.frameShift <= c.frameSize
  {
    if c.frameShift <= c.frameSize {
      forall length: nat | length >= c.frameSize ensures DrainFits(c, length) {
        DrainFitsWhen(c, length);
      }
    } else {
      assert FrameCount(c, c.frameSize) * c.frameShift == c.frameShift;
      assert !DrainFits(c, c.frameSize);
    }
  }

  // ----- Runs

  datatype Op = Add(samples: Audio) | Extract

  /** The stream, with all the audio added, all the frames given out, and which opened a call. */
  datatype History = History(stream: Stream, audio: Audio, frames: seq<Audio>, seams: set<nat>)

  ghost function Step(c: FrameConfig, h: History, op: Op): Option<History>
    requires c.frameShift > 0
  {
    match op
    case Add(samples) =>
      Some(h.(stream := Stream(h.stream.buffer + samples, h.stream.samplesProcessed), audio := h.audio + samples))
    case Extract =>
      match Extracted(c, h.stream)
      case None => None
      case Some((stream, frames)) =>
        var seam := if frames == [] then {} else {|h.frames|};
        Some(History(stream, h.audio, h.frames + frames, h.seams + seam))
  }

  ghost function Run(c: FrameConfig, ops: seq<Op>): Option<History>
    requires c.frameShift > 0
  {
    if ops == [] then Some(History(Stream([], 0), [], [], {}))
    else
      match Run(c, ops[..|ops| - 1])
      case None => None
      case Some(h) => Step(c, h, ops[|ops| - 1])
  }

  /** Extraction only when there is nothing, or a whole frame, in the buffer. */
  ghost predicate Careful(c: FrameConfig, ops: seq<Op>)
    requires c.frameShift > 0
  {
    forall k :: 0 <= k < |ops| && ops[k].Extract? ==> CarefulAt(c, Run(c, ops[..k]))
  }

  ghost predicate CarefulAt(c: FrameConfig, h: Option<History>) {
    h.Some? ==> h.value.stream.buffer == [] || |h.value.stream.buffer| >= c.frameSize
  }

  /**
   The buffer is the audio from `samplesProcessed` on, that many samples are one shift a frame, and
   frame g is cut from the audio at g * S.  The one sample that differs from the recording as a
   whole is the first of a call: nothing comes before it in the buffer to be subtracted.
   */
  ghost predicate Aligned(c: FrameConfig, h: History)
    requires c.frameShift > 0
  {
    && h.stream.samplesProcessed == |h.frames| * c.frameShift <= |h.audio|
    && h.stream.buffer == h.audio[h.stream.samplesProcessed..]
    && (|h.frames| > 0 ==> (|h.frames| - 1) * c.frameShift + c.frameSize <= |h.audio|)
    && (forall g :: g in h.seams ==> g < |h.frames|)
    && forall g {:trigger h.frames[g]} :: 0 <= g < |h.frames| ==> FrameOf(c, h.audio, h.seams, g, h.frames[g])
  }

  ghost predicate FrameOf(c: FrameConfig, audio: Audio, seams: set<nat>, g: nat, frame: Audio) {
    && g * c.frameShift + c.frameSize <= |audio|
    && |frame| == c.frameSize
    && forall j :: 0 <= j < c.frameSize ==>
      frame[j] == if j == 0 && g in seams then audio[g * c.frameShift] else Emphasized(c, audio)[g * c.frameShift + j]
  }

  lemma AddKeepsAligned(c: FrameConfig, h: History, samples: Audio)
    requires c.frameShift > 0 && Aligned(c, h)
    ensures Aligned(c, Step(c, h, Add(samples)).value)
  {
    var h' := Step(c, h, Add(samples)).value;
    var p := h.stream.samplesProcessed;
    assert h'.audio[p..] == h.audio[p..] + samples;
    forall g {:trigger h.frames[g]} | 0 <= g < |h.frames| ensures FrameOf(c, h'.audio, h.seams, g, h.frames[g]) {
      FrameOfLonger(c, h.audio, samples, h.seams, g, h.frames[g]);
    }
  }

  lemma FrameOfLonger(c: FrameConfig, audio: Audio, more: Audio, seams: set<nat>, g: nat, frame: Audio)
    requires FrameOf(c, audio, seams, g, frame)
    ensures FrameOf(c, audio + more, seams, g, frame)
  {
    var start := g * c.frameShift;
    assert forall k :: 0 <= k < |audio| ==> Emphasized(c, audio + more)[k] == Emphasized(c, audio)[k];
  }

  lemma {:induction false} ExtractKeepsAligned(c: FrameConfig, h: History)
    requires 0 < c.frameShift <= c.frameSize && Aligned(c, h) && CarefulAt(c, Some(h))
    ensures Step(c, h, Extract).Some? && Aligned(c, Step(c, h, Extract).value)
    ensures h.stream.buffer != [] ==> |Step(c, h, Extract).value.frames| == FrameCount(c, |h.audio|)
  {
    hide FrameOf, Frames, FrameCount, Step;
    ExtractCounts(c, h);
    var h' := Step(c, h, Extract).value;
    forall g {:trigger h'.frames[g]} | 0 <= g < |h'.frames|
      ensures FrameOf(c, h'.audio, h'.seams, g, h'.frames[g])
    {
      ExtractedFrame(c, h, g);
    }
  }

  /** How many samples and frames an extraction moves on. */
  lemma ExtractCounts(c: FrameConfig, h: History)
    requires 0 < c.frameShift <= c.frameSize && Aligned(c, h) && CarefulAt(c, Some(h))
    ensures Step(c, h, Extract).Some?
    ensures var h' := Step(c, h, Extract).value;
            && h'.stream.samplesProcessed == |h'.frames| * c.frameShift <= |h'.audio|
            && h'.stream.buffer == h'.audio[h'.stream.samplesProcessed..]
            && (|h'.frames| > 0 ==> (|h'.frames| - 1) * c.frameShift + c.frameSize <= |h'.audio|)
            && (forall g :: g in h'.seams ==> g < |h'.frames|)
            && (h.stream.buffer != [] ==> |h'.frames| == FrameCount(c, |h.audio|))
  {
    var buffer, before := h.stream.buffer, |h.frames|;
    var n := FrameCount(c, |buffer|);
    DrainFitsWhen(c, |buffer|);
    FramesAre(c, buffer);
    hide FrameOf, Frames;
    Distributes(before, n, c.frameShift);
    var h' := Step(c, h, Extract).value;
    assert |h'.frames| == before + n && h'.audio == h.audio;
    if buffer == [] {
      assert h'.frames == h.frames;
    } else {
      Distributes(before, n - 1, c.frameShift);
      CountIs(c, |h.audio|, before + n);
    }
  }

  /** The frames that were there stay, and the new ones are frames of the audio. */
  lemma ExtractedFrame(c: FrameConfig, h: History, g: nat)
    requires 0 < c.frameShift <= c.frameSize && Aligned(c, h) && CarefulAt(c, Some(h))
    requires Step(c, h, Extract).Some? && g < |Step(c, h, Extract).value.frames|
    ensures var h' := Step(c, h, Extract).value; FrameOf(c, h'.audio, h'.seams, g, h'.frames[g])
  {
    FramesAre(c, h.stream.buffer);
    hide FrameOf, Frames;
    var h', before := Step(c, h, Extract).value, |h.frames|;
    if g < before {
      assert h'.frames[g] == h.frames[g] && FrameOf(c, h.audio, h.seams, g, h.frames[g]);
      SeamElsewhere(c, h.audio, h.seams, before, g, h.frames[g]);
      assert Frames(c, h.stream.buffer) == [] ==> h.seams + {} == h.seams;
    } else {
      FrameFromBuffer(c, h, g - before);
    }
  }

  lemma SeamElsewhere(c: FrameConfig, audio: Audio, seams: set<nat>, seam: nat, g: nat, frame: Audio)
    requires FrameOf(c, audio, seams, g, frame) && g != seam
    ensures FrameOf(c, audio, seams + {seam}, g, frame)
  {
    hide Emphasized;
  }

  lemma Distributes(a: int, b: int, s: int)
    ensures (a + b) * s == a * s + b * s
  {
  }

  /** The bounds that FrameCount promises leave one number. */
  lemma CountIs(c: FrameConfig, length: nat, n: nat)
    requires length >= c.frameSize > 0 && c.frameShift > 0
    requires (n - 1) * c.frameShift + c.frameSize <= length < n * c.frameShift + c.frameSize
    ensures n == FrameCount(c, length)
  {
    var m := FrameCount(c, length);
    if m < n {
      LessTimes(m, n - 1, c.frameShift);
    } else if n < m {
      LessTimes(n, m - 1, c.frameShift);
    }
  }

  lemma LessTimes(a: int, b: int, s: nat)
    requires a <= b
    ensures a * s <= b * s
  {
    Distributes(a, b - a, s);
  }

  lemma {:induction false} FrameFromBuffer(c: FrameConfig, h: History, i: nat)
    requires 0 < c.frameShift <= c.frameSize && Aligned(c, h)
    requires |h.stream.buffer| >= c.frameSize && i < FrameCount(c, |h.stream.buffer|)
    ensures FrameOf(c, h.audio, h.seams + {|h.frames|}, |h.frames| + i, Frames(c, h.stream.buffer)[i])
  {
    var s, buffer, p := c.frameShift, h.stream.buffer, h.stream.samplesProcessed;
    Distributes(|h.frames|, i, s);
    LessTimes(i, FrameCount(c, |buffer|) - 1, s);
    assert (|h.frames| + i) * s == p + i * s;
    if i > 0 { LessTimes(1, i, s); }
    WindowOfRest(c, h.audio, p, i * s);
    assert Frames(c, buffer)[i] == Frame(c, Emphasized(c, buffer), i * s);
    hide Emphasized, Frame;
  }

  /** A frame cut from what is left of the audio is one of the audio, up to its first sample. */
  lemma WindowOfRest(c: FrameConfig, audio: Audio, p: nat, start: nat)
    requires p <= |audio| && p + start + c.frameSize <= |audio|
    ensures var frame := Frame(c, Emphasized(c, audio[p..]), start);
            forall j :: 0 <= j < c.frameSize ==>
              frame[j] == if start == 0 && j == 0 then audio[p] else Emphasized(c, audio)[p + start + j]
  {
    hide Emphasized, Frame;
    var rest := audio[p..];
    forall j | 0 <= j < c.frameSize
      ensures |Frame(c, Emphasized(c, rest), start)| == c.frameSize && p + start + j < |Emphasized(c, audio)|
      ensures Frame(c, Emphasized(c, rest), start)[j]
           == if start == 0 && j == 0 then audio[p] else Emphasized(c, audio)[p + start + j]
    {
      EmphasizedRest(c, audio, p, start + j);
      FrameSample(c, Emphasized(c, rest), start, j);
    }
  }

  lemma EmphasizedRest(c: FrameConfig, audio: Audio, p: nat, k: nat)
    requires p + k < |audio|
    ensures |Emphasized(c, audio[p..])| == |audio| - p && |Emphasized(c, audio)| == |audio|
    ensures Emphasized(c, audio[p..])[k] == if k == 0 then audio[p] else Emphasized(c, audio)[p + k]
  {
  }

  lemma FrameSample(c: FrameConfig, signal: Audio, start: nat, j: nat)
    requires j < c.frameSize && start + j < |signal|
    ensures |Frame(c, signal, start)| == c.frameSize && Frame(c, signal, start)[j] == signal[start + j]
  {
  }

  lemma {:induction false} CarefulRunsAlign(c: FrameConfig, ops: seq<Op>)
    requires 0 < c.frameShift <= c.frameSize && Careful(c, ops)
    ensures Run(c, ops).Some? && Aligned(c, Run(c, ops).value)
  {
    if ops != [] {
      var last := |ops| - 1;
      forall k | 0 <= k < last && ops[..last][k].Extract? ensures CarefulAt(c, Run(c, ops[..last][..k])) {
        assert ops[..last][..k] == ops[..k] && ops[k].Extract?;
      }
      CarefulRunsAlign(c, ops[..last]);
      var h := Run(c, ops[..last]).value;
      match ops[last]
      case Add(samples) => AddKeepsAligned(c, h, samples);
      case Extract => ExtractKeepsAligned(c, h);
    }
  }

  /**
   Streaming gives the frames of the whole recording.  After any careful run that ends in an
   extraction from a non-empty buffer, there are as many frames as one call on all the audio
   gives, and frame for frame they are the same, but for the first sample of each later call.
   */
  lemma {:induction false} StreamMatchesBatch(c: FrameConfig, ops: seq<Op>)
    requires 0 < c.frameShift <= c.frameSize && Careful(c, ops + [Extract])
    ensures Run(c, ops).Some? && Run(c, ops + [Extract]).Some?
    ensures
      var h := Run(c, ops + [Extract]).value;
      var batch := Frames(c, h.audio);
      Run(c, ops).value.stream.buffer != [] ==>
        && |h.frames| == |batch|
        && (forall g {:trigger batch[g]} :: 0 <= g < |batch| ==> SameButSeam(c, h, g, batch[g]))
        && (c.preEmphasis == 0.0 ==> h.frames == batch)
  {
    assert (ops + [Extract])[..|ops|] == ops;
    forall k | 0 <= k < |ops| && ops[k].Extract? ensures CarefulAt(c, Run(c, ops[..k])) {
      assert (ops + [Extract])[..k] == ops[..k] && (ops + [Extract])[k].Extract?;
    }
    CarefulRunsAlign(c, ops);
    var h := Run(c, ops).value;
    assert (ops + [Extract])[|ops|].Extract?;
    ExtractKeepsAligned(c, h);
    if h.stream.buffer != [] {
      AlignedIsBatch(c, Run(c, ops + [Extract]).value);
    }
  }

  /** Frame g of the stream is the frame of the recording, up to the first sample of a later call. */
  ghost predicate SameButSeam(c: FrameConfig, h: History, g: nat, whole: Audio) {
    && g < |h.frames| && |h.frames[g]| == |whole| == c.frameSize
    && (g > 0 ==> 0 <= g * c.frameShift - 1 < |h.audio|)
    && forall j :: 0 <= j < c.frameSize ==>
      h.frames[g][j] == whole[j]
         + if j == 0 && g > 0 && g in h.seams then c.preEmphasis * h.audio[g * c.frameShift - 1] else 0.0
  }

  lemma {:induction false} AlignedIsBatch(c: FrameConfig, h: History)
    requires 0 < c.frameShift <= c.frameSize && Aligned(c, h) && |h.frames| == FrameCount(c, |h.audio|)
    ensures forall g {:trigger Frames(c, h.audio)[g]} :: 0 <= g < |h.frames| ==>
              SameButSeam(c, h, g, Frames(c, h.audio)[g])
    ensures c.preEmphasis == 0.0 ==> h.frames == Frames(c, h.audio)
  {
    var batch := Frames(c, h.audio);
    forall g {:trigger batch[g]} | 0 <= g < |h.frames|
      ensures SameButSeam(c, h, g, batch[g]) && (c.preEmphasis == 0.0 ==> h.frames[g] == batch[g])
    {
      assert FrameOf(c, h.audio, h.seams, g, h.frames[g]);
      FrameIsBatch(c, h, g);
    }
  }

  lemma FrameIsBatch(c: FrameConfig, h: History, g: nat)
    requires 0 < c.frameShift <= c.frameSize && g < |h.frames| == FrameCount(c, |h.audio|)
    requires FrameOf(c, h.audio, h.seams, g, h.frames[g])
    ensures SameButSeam(c, h, g, Frames(c, h.audio)[g])
    ensures c.preEmphasis == 0.0 ==> h.frames[g] == Frames(c, h.audio)[g]
  {
    var start, whole := g * c.frameShift, Frames(c, h.audio)[g];
    assert whole == Frame(c, Emphasized(c, h.audio), start);
    if g > 0 {
      LessTimes(1, g, c.frameShift);
      assert whole[0] == h.audio[start] - c.preEmphasis * h.audio[start - 1];
    } else {
      assert start == 0;
    }
    assert forall j :: 0 <= j < c.frameSize ==> whole[j] == Emphasized(c, h.audio)[start + j];
  }

  /**
   Extracting from less than a frame: it goes through, and the count stays that of the recording,
   exactly when the buffer held a whole frame, or this is the first frame and a shift is there.
   */
  lemma {:induction false} ShortExtraction(c: FrameConfig, h: History)
    requires 0 < c.frameShift <= c.frameSize && Aligned(c, h) && h.stream.buffer != []
    ensures
      Step(c, h, Extract).Some? && |Step(c, h, Extract).value.frames| == FrameCount(c, |h.audio|)
      <==> |h.stream.buffer| >= c.frameSize || (h.frames == [] && |h.stream.buffer| >= c.frameShift)
  {
    hide FrameOf, Emphasized, Frame;
    var length, before := |h.stream.buffer|, |h.frames|;
    DrainFitsWhen(c, length);
    if length >= c.frameSize {
      ExtractKeepsAligned(c, h);
    } else if before > 0 {
      CountIs(c, |h.audio|, before) by {
        Distributes(before - 1, 1, c.frameShift);
      }
    }
  }

  /** Flushing gives the frames that an extraction would give after adding the padding. */
  lemma {:induction false} FlushIsPaddedExtraction(c: FrameConfig, ops: seq<Op>)
    requires 0 < c.frameShift <= c.frameSize && Careful(c, ops)
    requires Run(c, ops).Some? && Run(c, ops).value.stream.buffer != []
    ensures
      var h := Run(c, ops).value;
      var padding := Padded(c, h.stream.buffer)[|h.stream.buffer|..];
      var end := Run(c, ops + [Add(padding), Extract]);
      && end.Some?
      && end.value.frames == h.frames + Frames(c, Padded(c, h.stream.buffer))
      && |end.value.frames| == FrameCount(c, |h.audio + padding|)
  {
    var h := Run(c, ops).value;
    var padding := Padded(c, h.stream.buffer)[|h.stream.buffer|..];
    var added := Step(c, h, Add(padding)).value;
    assert added.stream.buffer == Padded(c, h.stream.buffer);
    CarefulRunsAlign(c, ops);
    AddKeepsAligned(c, h, padding);
    ExtractKeepsAligned(c, added);
    AddThenExtract(c, ops, padding);
    hide Run, Frames, FrameCount, Padded, Aligned;
  }

  lemma {:induction false} AddThenExtract(c: FrameConfig, ops: seq<Op>, samples: Audio)
    requires c.frameShift > 0 && Run(c, ops).Some?
    ensures Run(c, ops + [Add(samples), Extract]) == Step(c, Step(c, Run(c, ops).value, Add(samples)).value, Extract)
  {
    var once, all := ops + [Add(samples)], ops + [Add(samples), Extract];
    assert all[..|all| - 1] == once && once[..|ops|] == ops;
    hide Step;
    assert Run(c, once) == Step(c, Run(c, ops).value, Add(samples));
  }
}
