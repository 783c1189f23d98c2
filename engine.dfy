/** The sequencer engine: a control side that queues commands, and the
    per-block processing step that runs them, watches the transport and
    renders the current track's MIDI events frame by frame, folding frame
    numbers into the loop range. The audio server's transport state and
    frame, the block size and the port buffer's prior content are inputs of
    the processing step; the port buffer it leaves is its output. */
module Engine {
  import opened Ints
  import opened Wrappers
  import Tracks
  import MidiWire
  import Rings
  import Heaps

  type Frame = uint32
  type byte = MidiWire.byte
  type Track = Tracks.MidiTrack<MidiWire.Message>
  type TrackPtr = Heaps.Ptr<Track>

  /** The audio server's transport states. */
  datatype JackTransportState = Stopped | Rolling | Looping | Starting | NetStarting

  /** The deferred edits the control side queues: each replaces one field of
      the engine when the processing step runs it. */
  datatype Command =
    | SetLoopRange(range: Tracks.Range)
    | SwapTrack(track: TrackPtr)

  /** The part of the engine's state commands change. */
  datatype Settings = Settings(loopRange: Tracks.Range, track: TrackPtr)

  /** A command replaces the one setting it names and keeps the other. */
  function Apply(s: Settings, c: Command): (r: Settings)
    ensures c.SetLoopRange? ==> r.loopRange == c.range && r.track == s.track
    ensures c.SwapTrack? ==> r.track == c.track && r.loopRange == s.loopRange
  {
    match c
    case SetLoopRange(r) => s.(loopRange := r)
    case SwapTrack(t) => s.(track := t)
  }

  /** The settings after running `cs` in order, first to last. */
  function ApplyAll(s: Settings, cs: seq<Command>): (r: Settings)
    ensures r.loopRange == s.loopRange || SetLoopRange(r.loopRange) in cs
    ensures r.track == s.track || SwapTrack(r.track) in cs
  {
    if cs == [] then s else Apply(ApplyAll(s, cs[..|cs| - 1]), cs[|cs| - 1])
  }

  /** Running a queue is running its first part, then the rest. */
  lemma {:induction false} ApplyAllAppend(s: Settings, a: seq<Command>, b: seq<Command>)
    ensures ApplyAll(s, a + b) == ApplyAll(ApplyAll(s, a), b)
    decreases |b|
  {
    if b == [] {
      assert a + b == a;
    } else {
      assert (a + b)[..|a + b| - 1] == a + b[..|b| - 1];
      ApplyAllAppend(s, a, b[..|b| - 1]);
    }
  }

  /** The loop range the last SetLoopRange of `cs` carries, if any. */
  function LastLoopRange(current: Tracks.Range, cs: seq<Command>): Tracks.Range
  {
    if cs == [] then current
    else match cs[|cs| - 1]
      case SetLoopRange(r) => r
      case SwapTrack(_) => LastLoopRange(current, cs[..|cs| - 1])
  }

  /** Commands run in queue order: of several loop range changes the one
      queued last is in force afterwards, and track swaps do not touch it. */
  lemma {:induction false} LastQueuedLoopRangeWins(s: Settings, cs: seq<Command>)
    ensures ApplyAll(s, cs).loopRange == LastLoopRange(s.loopRange, cs)
    decreases |cs|
  {
    if cs != [] {
      LastQueuedLoopRangeWins(s, cs[..|cs| - 1]);
    }
  }

  // ---------------------------------------------------------------------
  // Loop arithmetic.

  /** Folding `frame` into the loop range divides by the loop's length
      unless the frame is left as it is; a zero length there has no defined
      result. */
  predicate Folds(range: Tracks.Range, frame: Frame)
  {
    !range.enabled || frame < range.end || range.start != range.end
  }

  /** A loop range that is off, or that starts before it ends. */
  predicate SaneLoop(range: Tracks.Range)
  {
    !range.enabled || range.start < range.end
  }

  /** `effective_position`: the 32-bit frame `transportFrame + processFrame`,
      folded into `[start, end)` when the loop is on and the frame has
      reached its end. The fold is computed in 64 bits, the width of the
      range's ticks, and truncated to 32 bits on return. */
  function EffectivePosition(range: Tracks.Range, transportFrame: Frame, processFrame: Frame): (r: Frame)
    requires Folds(range, Add32(transportFrame, processFrame))
    ensures var frame := Add32(transportFrame, processFrame);
      !range.enabled || frame < range.end ==> r == frame
    ensures var frame := Add32(transportFrame, processFrame);
      range.enabled && range.start < range.end && range.end <= frame ==>
        r == range.start + (frame - range.start) % (range.end - range.start) &&
        range.start <= r < range.end
  {
    var frame := Add32(transportFrame, processFrame);
    if !range.enabled || frame < range.end then frame
    else LoopFold(range.start, range.end, frame)
  }

  /** The jump back into the loop of a frame at or past its end, in the
      source's unsigned arithmetic: `start + (frame - start) % (end - start)`
      with 64-bit subtraction and addition, truncated to 32 bits. */
  function LoopFold(start: Tracks.Tick, end: Tracks.Tick, frame: Frame): (r: Frame)
    requires start != end
    ensures start < end <= frame ==> r == start + (frame - start) % (end - start) && start <= r < end
  {
    assert (end - start) % TWO_64 != 0;
    FoldStaysBelow(start, end, frame);
    ((start + ((frame - start) % TWO_64) % ((end - start) % TWO_64)) % TWO_64) % TWO_32
  }

  /** Folding a frame at or past the end of a forward loop involves no
      wrap-around: differences and sums stay within 32 bits. */
  lemma FoldStaysBelow(start: Tracks.Tick, end: Tracks.Tick, frame: Frame)
    requires start != end
    ensures start < end <= frame ==>
      var r := start + (frame - start) % (end - start);
      start <= r < end &&
      ((start + ((frame - start) % TWO_64) % ((end - start) % TWO_64)) % TWO_64) % TWO_32 == r
  {
    if start < end <= frame {
      ModSmall(frame - start, TWO_64);
      ModSmall(end - start, TWO_64);
      var r := start + (frame - start) % (end - start);
      ModSmall(r, TWO_64);
      ModSmall(r, TWO_32);
    }
  }

  /** With a sane loop every frame folds into a position that folds to itself. */
  lemma EffectivePositionIdempotent(range: Tracks.Range, transportFrame: Frame, processFrame: Frame)
    requires SaneLoop(range)
    ensures Folds(range, Add32(transportFrame, processFrame))
    ensures var r := EffectivePosition(range, transportFrame, processFrame);
      Folds(range, Add32(r, 0)) && EffectivePosition(range, r, 0) == r
  {
  }

  // ---------------------------------------------------------------------
  // The frame walk of one rolling block.

  /** What the walk over a block's frames depends on. */
  datatype Block = Block(range: Tracks.Range, track: Track, notesOffOnLoop: bool,
                         transportFrame: Frame, nframes: Frame)

  /** Every frame the block looks at folds: frame 0, where the iterator is
      first placed, and each frame below `nframes`. */
  predicate BlockFolds(b: Block)
  {
    Folds(b.range, b.transportFrame) &&
    forall f: nat :: f < b.nframes ==> Folds(b.range, Add32(b.transportFrame, f))
  }

  function Position(b: Block, f: nat): Frame
    requires BlockFolds(b) && (f == 0 || f < b.nframes)
  {
    assert Add32(b.transportFrame, 0) == b.transportFrame;
    EffectivePosition(b.range, b.transportFrame, f)
  }

  /** The effective positions of the block's frames, in frame order. */
  function Positions(b: Block): (ps: seq<Frame>)
    requires BlockFolds(b)
    ensures |ps| == b.nframes as int
    ensures forall f :: 0 <= f < |ps| ==> ps[f] == Position(b, f)
  {
    seq(b.nframes as int, (f: int) requires 0 <= f < b.nframes as int && BlockFolds(b) => Position(b, f))
  }

  /** The frame loop's view of a block: the track's events with their ticks
      in iteration order, and the frames' positions in place of the
      transport frame. */
  datatype Frames = Frames(range: Tracks.Range, events: map<Tracks.Tick, MidiWire.Message>,
                           keys: seq<Tracks.Tick>, notesOffOnLoop: bool, positions: seq<Frame>)

  function FramesOf(b: Block): (w: Frames)
    requires BlockFolds(b)
    ensures IteratesInOrder(w.keys, w.events)
  {
    Frames(b.range, b.track.events, Tracks.SortedKeys(b.track.events), b.notesOffOnLoop, Positions(b))
  }

  /** The view's positions are the folded frames of a block that starts at
      transport frame `transportFrame`. */
  predicate FoldsAt(w: Frames, transportFrame: Frame)
  {
    forall f: nat :: f < |w.positions| ==>
      f < TWO_32 && Folds(w.range, Add32(transportFrame, f)) &&
      w.positions[f] == EffectivePosition(w.range, transportFrame, f)
  }

  lemma FramesOfFold(b: Block)
    requires BlockFolds(b)
    ensures FoldsAt(FramesOf(b), b.transportFrame)
    ensures KeysIn(FramesOf(b).keys, FramesOf(b).events)
  {
    var w := FramesOf(b);
    forall f: nat | f < |w.positions|
      ensures f < TWO_32 && Folds(w.range, Add32(b.transportFrame, f)) &&
              w.positions[f] == EffectivePosition(w.range, b.transportFrame, f)
    {
      assert w.positions[f] == Position(b, f);
    }
  }

  /** Every element of `keys` is a key of `events`. */
  predicate KeysIn(keys: seq<Tracks.Tick>, events: map<Tracks.Tick, MidiWire.Message>)
  {
    forall i :: 0 <= i < |keys| ==> keys[i] in events
  }

  /** `keys` lists the keys of `events` in increasing order: the order the
      map iterates them in. */
  predicate IteratesInOrder(keys: seq<Tracks.Tick>, events: map<Tracks.Tick, MidiWire.Message>)
  {
    Tracks.Increasing(keys) && KeysIn(keys, events) && forall k :: k in events ==> k in keys
  }

  /** The port buffer `out` holds the renderings of `ms`, in order. */
  predicate RendersAs(out: seq<seq<byte>>, ms: seq<MidiWire.Message>)
  {
    |out| == |ms| && forall i :: 0 <= i < |ms| ==> out[i] == MidiWire.Bytes(ms[i])
  }

  /** One more rendered message keeps `RendersAs`; a helper that keeps this
      step out of the loop of RenderEventsAt. */
  lemma RendersAsAppend(out: seq<seq<byte>>, ms: seq<MidiWire.Message>, bytes: seq<byte>, m: MidiWire.Message)
    requires RendersAs(out, ms) && bytes == MidiWire.Bytes(m)
    ensures RendersAs(out + [bytes], ms + [m])
  {
  }

  /** The map iterator at `it`, rendering and stepping past every event keyed
      `position`: where the iterator ends up, and what was rendered. */
  function EmitAt(keys: seq<Tracks.Tick>, events: map<Tracks.Tick, MidiWire.Message>,
                  it: nat, position: Frame): (r: (nat, seq<MidiWire.Message>))
    requires KeysIn(keys, events)
    ensures it <= r.0 && |r.1| == r.0 - it
    ensures r.0 == it || r.0 <= |keys|
    ensures r.0 < |keys| ==> keys[r.0] != position
    decreases |keys| - it
  {
    if it < |keys| && keys[it] == position then
      var rest := EmitAt(keys, events, it + 1, position);
      (rest.0, [events[keys[it]]] + rest.1)
    else
      (it, [])
  }

  /** The iterator, the last effective position and the messages rendered. */
  datatype WalkState = WalkState(it: nat, lastPosition: Frame, out: seq<MidiWire.Message>)

  /** The iterator a frame step emits from: the one it was given, or the
      lower bound of the loop start after a jump back to it. */
  function SeekFor(w: Frames, f: nat, st: WalkState): (it: nat)
    requires f < |w.positions|
    ensures it != st.it ==> w.range.enabled && f != 0 && w.positions[f] == w.range.start
  {
    var position := w.positions[f];
    if w.range.enabled && position == w.range.start && f != 0
    then Tracks.LowerBound(w.keys, position) else st.it
  }

  /** One turn of the frame loop, at frame `f`. */
  function FrameStep(w: Frames, f: nat, st: WalkState): (r: WalkState)
    requires KeysIn(w.keys, w.events) && f < |w.positions|
    ensures r.lastPosition == w.positions[f] && st.out <= r.out
    ensures w.notesOffOnLoop && w.positions[f] != Add32(st.lastPosition, 1) ==>
      |r.out| > |st.out| && r.out[|st.out|] == MidiWire.AllNotesOff(0)
  {
    var position := w.positions[f];
    var notesOff := if w.notesOffOnLoop && position != Add32(st.lastPosition, 1)
                    then [MidiWire.AllNotesOff(0)] else [];
    var emitted := EmitAt(w.keys, w.events, SeekFor(w, f, st), position);
    WalkState(emitted.0, position, st.out + notesOff + emitted.1)
  }

  /** The frame loop from frame `f` to the end of the block. */
  function Walk(w: Frames, f: nat, st: WalkState): (r: WalkState)
    requires KeysIn(w.keys, w.events)
    ensures st.out <= r.out
    ensures f < |w.positions| ==> r.lastPosition == w.positions[|w.positions| - 1]
    ensures f >= |w.positions| ==> r == st
    decreases |w.positions| - f
  {
    if f >= |w.positions| then st else Walk(w, f + 1, FrameStep(w, f, st))
  }

  /** The walk of a whole block: the iterator starts at the lower bound of
      the position of frame 0. */
  function BlockWalk(b: Block, lastPosition: Frame): WalkState
    requires BlockFolds(b)
  {
    var w := FramesOf(b);
    Walk(w, 0, WalkState(Tracks.LowerBound(w.keys, Position(b, 0)), lastPosition, []))
  }

  /** For every loop range, the walk of a block leaves the position of its
      last frame, or the one before the block when there are no frames; an
      empty block renders nothing. */
  lemma BlockWalkEnds(b: Block, lastPosition: Frame)
    requires BlockFolds(b)
    ensures b.nframes > 0 ==> BlockWalk(b, lastPosition).lastPosition == Position(b, b.nframes - 1)
    ensures b.nframes == 0 ==> BlockWalk(b, lastPosition).lastPosition == lastPosition &&
                               BlockWalk(b, lastPosition).out == []
  {
    var w := FramesOf(b);
    var st := WalkState(Tracks.LowerBound(w.keys, Position(b, 0)), lastPosition, []);
    assert BlockWalk(b, lastPosition) == Walk(w, 0, st);
    assert |w.positions| == b.nframes as int;
    if b.nframes > 0 {
      assert w.positions[b.nframes - 1] == Position(b, b.nframes - 1);
    }
  }

  /** What a frame at `position` should render: All Notes Off where the
      position does not follow on from the previous one, then the event
      keyed at the position, if there is one. */
  function FrameOutput(w: Frames, position: Frame, previous: Frame): seq<MidiWire.Message>
  {
    (if w.notesOffOnLoop && position != Add32(previous, 1) then [MidiWire.AllNotesOff(0)] else []) +
    (if position in w.events then [w.events[position]] else [])
  }

  /** The intended rendering of frames `f` onwards. */
  function IdealFrom(w: Frames, f: nat, previous: Frame): seq<MidiWire.Message>
    decreases |w.positions| - f
  {
    if f >= |w.positions| then []
    else FrameOutput(w, w.positions[f], previous) + IdealFrom(w, f + 1, w.positions[f])
  }

  /** `lower_bound` is the only index that splits the keys at `x`. */
  lemma LowerBoundUnique(ks: seq<Tracks.Tick>, x: int, i: nat)
    requires Tracks.Increasing(ks) && i <= |ks|
    requires forall j :: 0 <= j < i ==> ks[j] < x
    requires forall j :: i <= j < |ks| ==> x <= ks[j]
    ensures Tracks.LowerBound(ks, x) == i
  {
    var l := Tracks.LowerBound(ks, x);
    Tracks.LowerBoundSplits(ks, x);
    if l < |ks| { assert x <= ks[l]; }
    if i < |ks| { assert x <= ks[i]; }
  }

  /** From the lower bound of `x`, stepping past the key equal to `x`, if
      there is one, reaches the lower bound of `x + 1`. */
  lemma StepPastKey(ks: seq<Tracks.Tick>, x: int)
    requires Tracks.Increasing(ks)
    ensures var i := Tracks.LowerBound(ks, x);
      if i < |ks| && ks[i] == x
      then Tracks.LowerBound(ks, x + 1) == i + 1 && !(i + 1 < |ks| && ks[i + 1] == x)
      else Tracks.LowerBound(ks, x + 1) == i
  {
    var i := Tracks.LowerBound(ks, x);
    Tracks.LowerBoundSplits(ks, x);
    if i < |ks| && ks[i] == x {
      if i + 1 < |ks| { assert ks[i] < ks[i + 1]; }
      LowerBoundUnique(ks, x + 1, i + 1);
    } else {
      LowerBoundUnique(ks, x + 1, i);
    }
  }

  /** Placed at the lower bound of `position`, the iterator renders the event
      keyed there, if any, and stops at the lower bound of the next position. */
  predicate EmitsAt(keys: seq<Tracks.Tick>, events: map<Tracks.Tick, MidiWire.Message>, position: Frame)
    requires KeysIn(keys, events)
  {
    EmitAt(keys, events, Tracks.LowerBound(keys, position), position) ==
    (Tracks.LowerBound(keys, position as int + 1), if position in events then [events[position]] else [])
  }

  /** On keys in iteration order every position is rendered that way. */
  lemma EmitAtLowerBound(keys: seq<Tracks.Tick>, events: map<Tracks.Tick, MidiWire.Message>, position: Frame)
    requires IteratesInOrder(keys, events)
    ensures EmitsAt(keys, events, position)
  {
    var i := Tracks.LowerBound(keys, position);
    StepPastKey(keys, position);
    if i < |keys| && keys[i] == position {
      assert keys[i] in events;
      var rest := EmitAt(keys, events, i + 1, position);
      assert rest == (i + 1, []);
      var e := events[keys[i]];
      assert EmitAt(keys, events, i, position) == (rest.0, [e] + rest.1);
      assert [e] + rest.1 == [e];
    } else {
      Tracks.LowerBoundFinds(keys, position);
      assert position !in keys;
      assert position !in events;
      assert EmitAt(keys, events, i, position) == (i, []);
    }
  }

  /** At every position, the iterator placed at the lower bound renders the
      event keyed there, if any, and stops at the lower bound of the next
      position. */
  predicate EmitsByKey(keys: seq<Tracks.Tick>, events: map<Tracks.Tick, MidiWire.Message>)
    requires KeysIn(keys, events)
  {
    forall position: Frame :: EmitsAt(keys, events, position)
  }

  lemma InOrderEmitsByKey(keys: seq<Tracks.Tick>, events: map<Tracks.Tick, MidiWire.Message>)
    requires IteratesInOrder(keys, events)
    ensures EmitsByKey(keys, events)
  {
    forall position: Frame
      ensures EmitsAt(keys, events, position)
    {
      EmitAtLowerBound(keys, events, position);
    }
  }

  /** Multiplying by a natural keeps order; a helper that keeps the
      non-linear step out of ModSucc. */
  lemma MulMonotonic(x: int, y: int, l: nat)
    requires x <= y
    ensures x * l <= y * l
  {
    assert y * l - x * l == (y - x) * l;
  }

  /** A number below the modulus is its own remainder; a helper that keeps
      the 64-bit and 32-bit truncations of LoopFold small. */
  lemma ModSmall(a: nat, l: nat)
    requires a < l
    ensures a % l == a
  {
  }

  /** Stepping a number by one steps its remainder by one, or wraps it to 0. */
  lemma ModSucc(a: nat, l: nat)
    requires l > 0
    ensures (a + 1) % l == (if a % l + 1 < l then a % l + 1 else 0)
  {
    var q, r := a / l, a % l;
    var q', r' := (a + 1) / l, (a + 1) % l;
    assert a == q * l + r;
    assert a + 1 == q' * l + r';
    if q' < q {
      MulMonotonic(q', q - 1, l);
    } else if q' > q + 1 {
      MulMonotonic(q + 2, q', l);
    } else if q' == q + 1 {
      assert q' * l == q * l + l;
    }
  }

  /** Without 32-bit wrap-around inside the block, each frame's position
      follows on from the previous one, or it is the start the loop has just
      jumped back to. */
  lemma NextPosition(b: Block, f: nat)
    requires SaneLoop(b.range) && b.transportFrame + b.nframes <= TWO_32
    requires 0 < f < b.nframes
    ensures BlockFolds(b)
    ensures Position(b, f) == Position(b, f - 1) as int + 1 ||
            (b.range.enabled && Position(b, f) == b.range.start)
  {
    assert BlockFolds(b);
    EffectiveStep(b.range, b.transportFrame, f);
  }

  /** Without 32-bit wrap-around, `effective_position` of the next process
      frame is one more than the previous one, or the loop start. */
  lemma EffectiveStep(range: Tracks.Range, transportFrame: Frame, f: Frame)
    requires SaneLoop(range) && 0 < f && transportFrame + f < TWO_32
    ensures Folds(range, Add32(transportFrame, f)) && Folds(range, Add32(transportFrame, f - 1))
    ensures EffectivePosition(range, transportFrame, f) == EffectivePosition(range, transportFrame, f - 1) as int + 1 ||
            (range.enabled && EffectivePosition(range, transportFrame, f) == range.start)
  {
    var frame := transportFrame + f;
    assert Add32(transportFrame, f) == frame;
    assert Add32(transportFrame, f - 1) == frame - 1;
    var start, end := range.start, range.end;
    if range.enabled && end <= frame {
      if end == frame {
        assert (frame - start) % (end - start) == 0;
      } else {
        FoldSucc(start, end, frame);
      }
    }
  }

  /** One frame further past the end of the loop, the fold moves on by one
      or wraps to the start. */
  lemma FoldSucc(start: int, end: int, frame: int)
    requires start < end < frame
    ensures start + (frame - start) % (end - start) == start + (frame - 1 - start) % (end - start) + 1 ||
            start + (frame - start) % (end - start) == start
  {
    ModSucc(frame - 1 - start, end - start);
  }

  /** The position of frame `f` follows on from the one before, or is the
      loop start. */
  predicate StepsAt(w: Frames, f: nat)
    requires 0 < f < |w.positions|
  {
    w.positions[f] as int == w.positions[f - 1] as int + 1 ||
    (w.range.enabled && w.positions[f] == w.range.start)
  }

  predicate Consecutive(w: Frames)
  {
    forall f: nat :: 0 < f < |w.positions| ==> StepsAt(w, f)
  }

  lemma BlockConsecutive(b: Block)
    requires SaneLoop(b.range) && b.transportFrame + b.nframes <= TWO_32
    ensures BlockFolds(b) && Consecutive(FramesOf(b))
  {
    assert BlockFolds(b);
    var ps := Positions(b);
    forall f: nat | 0 < f < |ps|
      ensures StepsAt(FramesOf(b), f)
    {
      NextPosition(b, f);
    }
  }

  /** Where the iterator must stand before frame `f` for the walk to find
      that frame's events: at the lower bound of the first position, or of
      the position after the previous frame's. */
  predicate Positioned(w: Frames, f: nat, st: WalkState)
  {
    f < |w.positions| ==>
      if f == 0 then st.it == Tracks.LowerBound(w.keys, w.positions[0])
      else st.it == Tracks.LowerBound(w.keys, w.positions[f - 1] as int + 1) &&
           st.lastPosition == w.positions[f - 1]
  }

  /** Before a positioned frame, the seek leaves the iterator at the lower
      bound of the frame's position. */
  lemma SeekFinds(w: Frames, f: nat, st: WalkState)
    requires Consecutive(w) && f < |w.positions| && Positioned(w, f, st)
    ensures SeekFor(w, f, st) == Tracks.LowerBound(w.keys, w.positions[f])
  {
    if f != 0 {
      assert StepsAt(w, f);
    }
  }

  /** A positioned frame step renders the frame's intended output and leaves
      the iterator positioned for the next frame. */
  lemma FrameStepRenders(w: Frames, f: nat, st: WalkState)
    requires KeysIn(w.keys, w.events) && EmitsByKey(w.keys, w.events)
    requires Consecutive(w) && f < |w.positions| && Positioned(w, f, st)
    ensures Positioned(w, f + 1, FrameStep(w, f, st))
    ensures FrameStep(w, f, st).out == st.out + FrameOutput(w, w.positions[f], st.lastPosition)
    ensures FrameStep(w, f, st).lastPosition == w.positions[f]
  {
    var position := w.positions[f];
    SeekFinds(w, f, st);
    var emitted := EmitAt(w.keys, w.events, Tracks.LowerBound(w.keys, position), position);
    assert EmitsAt(w.keys, w.events, position);
    assert emitted == (Tracks.LowerBound(w.keys, position as int + 1),
                       if position in w.events then [w.events[position]] else []);
    var notesOff := if w.notesOffOnLoop && position != Add32(st.lastPosition, 1)
                    then [MidiWire.AllNotesOff(0)] else [];
    assert FrameStep(w, f, st) == WalkState(emitted.0, position, st.out + notesOff + emitted.1);
    assert st.out + notesOff + emitted.1 == st.out + FrameOutput(w, position, st.lastPosition);
  }

  /** Sequence concatenation is associative; a helper that keeps this step
      out of the contexts of WalkFrom and RenderFrame. */
  lemma AppendAssoc<T>(a: seq<T>, b: seq<T>, c: seq<T>)
    ensures a + b + c == a + (b + c)
  {
  }

  /** The walk from a positioned frame `f` renders what `IdealFrom` says. */
  lemma {:induction false} WalkFrom(w: Frames, f: nat, st: WalkState)
    requires KeysIn(w.keys, w.events) && EmitsByKey(w.keys, w.events)
    requires Consecutive(w) && Positioned(w, f, st)
    ensures Walk(w, f, st).out == st.out + IdealFrom(w, f, st.lastPosition)
    ensures f < |w.positions| ==> Walk(w, f, st).lastPosition == w.positions[|w.positions| - 1]
    ensures f >= |w.positions| ==> Walk(w, f, st).lastPosition == st.lastPosition
    decreases |w.positions| - f
  {
    if f < |w.positions| {
      var position := w.positions[f];
      var next := FrameStep(w, f, st);
      FrameStepRenders(w, f, st);
      WalkFrom(w, f + 1, next);
      AppendAssoc(st.out, FrameOutput(w, position, st.lastPosition), IdealFrom(w, f + 1, position));
    }
  }

  /** The frame loop renders, at every frame of the block, All Notes Off
      where the position is not the previous one plus one (with notes-off on
      loop), then the event keyed at that frame's effective position; it
      leaves the last frame's position behind. This holds while the loop
      range is off or starts before it ends, and the block's frames do not
      wrap past 2^32. */
  lemma BlockRendersFrameEvents(b: Block, lastPosition: Frame)
    requires SaneLoop(b.range) && b.transportFrame + b.nframes <= TWO_32
    ensures BlockFolds(b)
    ensures BlockWalk(b, lastPosition).out == IdealFrom(FramesOf(b), 0, lastPosition)
    ensures b.nframes > 0 ==> BlockWalk(b, lastPosition).lastPosition == Position(b, b.nframes - 1)
    ensures b.nframes == 0 ==> BlockWalk(b, lastPosition).lastPosition == lastPosition
  {
    BlockConsecutive(b);
    var w := FramesOf(b);
    var st := WalkState(Tracks.LowerBound(w.keys, Position(b, 0)), lastPosition, []);
    assert Positioned(w, 0, st);
    InOrderEmitsByKey(w.keys, w.events);
    WalkFrom(w, 0, st);
  }

  // ---------------------------------------------------------------------
  // The engine object.

  /** `render_event`: reserves `size()` bytes at offset 0 of the port buffer
      and renders the event into them. */
  method RenderEvent(e: MidiWire.Message) returns (bytes: seq<byte>)
    ensures bytes == MidiWire.Bytes(e) && |bytes| == 3
  {
    var buffer := new byte[MidiWire.Size(e)];
    MidiWire.Render(e, buffer);
    bytes := buffer[..];
  }

  class Engine {
    var heap: Heaps.Heap<Track>
    var commands: Rings.RingBuffer<Command>
    const clientName: string
    var track: TrackPtr
    var loopRange: Tracks.Range
    var lastTransportState: JackTransportState
    var sendAllNotesOffOnLoop: bool
    var sendAllNotesOffOnStop: bool
    var lastEffectivePosition: Frame

    ghost predicate Valid()
      reads this, commands, commands.Repr
    {
      commands.Valid() && this !in commands.Repr && heap !in commands.Repr
    }

    function CurrentSettings(): Settings
      reads this
    {
      Settings(loopRange, track)
    }

    /** The settings in force once every queued command has run. */
    ghost function PendingSettings(): Settings
      reads this, commands
    {
      ApplyAll(CurrentSettings(), commands.Contents)
    }

    /** The server's client name, the requested command queue size and the
        queue's resulting capacity, the transport state the server reports,
        and the address the empty initial track is allocated at. The name and
        the size default to "teq" and 1024. */
    constructor (clientName: string := "teq", commandBufferSize: uint32 := 1024, commandCapacity: nat,
                 transportState: JackTransportState, trackAddress: nat)
      ensures Valid() && fresh(commands.Repr) && fresh(heap)
      ensures this.clientName == clientName
      ensures commands.Contents == [] && commands.capacity == commandCapacity
      ensures commands.size == commandBufferSize
      ensures track == Heaps.Ptr(trackAddress, Tracks.MidiTrack())
      ensures heap.entries == [track]
      ensures loopRange == Tracks.Range()
      ensures lastTransportState == transportState
      ensures sendAllNotesOffOnLoop && sendAllNotesOffOnStop
      ensures lastEffectivePosition == 0
    {
      this.clientName := clientName;
      commands := new Rings.RingBuffer(commandBufferSize, commandCapacity);
      var h := new Heaps.Heap();
      heap := h;
      var t := h.AddNew(Tracks.MidiTrack(), trackAddress);
      track := t;
      loopRange := Tracks.Range();
      sendAllNotesOffOnLoop := true;
      sendAllNotesOffOnStop := true;
      lastEffectivePosition := 0;
      lastTransportState := transportState;
    }

    /** `write_command`: queues `c`, or fails without queueing anything when
        the queue has no room. */
    method WriteCommand(c: Command) returns (r: Outcome<string>)
      requires Valid()
      modifies commands.Repr
      ensures Valid() && commands.Repr == old(commands.Repr)
      ensures r.Fail? <==> |old(commands.Contents)| >= commands.capacity
      ensures r.Fail? ==> r.error == "Failed to write command"
      ensures commands.Contents == if r.Fail? then old(commands.Contents) else old(commands.Contents) + [c]
    {
      if !commands.CanWrite() {
        return Fail("Failed to write command");
      }
      commands.Write(c);
      r := Pass;
    }

    /** `set_track`: registers a copy of `t` with the heap and queues the
        swap to it. The heap keeps the copy even when the queue is full. */
    method SetTrack(t: Track, address: nat) returns (r: Outcome<string>)
      requires Valid()
      requires forall i :: 0 <= i < |heap.entries| ==> heap.entries[i].address != address
      modifies commands.Repr, heap
      ensures Valid() && commands.Repr == old(commands.Repr)
      ensures heap.entries == old(heap.entries) + [Heaps.Ptr(address, t)]
      ensures r.Fail? <==> |old(commands.Contents)| >= commands.capacity
      ensures commands.Contents == if r.Fail? then old(commands.Contents)
                                   else old(commands.Contents) + [SwapTrack(Heaps.Ptr(address, t))]
    {
      var newTrack := heap.AddNew(t, address);
      r := WriteCommand(SwapTrack(newTrack));
    }

    /** `set_loop_range`: queues the replacement of the loop range. */
    method SetLoopRange(range: Tracks.Range) returns (r: Outcome<string>)
      requires Valid()
      modifies commands.Repr
      ensures Valid() && commands.Repr == old(commands.Repr)
      ensures r.Fail? <==> |old(commands.Contents)| >= commands.capacity
      ensures commands.Contents == if r.Fail? then old(commands.Contents)
                                   else old(commands.Contents) + [Command.SetLoopRange(range)]
    {
      r := WriteCommand(Command.SetLoopRange(range));
    }

    method Execute(c: Command)
      modifies this`loopRange, this`track
      ensures CurrentSettings() == Apply(old(CurrentSettings()), c)
    {
      match c
      case SetLoopRange(range) =>
        loopRange := range;
      case SwapTrack(t) =>
        track := t;
    }

    /** The drain at the head of `process`: runs every queued command,
        oldest first, until the queue is empty. */
    method RunCommands()
      requires Valid()
      modifies this`loopRange, this`track, commands.Repr
      ensures Valid() && commands.Repr == old(commands.Repr) && commands.Contents == []
      ensures CurrentSettings() == ApplyAll(old(CurrentSettings()), old(commands.Contents))
    {
      ghost var queued := commands.Contents;
      ghost var before := CurrentSettings();
      ghost var done := 0;
      while commands.CanRead()
        invariant Valid() && commands.Repr == old(commands.Repr)
        invariant 0 <= done <= |queued|
        invariant commands.Contents == queued[done..]
        invariant CurrentSettings() == ApplyAll(before, queued[..done])
        decreases |commands.Contents|
      {
        var c := commands.Snoop();
        Execute(c);
        commands.ReadAdvance();
        assert queued[..done + 1] == queued[..done] + [c];
        done := done + 1;
      }
      assert queued[..done] == queued;
    }

    /** One turn of the frame loop of `process`, at frame `frame` of the
        block the frame view `w` describes: the All Notes Off on a jump, the
        seek back to the loop start, and the events at the frame's position. */
    method RenderFrame(ghost w: Frames, keys: seq<Tracks.Tick>, transportFrame: Frame, frame: Frame,
                       it: nat, ghost rendered: seq<MidiWire.Message>)
      returns (it': nat, out: seq<seq<byte>>, ghost ms: seq<MidiWire.Message>)
      requires keys == w.keys && KeysIn(keys, w.events) && track.pointee.events == w.events
      requires w.range == loopRange && w.notesOffOnLoop == sendAllNotesOffOnLoop
      requires frame < |w.positions| && FoldsAt(w, transportFrame)
      modifies this`lastEffectivePosition
      ensures FrameStep(w, frame, WalkState(it, old(lastEffectivePosition), rendered)) ==
              WalkState(it', lastEffectivePosition, rendered + ms)
      ensures RendersAs(out, ms)
    {
      ghost var st := WalkState(it, lastEffectivePosition, rendered);
      var position := EffectivePosition(loopRange, transportFrame, frame);
      out, ms := [], [];
      if sendAllNotesOffOnLoop && position != Add32(lastEffectivePosition, 1) {
        var off := MidiWire.AllNotesOff(0);
        var e := RenderEvent(off);
        out, ms := [e], [off];
      }
      ghost var notesOff := ms;
      lastEffectivePosition := position;
      it' := it;
      if loopRange.enabled && position == loopRange.start && frame != 0 {
        it' := Tracks.LowerBound(keys, position);
      }
      assert it' == SeekFor(w, frame, st);
      var events;
      ghost var messages;
      it', events, messages := RenderEventsAt(track.pointee.events, keys, it', position);
      RendersAsConcat(out, ms, events, messages);
      out, ms := out + events, notesOff + messages;
      AppendAssoc(rendered, notesOff, messages);
    }

    /** The frame loop of `process`, over the frames the view `w` lists,
        starting from iterator `it`. */
    method RenderFrames(ghost w: Frames, keys: seq<Tracks.Tick>, nframes: Frame, transportFrame: Frame, it: nat)
      returns (out: seq<seq<byte>>)
      requires keys == w.keys && KeysIn(keys, w.events) && track.pointee.events == w.events
      requires w.range == loopRange && w.notesOffOnLoop == sendAllNotesOffOnLoop
      requires |w.positions| == nframes as int && FoldsAt(w, transportFrame)
      modifies this`lastEffectivePosition
      ensures var walk := Walk(w, 0, WalkState(it, old(lastEffectivePosition), []));
        RendersAs(out, walk.out) && lastEffectivePosition == walk.lastPosition
    {
      out := [];
      ghost var rendered: seq<MidiWire.Message> := [];
      var current := it;
      var frame: Frame := 0;
      while frame < nframes
        invariant frame <= nframes
        invariant RendersAs(out, rendered)
        invariant Walk(w, frame as nat, WalkState(current, lastEffectivePosition, rendered)) ==
                  Walk(w, 0, WalkState(it, old(lastEffectivePosition), []))
        decreases nframes - frame
      {
        var events;
        ghost var messages;
        current, events, messages := RenderFrame(w, keys, transportFrame, frame, current, rendered);
        RendersAsConcat(out, rendered, events, messages);
        out, rendered := out + events, rendered + messages;
        frame := frame + 1;
      }
    }

    /** The rolling part of `process`: places the iterator at the lower bound
        of the first frame's position, then runs the frame loop. */
    method RenderBlock(nframes: Frame, transportFrame: Frame) returns (out: seq<seq<byte>>)
      requires BlockFolds(Block(loopRange, track.pointee, sendAllNotesOffOnLoop, transportFrame, nframes))
      modifies this`lastEffectivePosition
      ensures var b := Block(loopRange, track.pointee, sendAllNotesOffOnLoop, transportFrame, nframes);
        RendersAs(out, BlockWalk(b, old(lastEffectivePosition)).out) &&
        lastEffectivePosition == BlockWalk(b, old(lastEffectivePosition)).lastPosition
    {
      ghost var b := Block(loopRange, track.pointee, sendAllNotesOffOnLoop, transportFrame, nframes);
      ghost var w := FramesOf(b);
      var keys := Tracks.SortedKeys(track.pointee.events);
      var it := Tracks.LowerBound(keys, EffectivePosition(loopRange, transportFrame, 0));
      assert it == Tracks.LowerBound(w.keys, Position(b, 0));
      FramesOfFold(b);
      out := RenderFrames(w, keys, nframes, transportFrame, it);
    }

    /** What `process` does once the queue is drained: the stop check, the
        transport state it records, and on the rolling path the frame loop. */
    method RenderTransport(nframes: Frame, transportState: JackTransportState, transportFrame: Frame,
                           portBuffer: seq<seq<byte>>)
      returns (out: seq<seq<byte>>)
      requires transportState == Rolling ==>
        BlockFolds(Block(loopRange, track.pointee, sendAllNotesOffOnLoop, transportFrame, nframes))
      modifies this`lastTransportState, this`lastEffectivePosition
      ensures lastTransportState == transportState
      ensures transportState != Rolling ==>
        |portBuffer| <= |out| && out[..|portBuffer|] == portBuffer &&
        RendersAs(out[|portBuffer|..], StopOutput(sendAllNotesOffOnStop, old(lastTransportState))) &&
        lastEffectivePosition == old(lastEffectivePosition)
      ensures transportState == Rolling ==>
        var b := Block(loopRange, track.pointee, sendAllNotesOffOnLoop, transportFrame, nframes);
        RendersAs(out, BlockWalk(b, old(lastEffectivePosition)).out) &&
        lastEffectivePosition == BlockWalk(b, old(lastEffectivePosition)).lastPosition
    {
      if transportState != Rolling {
        out := RenderStop(sendAllNotesOffOnStop, lastTransportState, portBuffer);
        lastTransportState := transportState;
      } else {
        lastTransportState := transportState;
        out := RenderBlock(nframes, transportFrame);
      }
    }

    /** `process`: runs every queued command in order, sends All Notes Off on
        a stop when asked to, and while the transport rolls walks the
        block's frames. `portBuffer` is what the port buffer held before:
        it is cleared only on the rolling path. */
    method Process(nframes: Frame, transportState: JackTransportState, transportFrame: Frame,
                   portBuffer: seq<seq<byte>>)
      returns (status: int, out: seq<seq<byte>>)
      requires Valid()
      requires transportState == Rolling ==>
        BlockFolds(Block(PendingSettings().loopRange, PendingSettings().track.pointee,
                         sendAllNotesOffOnLoop, transportFrame, nframes))
      modifies this, commands.Repr
      ensures Valid() && commands.Repr == old(commands.Repr) && commands.Contents == []
      ensures CurrentSettings() == ApplyAll(old(CurrentSettings()), old(commands.Contents))
      ensures heap == old(heap) && commands == old(commands)
      ensures sendAllNotesOffOnLoop == old(sendAllNotesOffOnLoop)
      ensures sendAllNotesOffOnStop == old(sendAllNotesOffOnStop)
      ensures lastTransportState == transportState
      ensures status == 0
      ensures transportState != Rolling ==>
        |portBuffer| <= |out| && out[..|portBuffer|] == portBuffer &&
        RendersAs(out[|portBuffer|..], StopOutput(sendAllNotesOffOnStop, old(lastTransportState))) &&
        lastEffectivePosition == old(lastEffectivePosition)
      ensures transportState == Rolling ==>
        var b := Block(loopRange, track.pointee, sendAllNotesOffOnLoop, transportFrame, nframes);
        BlockFolds(b) &&
        RendersAs(out, BlockWalk(b, old(lastEffectivePosition)).out) &&
        lastEffectivePosition == BlockWalk(b, old(lastEffectivePosition)).lastPosition
    {
      RunCommands();
      status := 0;
      out := RenderTransport(nframes, transportState, transportFrame, portBuffer);
    }
  }

  /** The stop check of `process`: appends All Notes Off to the port buffer
      when asked to and the transport was rolling. */
  method RenderStop(notesOffOnStop: bool, lastState: JackTransportState, portBuffer: seq<seq<byte>>)
    returns (out: seq<seq<byte>>)
    ensures |portBuffer| <= |out| && out[..|portBuffer|] == portBuffer
    ensures RendersAs(out[|portBuffer|..], StopOutput(notesOffOnStop, lastState))
  {
    out := portBuffer;
    if notesOffOnStop && lastState == Rolling {
      var off := MidiWire.AllNotesOff(0);
      var e := RenderEvent(off);
      out := out + [e];
      assert out[|portBuffer|..] == [e];
    } else {
      assert out[|portBuffer|..] == [];
    }
  }

  /** The renderings of the events the iterator passes at `position`, from
      `start` on: the inner loop of `process`. */
  method RenderEventsAt(events: map<Tracks.Tick, MidiWire.Message>, keys: seq<Tracks.Tick>,
                        start: nat, position: Frame)
    returns (it: nat, out: seq<seq<byte>>, ms: seq<MidiWire.Message>)
    requires KeysIn(keys, events)
    ensures (it, ms) == EmitAt(keys, events, start, position) && RendersAs(out, ms)
  {
    it, out, ms := start, [], [];
    assert ms + EmitAt(keys, events, it, position).1 == EmitAt(keys, events, it, position).1;
    while it < |keys| && keys[it] == position
      invariant RendersAs(out, ms)
      invariant EmitAt(keys, events, start, position) ==
                (EmitAt(keys, events, it, position).0, ms + EmitAt(keys, events, it, position).1)
      decreases |keys| - it
    {
      var m := events[keys[it]];
      var e := RenderEvent(m);
      RendersAsAppend(out, ms, e, m);
      assert ms + EmitAt(keys, events, it, position).1 == (ms + [m]) + EmitAt(keys, events, it + 1, position).1;
      out, ms := out + [e], ms + [m];
      it := it + 1;
    }
    assert ms + [] == ms;
  }

  lemma RendersAsConcat(out: seq<seq<byte>>, ms: seq<MidiWire.Message>,
                        out': seq<seq<byte>>, ms': seq<MidiWire.Message>)
    requires RendersAs(out, ms) && RendersAs(out', ms')
    ensures RendersAs(out + out', ms + ms')
  {
    forall i | 0 <= i < |ms + ms'|
      ensures (out + out')[i] == MidiWire.Bytes((ms + ms')[i])
    {
      if i >= |ms| {
        assert (out + out')[i] == out'[i - |ms|];
      }
    }
  }

  /** What a stop renders: All Notes Off when asked to and the transport was rolling. */
  function StopOutput(notesOffOnStop: bool, lastState: JackTransportState): (ms: seq<MidiWire.Message>)
    ensures ms != [] <==> notesOffOnStop && lastState == Rolling
    ensures forall i :: 0 <= i < |ms| ==> ms[i] == MidiWire.AllNotesOff(0)
    ensures |ms| <= 1
  {
    if notesOffOnStop && lastState == Rolling then [MidiWire.AllNotesOff(0)] else []
  }

  /** The end-to-end scenario with a new engine's settings (the default loop
      range, notes off on loop, last position 0): a one-frame block at
      transport frame 0 over a track holding one Note On at tick 0. Position
      0 does not follow on from 0, so All Notes Off goes out first, then the
      Note On. */
  lemma {:induction false} NoteOnAtFrameZero(t: Track, note: MidiWire.Message)
    requires t.events == map[0 := note]
    ensures var b := Block(Tracks.Range(), t, true, 0, 1);
      BlockFolds(b) && BlockWalk(b, 0).out == [MidiWire.AllNotesOff(0), note] &&
      BlockWalk(b, 0).lastPosition == 0
  {
    var b := Block(Tracks.Range(), t, true, 0, 1);
    BlockRendersFrameEvents(b, 0);
    assert Position(b, 0) == 0;
    var w := FramesOf(b);
    assert w.positions == [0];
    assert IdealFrom(w, 1, 0) == [];
    assert FrameOutput(w, 0, 0) == [MidiWire.AllNotesOff(0), note];
  }
}
