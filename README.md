# teq sequencer core in Dafny

This project models the core of teq, a small JACK MIDI sequencer library,
and proves properties of the model. It covers these parts:

- **The engine** (`Engine`). The control side queues commands: swap the
  track, set the loop range. A bounded ring carries them to the processing
  step. For each block of audio frames, the processing step:
  - runs every queued command;
  - sends All Notes Off when the transport stops;
  - while the transport rolls, walks the block's frames. It folds each frame
    number into the loop range and renders the track's MIDI events keyed at
    that position. It re-seeks the event iterator whenever a frame after
    the first lands on the loop start, and sends All Notes Off where the positions are not continuous.

  The transport state and frame, the block length and the port buffer's
  prior content are inputs of `Engine.Engine.Process`. The port buffer it
  leaves is its output: one rendered byte sequence per MIDI message.
- **The MIDI wire format** (`MidiWire`): the three-byte Note On (9nH),
  Note Off (8nH) and Control Change (BnH) messages of the MIDI 1.0 Detailed
  Specification, All Notes Off (controller 123, value 0), and the `B8`
  binary-literal macro that spells their status bits.
- **The command ring** (`Rings`): a fixed-capacity circular FIFO class over
  an array of slots, with the source's transfer buffer.
- **The reclaimer** (`Heaps`): a list of shared pointers whose collection
  drops the entries referred to exactly once. Reference counts are explicit.
- **Song-level index checks** (`Songs`), with the error text they throw
  (`Decimal` writes integers the way a `std::stringstream` does).
- **The track** the engine plays (`Tracks`: MIDI track, tick range,
  ordered event map, `lower_bound`) and `Ints`, the source's fixed-width
  integers. The engine rests on these two.
- **The remaining value types** of the library, stated for their own
  defaults and constructors: `Events`, `Patterns` (used by `Songs`),
  `Ranges` (over `Transport`) and `Transport`. No engine code uses them.

Key correctness results:

- `Engine.Engine.Process` is proved to render what the frame walk
  `Engine.BlockWalk` renders, with the iterator as the source moves it.
- `Engine.BlockRendersFrameEvents` proves that walk equals the intended
  output `Engine.IdealFrom`. At every frame, that output is All Notes Off on
  a discontinuity, then the one event keyed at the frame's folded position.
  This needs two conditions:
  - the loop range is off or starts before it ends;
  - the block's frames do not wrap past 2^32.

## Model

| member | source | states |
|---|---|---|
| Ints.Add32 | teq/teq.h:141 | `jack_nframes_t` addition is the sum modulo 2^32: the plain sum below 2^32, otherwise 2^32 less |
| Ints.Int32Cast | teq/song.h:64 | `(int)size()` keeps sizes below 2^31 and agrees with the size modulo 2^32 |
| Decimal.NatText | teq/exception.h:4-9 | the streamed digits of a natural are decimal digits without a leading zero |
| Decimal.IntText | teq/song.h:66 | the streamed text of an int starts with a minus sign exactly when the int is negative |
| Decimal.NatTextRoundTrip | teq/exception.h:4-9 | reading the streamed digits back gives the number |
| Decimal.IntTextRoundTrip | teq/song.h:66 | the streamed text of an int determines the int |
| Transport.TransportStates | teq/transport.h:8 | the transport state is STOPPED or PLAYING, and the two differ |
| Transport.TransportPositionDefaults | teq/transport.h:16-25 | a default position is pattern 0, tick 0; the constructor stores its arguments |
| Transport.NegativeTickRepresentable | teq/transport.h:6 | a tick is a signed int, so a negative tick is a valid position value |
| Ranges.LoopRange.AsRange | teq/range.h:26-37 | a loop range's plain range has the loop range's start and end |
| Ranges.RangeDefaults | teq/range.h:14-23 | a default range is origin to origin; the constructor stores start and end |
| Ranges.LoopRangeDefaults | teq/range.h:30-40 | a default loop range is off and spans the default range; the constructor stores its arguments |
| Events.ControlEventDefaults | teq/event.h:17-22 | a default control event is NONE with value 0; the constructor stores its arguments |
| Events.CvEvent.constructor | teq/event.h:43-49 | the constructor stores type and both values |
| Events.CvEvent.SetValue | teq/event.h:37-41 | both values become the argument and the type is unchanged |
| Events.CvEventDefaults | teq/event.h:37-49 | a default CV event is NONE, and set_value makes both values the argument |
| Events.MidiEventDefaults | teq/event.h:65-71 | a default MIDI event is NONE with values 0; omitted values are 0; the constructor stores its arguments |
| Patterns.PatternDefaults | teq/pattern.h:12-27 | a default pattern has length 128, a new pattern has no sequences, and length() is the stored length |
| Songs.SongDefaults | teq/song.h:55-60 | a new song has no patterns, no tracks and no arrangement |
| Songs.Song.CheckTrackIndex | teq/song.h:62-68 | for fewer than 2^31 tracks, fails exactly when the index is negative or not below the track count; any failure reports the index and the count |
| Songs.Song.CheckPatternIndex | teq/song.h:70-76 | for fewer than 2^31 patterns, fails exactly when the index is negative or not below the pattern count; any failure reports the index and the count |
| Songs.Song.CheckTickIndex | teq/song.h:78-86 | a failed pattern-index check is its result; otherwise the tick check fails exactly when the tick is negative or not below that pattern's length |
| Songs.Message | teq/song.h:62-68 | the error text starts with the index label and is longer than the two labels together |
| Songs.MessageNamesIndexAndBound | teq/song.h:62-86 | the error text is label, index, bound label, bound, and index and bound can be read back from it |
| Songs.CheckedTickIsInPattern | teq/song.h:78-86 | an admitted tick addresses a tick inside an existing pattern |
| Tracks.SortedKeys | teq/track.h:38 | the ordered map iterates its keys in strictly increasing order, each key exactly once |
| Tracks.MinTick | teq/track.h:38 | returns the least key of a non-empty key set, the one SortedKeys puts first |
| Tracks.LowerBound | teq/teq.h:202 | `lower_bound` is an iterator position, and a key at that position is not below the sought value |
| Tracks.LowerBoundSplits | teq/teq.h:202 | on sorted keys every key before `lower_bound` is below the value and every key from it on is not |
| Tracks.LowerBoundFinds | teq/teq.h:228 | a key is present exactly when `lower_bound` points at it |
| Tracks.RangeDefaults | teq/track.h:29-35 | a default track range is 0 to 0, disabled; the constructor stores its arguments |
| MidiWire.FlagsBound | teq/midi_event.h:19-26 | `B8__` of n hexadecimal digits sets at most n bits, so the eight flags sum to at most 255 and storing the or-ed status in a byte keeps them |
| MidiWire.B8DecodesBinary | teq/midi_event.h:16-31 | `B8` of every byte written in eight binary digits is that byte |
| MidiWire.NoteOnBitsValue | teq/midi_event.h:97 | `B8(10010000)` is 0x90 |
| MidiWire.NoteOffBitsValue | teq/midi_event.h:126 | `B8(10000000)` is 0x80 |
| MidiWire.ControlChangeBitsValue | teq/midi_event.h:155 | `B8(10110000)` is 0xB0 |
| MidiWire.B8SpellsStatusBits | teq/midi_event.h:95-158 | the three status spellings used by render are 0x90, 0x80 and 0xB0 |
| MidiWire.B8OnlyTestsForNonZero | teq/midi_event.h:19-26 | the macro only asks whether each digit is non-zero: `B8(2)` is 1 |
| MidiWire.AllNotesOff | teq/midi_event.h:161-168 | All Notes Off is a control change of controller 123 to value 0 on the given channel |
| MidiWire.Status | teq/midi_event.h:97-155 | every status byte has its top bit set |
| MidiWire.Bytes | teq/midi_event.h:95-158 | a message renders three bytes, led by its status byte |
| MidiWire.Size | teq/midi_event.h:90-93 | size() is 3, the number of bytes render writes |
| MidiWire.Render | teq/midi_event.h:95-158 | render writes the message's bytes into `buffer[0..2]` and leaves the rest of the buffer unchanged |
| MidiWire.NoteOnBytes | teq/midi_event.h:95-100 | Note On renders the bytes 0x90 or-ed with the channel, the note and the velocity |
| MidiWire.NoteOffBytes | teq/midi_event.h:124-129 | Note Off renders the bytes 0x80 or-ed with the channel, the note and the velocity |
| MidiWire.ControlChangeBytes | teq/midi_event.h:153-158 | Control Change renders the bytes 0xB0 or-ed with the channel, the controller and the value |
| MidiWire.AllNotesOffBytes | teq/midi_event.h:161-168 | All Notes Off is a control change of controller 123 to 0 on the channel |
| MidiWire.StatusNibbles | teq/midi_event.h:97-155 | on channels below 16 the status byte's high nibble is the kind and its low nibble the channel |
| MidiWire.WideChannelChangesKind | teq/midi_event.h:126 | a "channel" of 16 spills into the kind: Note Off on 16 goes out as Note On on 0 |
| MidiWire.DecodeBytes | teq/midi_event.h:90-158 | on channels below 16 the rendered bytes decode back to the message |
| Rings.RingBuffer.constructor | teq/ringbuffer.h:32-36 | a new ring is empty, with the requested size and a capacity fixed from then on |
| Rings.RingBuffer.Count | teq/ringbuffer.h:57-63 | the read and write indices give the number of queued elements |
| Rings.RingBuffer.CanWrite | teq/ringbuffer.h:44-50 | true exactly when another whole element fits |
| Rings.RingBuffer.CanRead | teq/ringbuffer.h:57-63 | true exactly when a whole element is queued |
| Rings.RingBuffer.Write | teq/ringbuffer.h:52-55 | appends the element at the back, through the transfer buffer |
| Rings.RingBuffer.ReadAdvance | teq/ringbuffer.h:65-68 | drops exactly the front element and keeps the rest in order |
| Rings.RingBuffer.Snoop | teq/ringbuffer.h:75-78 | returns the front element and changes no queued element; on an empty ring, the transfer buffer's last content |
| Rings.RingBuffer.Read | teq/ringbuffer.h:70-73 | returns and removes the front element; on an empty ring, the transfer buffer's last content and no change |
| Rings.ReadIsSnoopThenAdvance | teq/ringbuffer.h:65-78 | read returns the same front element as snoop, and leaves the same queue that snoop followed by read_advance leaves |
| Rings.SnoopIsRepeatable | teq/ringbuffer.h:75-78 | two snoops return the same front element and leave the queue unchanged and still readable |
| Rings.FirstInFirstOut | teq/ringbuffer.h:52-73 | on an empty ring with room for two, writing x then y and reading twice returns x, then y, and leaves the ring empty |
| Heaps.UseCount | teq/heap.h:34 | the reference count of an entry in the list is at least 1, and a pointer held nowhere has count 0 |
| Heaps.Unique | teq/heap.h:34 | a listed entry is unique exactly when the list holds it once and no outside holder has it |
| Heaps.UnlinkUnique | teq/heap.h:34 | unlinking an entry listed once removes it from the list |
| Heaps.UnlinkKeepsOthers | teq/heap.h:34 | unlinking an entry keeps the count of every other pointer |
| Heaps.Heap.Add | teq/heap.h:21-25 | appends the pointer at the end of the list and returns that pointer |
| Heaps.Heap.AddNew | teq/heap.h:27-30 | registers a new pointer to a copy of the value through add |
| Heaps.Heap.Gc | teq/heap.h:32-35 | the list becomes the entries whose reference count is not 1, in their order |
| Heaps.SharedAppend | teq/heap.h:34 | the survivors of a list extended by one entry are the old survivors, then that entry unless it is unique |
| Heaps.SharedMembers | teq/heap.h:34 | an entry survives exactly when it is in the list and its count is not 1 |
| Heaps.SharedCounts | teq/heap.h:34 | a survivor occurs as often after the collection as before |
| Heaps.KeepsAllShared | teq/heap.h:34 | a list with no unique entry is kept whole |
| Heaps.CollectIdempotent | teq/heap.h:32-35 | collecting twice with the same outside holders removes nothing more |
| Heaps.HeldEntrySurvives | teq/heap.h:21-35 | an entry whose pointer a caller still holds survives the collection |
| Heaps.GcUnlinkStep | teq/heap.h:34 | unlinking a unique entry keeps the collection's loop invariant |
| Heaps.GcKeepStep | teq/heap.h:34 | stepping past a shared entry keeps the collection's loop invariant |
| Engine.Apply | teq/teq.h:89-109 | a swap command replaces the track and keeps the loop range; a loop-range command replaces the loop range and keeps the track |
| Engine.ApplyAll | teq/teq.h:169-173 | after running a queue, each setting is the old one or one that a command in the queue carried |
| Engine.ApplyAllAppend | teq/teq.h:169-173 | running a queue runs its front part, then its back part |
| Engine.LastQueuedLoopRangeWins | teq/teq.h:99-110 | after the drain, the loop range is the one queued last, or the old one when none was queued |
| Engine.EffectivePosition | teq/teq.h:139-154 | the frame is returned unchanged when the loop is off or it is below the end; otherwise it is `start + (frame - start) % (end - start)`, in `[start, end)` for a forward loop |
| Engine.LoopFold | teq/teq.h:153 | the 64-bit fold, truncated to 32 bits, is the arithmetic fold for a forward loop |
| Engine.FoldStaysBelow | teq/teq.h:153 | a frame folded into a forward loop lands in `[start, end)` without wrap-around |
| Engine.EffectivePositionIdempotent | teq/teq.h:139-154 | for a loop that is off or starts before it ends, folding a folded position again changes nothing |
| Engine.EffectiveStep | teq/teq.h:207-212 | for a loop that is off or starts before it ends and frames that do not wrap past 2^32, the next frame's position is the previous one plus one, or the loop start |
| Engine.NextPosition | teq/teq.h:205-212 | the same, for consecutive frames of a block, under the same two conditions |
| Engine.BlockConsecutive | teq/teq.h:205-212 | for a loop that is off or starts before it ends and a block that does not wrap past 2^32, every frame of the block steps on by one or jumps to the loop start |
| Engine.Positions | teq/teq.h:205-207 | the block's positions are the folded frames, one per frame in frame order |
| Engine.FramesOf | teq/teq.h:202-207 | the walk sees the track's keys in map order |
| Engine.LowerBoundUnique | teq/teq.h:202 | `lower_bound` is the only index that splits sorted keys at a value |
| Engine.StepPastKey | teq/teq.h:231-240 | stepping past the key equal to x, if there is one, moves from the lower bound of x to that of x + 1 |
| Engine.EmitAt | teq/teq.h:231-240 | the inner loop only moves the iterator forward, renders one event per key it passes, and stops at the end or at a key other than the position |
| Engine.EmitAtLowerBound | teq/teq.h:231-240 | from the lower bound of a position, the inner loop renders the one event keyed there, if any, and stops at the next key |
| Engine.InOrderEmitsByKey | teq/teq.h:231-240 | the same for every position at once |
| Engine.SeekFor | teq/teq.h:221-229 | the iterator is re-seeked only when the loop is on, the frame is not the block's first, and its position is the loop start |
| Engine.SeekFinds | teq/teq.h:221-229 | for frames that each step on by one or jump to the loop start, with the iterator at the lower bound left by the previous frame, the iterator after any re-seek stands at the lower bound of the frame's position |
| Engine.FrameStep | teq/teq.h:207-240 | one frame records its position as the last one and only appends to the output; with notes off on loop, a position that does not follow the last one puts All Notes Off first |
| Engine.Walk | teq/teq.h:205-241 | the frame loop only appends to the output and leaves the last frame's position; from past the last frame it changes nothing |
| Engine.BlockWalkEnds | teq/teq.h:202-241 | the walk of a block leaves the position of its last frame, and a block of no frames renders nothing and keeps the last position |
| Engine.FrameStepRenders | teq/teq.h:207-240 | for frames that each step on by one or jump to the loop start, with the iterator at the lower bound left by the previous frame, one frame renders that frame's intended output and leaves the iterator in place for the next frame |
| Engine.WalkFrom | teq/teq.h:205-241 | for frames that each step on by one or jump to the loop start, with the iterator at the lower bound left by the previous frame, the frame loop from that frame renders the intended output of the remaining frames and leaves the last position behind |
| Engine.BlockRendersFrameEvents | teq/teq.h:202-241 | a block's walk renders exactly the intended output and leaves the last frame's position |
| Engine.NoteOnAtFrameZero | teq/teq.h:202-241 | with a new engine's settings (default loop range, notes off on loop, last position 0), a one-frame block at frame 0 over a track with one Note On at tick 0 renders All Notes Off, then that Note On, and leaves position 0 |
| Engine.StopOutput | teq/teq.h:181-190 | a stop renders one All Notes Off on channel 0 exactly when notes off on stop is on and the last state was rolling, and nothing otherwise |
| Engine.RenderStop | teq/teq.h:181-190 | keeps the port buffer's prior content and appends the renderings of the stop output |
| Engine.RenderEvent | teq/teq.h:161-165 | render_event writes the event's three bytes |
| Engine.Engine.constructor | teq/teq.h:32-39 | the name defaults to "teq" and the queue size to 1024; a new engine has an empty command queue, an empty track registered with the heap, the default loop range, both notes-off switches on and last position 0 |
| Engine.Engine.WriteCommand | teq/teq.h:75-83 | fails with "Failed to write command" and queues nothing exactly when the queue is full; otherwise queues exactly the command |
| Engine.Engine.SetTrack | teq/teq.h:85-97 | registers the track copy with the heap, then queues the swap to it, or fails with a full queue |
| Engine.Engine.SetLoopRange | teq/teq.h:99-110 | queues the replacement of the loop range, or fails with a full queue |
| Engine.Engine.Execute | teq/teq.h:89-109 | a command replaces one setting: the loop range or the track |
| Engine.Engine.RunCommands | teq/teq.h:169-173 | runs every queued command in queue order and leaves the queue empty |
| Engine.RenderEventsAt | teq/teq.h:231-240 | renders the events the iterator passes at the position, in key order, and moves the iterator past them |
| Engine.Engine.RenderFrame | teq/teq.h:207-240 | one turn of the frame loop is one step of the frame walk: notes-off on a jump, last position, re-seek, events |
| Engine.FramesOfFold | teq/teq.h:203-205 | every position the walk of a block sees is its frame folded into the loop range |
| Engine.Engine.RenderFrames | teq/teq.h:203-239 | the frame loop over any frame view renders what the frame walk renders and leaves its last position |
| Engine.Engine.RenderBlock | teq/teq.h:200-239 | places the iterator at the lower bound of the first position, then renders what the frame walk of the block renders and leaves its last position |
| Engine.Engine.RenderTransport | teq/teq.h:181-241 | records the transport state; off the rolling state it appends the stop output and keeps the last position; while rolling it renders the block's walk and leaves its last position |
| Engine.Engine.Process | teq/teq.h:167-244 | drains the queue first; off the rolling state it adds one All Notes Off to the port buffer on a stop (when asked) and renders no event; while rolling it renders the block's walk; it records the transport state and returns 0 |

## Left out

- JACK setup and teardown are outside the model: client open, port registration, callback, activation, and the `runtime_error`s they throw (teq/teq.h:40-72). The constructor's transport query becomes its `transportState` parameter.
- `jack_port_get_buffer`, `jack_transport_query` and `jack_midi_clear_buffer` are modelled through parameters. The port buffer's prior content is an input, and it is cleared only on the rolling path.
- `render_event` reserves every message at time offset 0 and does not check the reservation (teq/teq.h:161-165). The output records the messages in order, without time offsets. A failed reservation (a null buffer) is not modelled, and no overrun protection is claimed.
- The commands' `std::function` closures are a datatype with two kinds of command, applied to the engine's settings.
- Concurrency is not modelled: the lock-free hand-over between the control thread and the processing thread. Each method runs on its own.
- The ring's JACK byte internals are not modelled: power-of-two rounding, raw copies of `sizeof(T)` bytes. The ring holds `capacity` whole elements, where `capacity` is a constructor parameter depending on the requested `size` in a way JACK decides.
- Rings.RingBuffer.Write: requires room, because JACK's ring would copy only part of an element's bytes into a full ring and the source always checks `can_write` first.
- Rings.RingBuffer.ReadAdvance: requires a queued element, because JACK would advance the read index past the write index. The only caller checks `can_read` first.
- Shared pointers are modelled by explicit counts: the entries in the heap's list plus the outside holders the caller supplies. Deallocation and the allocator are not modelled.
- Heaps.Heap.AddNew: takes the new object's address as a parameter, one the heap does not already own. The allocator makes that choice.
- teq/teq.h uses `lart/heap.h` and `lart/ringbuffer.h`. lart/heap.h is not part of this model: the engine uses the teq heap's `add_new` in its place, and the `junk` wrapper is left out.
- Engine.EffectivePosition: requires the fold's divisor to be non-zero (a loop that is on with start equal to end, at or past the end). In C++ that division is undefined behaviour.
- Engine.Engine.Process: requires, while rolling, that every frame of the block folds as above (Engine.BlockFolds).
- Engine.BlockRendersFrameEvents: holds for a loop that is off or starts before it ends, and a block that does not wrap past 2^32 frames. A backward loop (start above end) folds through 64-bit wrap-around; EffectivePosition models its result exactly, but no lemma states where it lands.
- The `m_last_effective_position + 1` comparison wraps at 2^32, as Add32 models. A 32-bit wrap of `transport_frame + process_frame` inside a block is modelled but not reasoned about beyond EffectivePosition.
- The engine's track type is not self-consistent in teq/teq.h. It names `track::range` (teq/teq.h:99, 123) and reads `m_track->t.m_events` (teq/teq.h:202), but `teq::track` in teq/track.h:12-15 has no members. `render_event` calls `size()` and `render()` (teq/teq.h:161-165), which `midi_event` in teq/event.h:53-73 does not declare. The model reads the engine's track as `midi_track` (teq/track.h:17-39) holding wire-format MIDI messages (`Tracks.MidiTrack<MidiWire.Message>`), and its loop range as `midi_track::range` with 64-bit ticks, which Engine.LoopFold's 64-bit arithmetic rests on.
- The `float` payloads in teq/event.h are only stored and copied, so they are modelled as reals.
- The status bytes are Dafny literals 0x90, 0x80 and 0xB0. The lemmas under `B8` prove that the macro spellings give these values.
- The `B16` and `B32` macros (teq/midi_event.h:34-41) are malformed and unused.
- teq/column.h is a base class and a holder with no behaviour.
- teq/teq.cc, teq/python.cc, pyteq.py, example.py and test_teq.py are glue and scripts. They call operations the shown C++ does not have.
- The track and sequence behind the song's shared pointers are opaque references. Only their counts and the patterns' lengths take part in the checks.
- `cv_event` has the two types NONE and INTERVAL, as in teq/event.h.
