/** The song-level transport vocabulary: play state and a position given as a
    pattern index and a tick within that pattern. */
module Transport {
  import opened Ints

  /** A tick is a signed int: a position may be negative, and validating it
      is the business of the song's index checks. */
  type Tick = int32

  datatype TransportState = Stopped | Playing

  /** The constructor's parameters default to pattern 0, tick 0. */
  datatype TransportPosition = TransportPosition(pattern: Tick := 0, tick: Tick := 0)

  lemma TransportStates(s: TransportState)
    ensures s == Stopped || s == Playing
    ensures Stopped != Playing
  {
  }

  lemma TransportPositionDefaults(pattern: Tick, tick: Tick)
    ensures TransportPosition() == TransportPosition(0, 0)
    ensures TransportPosition(pattern).tick == 0
    ensures TransportPosition(pattern, tick).pattern == pattern
    ensures TransportPosition(pattern, tick).tick == tick
  {
  }

  /** Nothing in the position type rules out a negative tick. */
  lemma NegativeTickRepresentable()
    ensures TransportPosition(0, -1).tick < 0
  {
  }
}
