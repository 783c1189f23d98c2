/** Song-level ranges of transport positions. */
module Ranges {
  import opened Transport

  /** A start and an end position, both defaulting to the origin. */
  datatype Range = Range(start: TransportPosition := TransportPosition(),
                         end: TransportPosition := TransportPosition())

  /** A range with an on/off switch; it is switched off by default. */
  datatype LoopRange = LoopRange(start: TransportPosition := TransportPosition(),
                                 end: TransportPosition := TransportPosition(),
                                 enabled: bool := false)
  {
    /** The plain range this loop range extends. */
    function AsRange(): (r: Range)
      ensures r.start == start && r.end == end
    {
      Range(start, end)
    }
  }

  lemma RangeDefaults(start: TransportPosition, end: TransportPosition)
    ensures Range() == Range(TransportPosition(0, 0), TransportPosition(0, 0))
    ensures Range(start, end).start == start && Range(start, end).end == end
  {
  }

  lemma LoopRangeDefaults(start: TransportPosition, end: TransportPosition, enabled: bool)
    ensures !LoopRange().enabled
    ensures LoopRange().AsRange() == Range()
    ensures !LoopRange(start, end).enabled
    ensures LoopRange(start, end, enabled).AsRange() == Range(start, end)
    ensures LoopRange(start, end, enabled).enabled == enabled
  {
  }
}
