/** A song: its pattern list and track list, and the index checks every
    edit makes against them. A failed check is an error carrying the text the
    source throws. */
module Songs {
  import opened Ints
  import opened Wrappers
  import opened Patterns
  import Decimal

  /** Shared pointer to a track's properties; its content is not part of
      this model. */
  type TrackRef = nat
  /** The JACK port a track is tied to. */
  type PortRef = nat

  datatype TrackEntry = TrackEntry(track: TrackRef, port: PortRef)

  datatype ErrorKind = TrackIndex | PatternIndex | TickIndex

  /** An out-of-range index and the bound it was checked against. */
  datatype IndexError = IndexError(kind: ErrorKind, index: int, bound: int)

  function IndexLabel(kind: ErrorKind): string
  {
    match kind
    case TrackIndex => "Track index out of bounds: "
    case PatternIndex => "Pattern index out of bounds: "
    case TickIndex => "Tick index out of bounds: "
  }

  function BoundLabel(kind: ErrorKind): string
  {
    match kind
    case TrackIndex => ". Number of tracks: "
    case PatternIndex => ". Number of patterns: "
    case TickIndex => ". Pattern length: "
  }

  /** The text of the `runtime_error` thrown for `e`. */
  function Message(e: IndexError): (m: string)
    ensures IndexLabel(e.kind) <= m
    ensures |m| > |IndexLabel(e.kind)| + |BoundLabel(e.kind)|
  {
    IndexLabel(e.kind) + Decimal.IntText(e.index) + BoundLabel(e.kind) + Decimal.IntText(e.bound)
  }

  /** The message names the offending index and the bound: both can be read
      back from it. */
  lemma MessageNamesIndexAndBound(e: IndexError)
    ensures var m := Message(e);
      var p := |IndexLabel(e.kind)|;
      var k := |Decimal.IntText(e.index)|;
      && m[..p] == IndexLabel(e.kind)
      && Decimal.ParseInt(m[p..p + k]) == e.index
      && m[p + k..p + k + |BoundLabel(e.kind)|] == BoundLabel(e.kind)
      && Decimal.ParseInt(m[p + k + |BoundLabel(e.kind)|..]) == e.bound
  {
    var m := Message(e);
    var p := |IndexLabel(e.kind)|;
    var k := |Decimal.IntText(e.index)|;
    var b := |BoundLabel(e.kind)|;
    assert m[p..p + k] == Decimal.IntText(e.index);
    assert m[p + k + b..] == Decimal.IntText(e.bound);
    Decimal.IntTextRoundTrip(e.index);
    Decimal.IntTextRoundTrip(e.bound);
  }

  /** A new song has no patterns, no tracks and no arrangement. */
  datatype Song = Song(name: string := "", description: string := "",
                       patterns: seq<Pattern> := [], arrangement: Option<seq<uint32>> := None,
                       tracks: seq<TrackEntry> := [])
  {
    /** The size is compared after the cast `(int)size()`. */
    function CheckTrackIndex(index: int32): (r: Outcome<IndexError>)
      ensures |tracks| < TWO_31 ==> (r.Fail? <==> index < 0 || index >= |tracks|)
      ensures r.Fail? ==> r.error == IndexError(TrackIndex, index, |tracks|)
    {
      if index < 0 || index >= Int32Cast(|tracks|) then
        Fail(IndexError(TrackIndex, index, |tracks|))
      else
        Pass
    }

    function CheckPatternIndex(index: int32): (r: Outcome<IndexError>)
      ensures |patterns| < TWO_31 ==> (r.Fail? <==> index < 0 || index >= |patterns|)
      ensures r.Fail? ==> r.error == IndexError(PatternIndex, index, |patterns|)
    {
      if index < 0 || index >= Int32Cast(|patterns|) then
        Fail(IndexError(PatternIndex, index, |patterns|))
      else
        Pass
    }

    /** The pattern index is checked first; only a valid one gives the
        length the tick is checked against. */
    function CheckTickIndex(patternIndex: int32, tickIndex: int32): (r: Outcome<IndexError>)
      ensures CheckPatternIndex(patternIndex).Fail? ==> r == CheckPatternIndex(patternIndex)
      ensures CheckPatternIndex(patternIndex).Pass? ==>
        0 <= patternIndex < |patterns| &&
        (r.Fail? <==> tickIndex < 0 || tickIndex >= patterns[patternIndex].length) &&
        (r.Fail? ==> r.error == IndexError(TickIndex, tickIndex, patterns[patternIndex].length))
    {
      var p := CheckPatternIndex(patternIndex);
      if p.Fail? then p
      else
        var length := patterns[patternIndex].length;
        if tickIndex < 0 || tickIndex >= length then
          Fail(IndexError(TickIndex, tickIndex, length))
        else
          Pass
    }
  }

  lemma SongDefaults()
    ensures Song().patterns == [] && Song().tracks == []
    ensures Song().arrangement == None
  {
  }

  /** A tick the check admits addresses a tick of an existing pattern. */
  lemma CheckedTickIsInPattern(s: Song, patternIndex: int32, tickIndex: int32)
    requires s.CheckTickIndex(patternIndex, tickIndex).Pass?
    ensures 0 <= patternIndex < |s.patterns|
    ensures 0 <= tickIndex < s.patterns[patternIndex].Length()
  {
  }
}
