/** A pattern: a length in ticks and the list of sequences it holds. */
module Patterns {
  import opened Ints

  /** Sequences are referred to by shared pointer; their content is not part
      of this model. */
  type SequenceRef = nat

  /** The constructor takes only the length, 128 by default; the sequence
      list starts empty. */
  datatype Pattern = Pattern(length: uint32 := 128, sequences: seq<SequenceRef> := [])
  {
    function Length(): uint32 { length }
  }

  lemma PatternDefaults(n: uint32)
    ensures Pattern().Length() == 128
    ensures Pattern().sequences == []
    ensures Pattern(n).Length() == n
    ensures Pattern(n).sequences == []
  {
  }
}
