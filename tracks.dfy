/** A MIDI track: its ticks are unsigned 64-bit values and its events are kept
    in an ordered map from tick to event. */
module Tracks {
  import opened Ints

  type Tick = uint64

  /** A tick range with an on/off switch; by default 0..0 and switched off. */
  datatype Range = Range(start: Tick := 0, end: Tick := 0, enabled: bool := false)

  /** The events of a track, keyed by tick: at most one event per tick. The
      event type is a parameter: the engine stores renderable MIDI messages. */
  datatype MidiTrack<E> = MidiTrack(events: map<Tick, E> := map[])

  predicate Increasing(ks: seq<Tick>)
  {
    forall i, j :: 0 <= i < j < |ks| ==> ks[i] < ks[j]
  }

  /** `m` is the least element of `s`. */
  predicate IsLeast(m: Tick, s: set<Tick>)
  {
    m in s && forall t :: t in s ==> m <= t
  }

  lemma {:induction false} LeastExists(s: set<Tick>)
    requires s != {}
    ensures exists m :: IsLeast(m, s)
    decreases |s|
  {
    var x :| x in s;
    if s == {x} {
      assert IsLeast(x, s);
    } else {
      var rest := s - {x};
      assert |rest| == |s| - 1;
      LeastExists(rest);
      var m :| IsLeast(m, rest);
      var least := if x < m then x else m;
      forall t | t in s
        ensures least <= t
      {
        if t != x { assert t in rest; }
      }
      assert IsLeast(least, s);
    }
  }

  /** The least tick of a non-empty set. */
  function MinTick(s: set<Tick>): (m: Tick)
    requires s != {}
    ensures IsLeast(m, s)
  {
    LeastExists(s);
    var m :| IsLeast(m, s);
    m
  }

  /** The keys of an ordered map in the order the map iterates them. */
  function SortedKeys<E>(events: map<Tick, E>): (ks: seq<Tick>)
    ensures Increasing(ks)
    ensures |ks| == |events.Keys|
    ensures forall i :: 0 <= i < |ks| ==> ks[i] in events
    ensures forall t :: t in events ==> t in ks
    decreases |events.Keys|
  {
    if events == map[] then []
    else
      var k := MinTick(events.Keys);
      var rest := events - {k};
      RemoveLeast(events, k);
      var tail := SortedKeys(rest);
      PrependLeast(k, tail, events.Keys);
      [k] + tail
  }

  lemma RemoveLeast<E>(events: map<Tick, E>, k: Tick)
    requires IsLeast(k, events.Keys)
    ensures (events - {k}).Keys == events.Keys - {k}
    ensures |(events - {k}).Keys| == |events.Keys| - 1
    ensures forall t :: t in events - {k} ==> k < t
  {
  }

  lemma PrependLeast(k: Tick, tail: seq<Tick>, keys: set<Tick>)
    requires Increasing(tail)
    requires forall i :: 0 <= i < |tail| ==> tail[i] in keys - {k}
    requires IsLeast(k, keys)
    ensures Increasing([k] + tail)
  {
    var ks := [k] + tail;
    forall i, j | 0 <= i < j < |ks|
      ensures ks[i] < ks[j]
    {
      if i == 0 {
        assert ks[j] == tail[j - 1];
        assert tail[j - 1] in keys;
      } else {
        assert ks[i] == tail[i - 1] && ks[j] == tail[j - 1];
      }
    }
  }

  /** `lower_bound`: the position of the first key not below `x`, scanning
      from the front; the end position when there is none. */
  function LowerBound(ks: seq<Tick>, x: int): (i: nat)
    ensures i <= |ks|
    ensures i < |ks| ==> x <= ks[i]
  {
    if ks == [] || x <= ks[0] then 0 else 1 + LowerBound(ks[1..], x)
  }

  /** On increasing keys `lower_bound` splits them at `x`: every key before
      it is below `x`, every key from it on is not. */
  lemma {:induction false} LowerBoundSplits(ks: seq<Tick>, x: int)
    requires Increasing(ks)
    ensures var i := LowerBound(ks, x);
      (forall j :: 0 <= j < i ==> ks[j] < x) && (forall j :: i <= j < |ks| ==> x <= ks[j])
  {
    if ks != [] {
      if x <= ks[0] {
        forall j | 0 <= j < |ks| ensures x <= ks[j] {
          if j > 0 { assert ks[0] < ks[j]; }
        }
      } else {
        var tail := ks[1..];
        assert Increasing(tail) by {
          forall a, b | 0 <= a < b < |tail| ensures tail[a] < tail[b] {
            assert tail[a] == ks[a + 1] && tail[b] == ks[b + 1];
          }
        }
        LowerBoundSplits(tail, x);
        var i := LowerBound(ks, x);
        forall j | 0 <= j < i ensures ks[j] < x {
          if j > 0 { assert ks[j] == tail[j - 1]; }
        }
        forall j | i <= j < |ks| ensures x <= ks[j] {
          assert ks[j] == tail[j - 1];
        }
      }
    }
  }

  /** A key is present exactly when `lower_bound` points at it. */
  lemma LowerBoundFinds(ks: seq<Tick>, t: Tick)
    requires Increasing(ks)
    ensures var i := LowerBound(ks, t); t in ks <==> i < |ks| && ks[i] == t
  {
    var i := LowerBound(ks, t);
    LowerBoundSplits(ks, t);
    if t in ks {
      var j :| 0 <= j < |ks| && ks[j] == t;
      assert i <= j;
    }
  }

  lemma RangeDefaults(start: Tick, end: Tick, enabled: bool)
    ensures Range() == Range(0, 0, false)
    ensures Range(start, end, enabled).start == start
    ensures Range(start, end, enabled).end == end
    ensures Range(start, end, enabled).enabled == enabled
  {
  }
}
