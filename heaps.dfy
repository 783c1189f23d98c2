/** The reclaimer: a list of shared pointers to every object it was given,
    and a collection that drops the entries nobody else refers to. A shared
    pointer's reference count is made explicit: it is the number of times the
    pointer occurs in the heap's own list plus the number of holders outside
    the heap, which the caller supplies. */
module Heaps {

  /** A shared pointer: the address of the object it owns, and that object. */
  datatype Ptr<T> = Ptr(address: nat, pointee: T)

  /** Holders of each pointer outside the heap; a missing key means none. */
  type Holders<T(==)> = map<Ptr<T>, nat>

  function Outside<T(==)>(holders: Holders<T>, p: Ptr<T>): nat
  {
    if p in holders then holders[p] else 0
  }

  /** `use_count()` of `p` while the heap's list is `entries`. */
  function UseCount<T(==)>(entries: seq<Ptr<T>>, holders: Holders<T>, p: Ptr<T>): (n: nat)
    ensures p in entries ==> n >= 1
    ensures p !in entries && p !in holders ==> n == 0
  {
    multiset(entries)[p] + Outside(holders, p)
  }

  /** `unique()`: the pointer is referred to exactly once. */
  predicate Unique<T(==)>(entries: seq<Ptr<T>>, holders: Holders<T>, p: Ptr<T>)
    ensures p in entries ==>
      (Unique(entries, holders, p) <==> multiset(entries)[p] == 1 && Outside(holders, p) == 0)
  {
    UseCount(entries, holders, p) == 1
  }

  /** The entries of `s` that are not unique with respect to the list
      `whole`, in their order. */
  function Shared<T(==)>(whole: seq<Ptr<T>>, holders: Holders<T>, s: seq<Ptr<T>>): seq<Ptr<T>>
  {
    if s == [] then []
    else if Unique(whole, holders, s[0]) then Shared(whole, holders, s[1..])
    else [s[0]] + Shared(whole, holders, s[1..])
  }

  /** What a collection leaves of `entries`. */
  function Collected<T(==)>(entries: seq<Ptr<T>>, holders: Holders<T>): seq<Ptr<T>>
  {
    Shared(entries, holders, entries)
  }

  lemma {:induction false} SharedAppend<T>(whole: seq<Ptr<T>>, holders: Holders<T>, s: seq<Ptr<T>>, x: Ptr<T>)
    ensures Shared(whole, holders, s + [x]) ==
      Shared(whole, holders, s) + (if Unique(whole, holders, x) then [] else [x])
  {
    if s != [] {
      assert (s + [x])[1..] == s[1..] + [x];
      SharedAppend(whole, holders, s[1..], x);
    }
  }

  /** An entry survives exactly when its reference count is not one. */
  lemma {:induction false} SharedMembers<T>(whole: seq<Ptr<T>>, holders: Holders<T>, s: seq<Ptr<T>>, p: Ptr<T>)
    ensures p in Shared(whole, holders, s) <==> p in s && !Unique(whole, holders, p)
  {
    if s != [] {
      SharedMembers(whole, holders, s[1..], p);
      assert s == [s[0]] + s[1..];
    }
  }

  /** What a collection drops occurs once in the list and has no outside
      holder, so the count of every survivor is what it was before. */
  lemma {:induction false} SharedCounts<T>(whole: seq<Ptr<T>>, holders: Holders<T>, s: seq<Ptr<T>>, p: Ptr<T>)
    requires !Unique(whole, holders, p)
    ensures multiset(Shared(whole, holders, s))[p] == multiset(s)[p]
  {
    if s != [] {
      SharedCounts(whole, holders, s[1..], p);
      assert s == [s[0]] + s[1..];
      if Unique(whole, holders, s[0]) {
        assert s[0] != p;
      }
    }
  }

  /** The survivors keep their reference counts, so collecting again with the
      same outside holders removes nothing more. */
  lemma CollectIdempotent<T>(entries: seq<Ptr<T>>, holders: Holders<T>)
    ensures Collected(Collected(entries, holders), holders) == Collected(entries, holders)
  {
    var once := Collected(entries, holders);
    forall p | p in once
      ensures !Unique(once, holders, p)
    {
      SharedMembers(entries, holders, entries, p);
      SharedCounts(entries, holders, entries, p);
    }
    KeepsAllShared(once, holders, once);
  }

  lemma {:induction false} KeepsAllShared<T>(whole: seq<Ptr<T>>, holders: Holders<T>, s: seq<Ptr<T>>)
    requires forall p :: p in s ==> !Unique(whole, holders, p)
    ensures Shared(whole, holders, s) == s
  {
    if s != [] {
      assert s[0] in s;
      assert forall p :: p in s[1..] ==> p in s;
      KeepsAllShared(whole, holders, s[1..]);
    }
  }

  /** An entry whose pointer someone outside the heap still holds survives. */
  lemma HeldEntrySurvives<T>(entries: seq<Ptr<T>>, holders: Holders<T>, p: Ptr<T>)
    requires p in entries && Outside(holders, p) >= 1
    ensures p in Collected(entries, holders)
  {
    SharedMembers(entries, holders, entries, p);
  }

  /** The state of `Gc` after it has looked at the first `k` entries of the
      list `whole` it started from: the first `i` entries of the current list
      are the survivors so far, the rest is untouched, and the entries still
      to be looked at have the reference counts they started with. */
  ghost predicate GcInvariant<T>(whole: seq<Ptr<T>>, holders: Holders<T>, entries: seq<Ptr<T>>, i: nat, k: nat)
  {
    && i <= |entries| && k <= |whole|
    && entries[..i] == Shared(whole, holders, whole[..k])
    && entries[i..] == whole[k..]
    && forall j :: k <= j < |whole| ==> multiset(entries)[whole[j]] == multiset(whole)[whole[j]]
  }

  /** Removing entry `i` keeps the entries on either side of it in place and
      takes one occurrence of it out of the list's multiset. */
  lemma Unlink<T>(entries: seq<Ptr<T>>, i: nat)
    requires i < |entries|
    ensures var next := entries[..i] + entries[i + 1..];
      next[..i] == entries[..i] && next[i..] == entries[i + 1..] &&
      multiset(entries) == multiset(next) + multiset{entries[i]}
  {
    var next := entries[..i] + entries[i + 1..];
    assert entries == entries[..i] + [entries[i]] + entries[i + 1..];
  }

  lemma GcUnlinkStep<T>(whole: seq<Ptr<T>>, holders: Holders<T>, entries: seq<Ptr<T>>, i: nat, k: nat)
    requires GcInvariant(whole, holders, entries, i, k) && i < |entries|
    requires UseCount(entries, holders, entries[i]) == 1
    ensures GcInvariant(whole, holders, entries[..i] + entries[i + 1..], i, k + 1)
  {
    var p := entries[i];
    assert p == whole[k];
    assert multiset(entries)[p] == multiset(whole)[p];
    assert Unique(whole, holders, p);
    assert whole[..k + 1] == whole[..k] + [p];
    SharedAppend(whole, holders, whole[..k], p);
    var next := entries[..i] + entries[i + 1..];
    Unlink(entries, i);
    assert next[..i] == Shared(whole, holders, whole[..k + 1]);
    assert next[i..] == whole[k + 1..];
    UnlinkUnique(entries, i);
    forall j | k + 1 <= j < |whole|
      ensures multiset(next)[whole[j]] == multiset(whole)[whole[j]]
    {
      var q := whole[j];
      assert q == next[i + j - k - 1];
      UnlinkKeepsOthers(entries, i, q);
    }
  }

  /** An entry that occurs once is gone from the list after unlinking it. */
  lemma UnlinkUnique<T>(entries: seq<Ptr<T>>, i: nat)
    requires i < |entries| && multiset(entries)[entries[i]] == 1
    ensures entries[i] !in entries[..i] + entries[i + 1..]
  {
    Unlink(entries, i);
  }

  /** Unlinking entry `i` leaves the number of occurrences of every other
      pointer unchanged. */
  lemma UnlinkKeepsOthers<T>(entries: seq<Ptr<T>>, i: nat, q: Ptr<T>)
    requires i < |entries| && q != entries[i]
    ensures multiset(entries[..i] + entries[i + 1..])[q] == multiset(entries)[q]
  {
    Unlink(entries, i);
  }

  lemma GcKeepStep<T>(whole: seq<Ptr<T>>, holders: Holders<T>, entries: seq<Ptr<T>>, i: nat, k: nat)
    requires GcInvariant(whole, holders, entries, i, k) && i < |entries|
    requires UseCount(entries, holders, entries[i]) != 1
    ensures GcInvariant(whole, holders, entries, i + 1, k + 1)
  {
    var p := entries[i];
    assert p == whole[k];
    assert whole[..k + 1] == whole[..k] + [p];
    SharedAppend(whole, holders, whole[..k], p);
    assert entries[..i + 1] == entries[..i] + [p];
  }

  class Heap<T(==)> {
    /** `m_heap`, in insertion order. */
    var entries: seq<Ptr<T>>

    constructor ()
      ensures entries == []
    {
      entries := [];
    }

    /** Records `p` at the end of the list and hands it back. */
    method Add(p: Ptr<T>) returns (r: Ptr<T>)
      modifies this
      ensures entries == old(entries) + [p]
      ensures r == p
    {
      entries := entries + [p];
      r := p;
    }

    /** Wraps a copy of `value` in a new shared pointer and records it. The
        allocator's choice of address is a parameter; it is one the heap
        does not already own. */
    method AddNew(value: T, address: nat) returns (r: Ptr<T>)
      requires forall i :: 0 <= i < |entries| ==> entries[i].address != address
      modifies this
      ensures r == Ptr(address, value)
      ensures entries == old(entries) + [r]
    {
      r := Add(Ptr(address, value));
    }

    /** `remove_if(unique)`: walks the list, testing each entry's reference
        count against the list as it stands, and unlinks the unique ones. */
    method Gc(holders: Holders<T>)
      modifies this
      ensures entries == Collected(old(entries), holders)
    {
      ghost var whole := entries;
      ghost var k := 0;
      var i := 0;
      while i < |entries|
        invariant GcInvariant(whole, holders, entries, i, k)
        decreases |entries| - i
      {
        var p := entries[i];
        if UseCount(entries, holders, p) == 1 {
          GcUnlinkStep(whole, holders, entries, i, k);
          entries := entries[..i] + entries[i + 1..];
        } else {
          GcKeepStep(whole, holders, entries, i, k);
          i := i + 1;
        }
        k := k + 1;
      }
      assert whole[..k] == whole;
    }
  }
}
