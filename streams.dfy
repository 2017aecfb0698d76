/** Finite streams read as sequences: the merge of two streams, seen as an
    interleaving of their elements that keeps each stream's own order. */
module Streams {

  /** The last element of `s`, or `d` when `s` is empty. */
  function LastOr<T>(s: seq<T>, d: T): T {
    if s == [] then d else s[|s| - 1]
  }

  /** `m` is one of the ways of merging `a` and `b`: every element of `m`
      comes from the front of `a` or of `b`, and nothing is left over. */
  predicate IsInterleaving<T(==)>(m: seq<T>, a: seq<T>, b: seq<T>)
    decreases |m|
  {
    if m == [] then a == [] && b == []
    else
      || (a != [] && m[0] == a[0] && IsInterleaving(m[1..], a[1..], b))
      || (b != [] && m[0] == b[0] && IsInterleaving(m[1..], a, b[1..]))
  }

  /** An interleaving loses and invents nothing. */
  lemma {:induction false} InterleavingContents<T>(m: seq<T>, a: seq<T>, b: seq<T>)
    requires IsInterleaving(m, a, b)
    ensures |m| == |a| + |b|
    ensures multiset(m) == multiset(a) + multiset(b)
    decreases |m|
  {
    if m != [] {
      if a != [] && m[0] == a[0] && IsInterleaving(m[1..], a[1..], b) {
        InterleavingContents(m[1..], a[1..], b);
        assert m == [m[0]] + m[1..] && a == [a[0]] + a[1..];
      } else {
        InterleavingContents(m[1..], a, b[1..]);
        assert m == [m[0]] + m[1..] && b == [b[0]] + b[1..];
      }
    }
  }

  /** The last element of a merge is the last element of one of the two
      streams: the stream that finishes last decides how the merge ends. */
  lemma {:induction false} InterleavingLast<T>(m: seq<T>, a: seq<T>, b: seq<T>)
    requires IsInterleaving(m, a, b) && m != []
    ensures (a != [] && m[|m| - 1] == a[|a| - 1]) || (b != [] && m[|m| - 1] == b[|b| - 1])
    decreases |m|
  {
    if a != [] && m[0] == a[0] && IsInterleaving(m[1..], a[1..], b) {
      if m[1..] != [] {
        InterleavingLast(m[1..], a[1..], b);
      } else {
        assert a[1..] == [];
      }
    } else {
      if m[1..] != [] {
        InterleavingLast(m[1..], a, b[1..]);
      } else {
        assert b[1..] == [];
      }
    }
  }

  /** Merging with an empty stream changes nothing. */
  lemma {:induction false} InterleavingWithEmpty<T>(m: seq<T>, a: seq<T>)
    requires IsInterleaving(m, a, [])
    ensures m == a
    decreases |m|
  {
    if m != [] {
      InterleavingWithEmpty(m[1..], a[1..]);
      assert m == [m[0]] + m[1..] && a == [a[0]] + a[1..];
    }
  }

  /** Draining `a` and then `b` is one interleaving of them. */
  lemma {:induction false} ConcatIsInterleaving<T>(a: seq<T>, b: seq<T>)
    ensures IsInterleaving(a + b, a, b)
    decreases |a| + |b|
  {
    if a != [] {
      ConcatIsInterleaving(a[1..], b);
      assert (a + b)[1..] == a[1..] + b;
    } else if b != [] {
      ConcatIsInterleaving(a, b[1..]);
      assert (a + b)[1..] == a + b[1..];
    }
  }

  /** The merge of `a` and `b` under a schedule: `true` takes the next element
      of `a`, `false` the next of `b` (a choice the exhausted stream cannot
      serve is skipped), and once the schedule ends what remains of `a` and
      then of `b` follows. */
  function Merge<T>(a: seq<T>, b: seq<T>, schedule: seq<bool>): (m: seq<T>)
    ensures IsInterleaving(m, a, b)
    decreases |schedule|
  {
    if schedule == [] then
      ConcatIsInterleaving(a, b);
      a + b
    else if schedule[0] && a != [] then
      [a[0]] + Merge(a[1..], b, schedule[1..])
    else if !schedule[0] && b != [] then
      [b[0]] + Merge(a, b[1..], schedule[1..])
    else
      Merge(a, b, schedule[1..])
  }

  /** Every interleaving is produced by some schedule, so quantifying over
      schedules of Merge quantifies over all interleavings. */
  lemma {:induction false} ScheduleOf<T>(m: seq<T>, a: seq<T>, b: seq<T>) returns (schedule: seq<bool>)
    requires IsInterleaving(m, a, b)
    ensures Merge(a, b, schedule) == m
    decreases |m|
  {
    if m == [] {
      schedule := [];
    } else if a != [] && m[0] == a[0] && IsInterleaving(m[1..], a[1..], b) {
      var rest := ScheduleOf(m[1..], a[1..], b);
      schedule := [true] + rest;
      assert schedule[1..] == rest;
      assert m == [m[0]] + m[1..];
    } else {
      var rest := ScheduleOf(m[1..], a, b[1..]);
      schedule := [false] + rest;
      assert schedule[1..] == rest;
      assert m == [m[0]] + m[1..];
    }
  }
}
