/**
 * What the three "second largest distinct element" programs compute, on
 * Java's 32-bit `int`: the largest value strictly below the maximum, with -1
 * standing for "there is none".
 */
module SecondLargestSpec {
  import opened Wrappers

  /** Java's `int`. */
  newtype int32 = x: int | -0x8000_0000 <= x < 0x8000_0000

  /** `Integer.MIN_VALUE`. */
  const MIN_VALUE: int32 := -0x8000_0000

  /** The largest element of a non-empty sequence. */
  function Largest(s: seq<int32>): (m: int32)
    requires |s| > 0
    ensures m in s && forall x :: x in s ==> x <= m
  {
    if |s| == 1 then s[0]
    else
      var m := Largest(s[..|s| - 1]);
      assert s == s[..|s| - 1] + [s[|s| - 1]];
      if s[|s| - 1] > m then s[|s| - 1] else m
  }

  /** The largest element strictly below `bound`, if there is one. */
  function MaxBelow(s: seq<int32>, bound: int32): (r: Option<int32>)
    ensures r.Some? ==> r.value in s && r.value < bound
    ensures r.Some? ==> forall x :: x in s && x < bound ==> x <= r.value
    ensures r.None? ==> forall x :: x in s ==> x >= bound
  {
    if s == [] then None
    else
      var r := MaxBelow(s[..|s| - 1], bound);
      var x := s[|s| - 1];
      assert s == s[..|s| - 1] + [x];
      if x < bound && (r.None? || x > r.value) then Some(x) else r
  }

  /** The second largest distinct value: the largest value strictly below
      the maximum, or None when `s` has fewer than two distinct values. */
  function SecondLargest(s: seq<int32>): Option<int32>
  {
    if s == [] then None else MaxBelow(s, Largest(s))
  }

  /** What `Better.findSecondLargest` and `BruteForce.findSecondLargest`
      return: the second largest value, or -1. */
  function ExactAnswer(s: seq<int32>): int32
  {
    match SecondLargest(s)
    case Some(v) => v
    case None => -1
  }

  /** What `Optimal.findSecondLargest` returns: like `ExactAnswer`, except
      that a second largest value of `Integer.MIN_VALUE` cannot be told apart
      from its starting sentinel and comes out as -1. */
  function SentinelAnswer(s: seq<int32>): int32
  {
    if |s| < 2 then -1
    else match SecondLargest(s)
      case Some(v) => if v == MIN_VALUE then -1 else v
      case None => -1
  }

  // ------------------------------------------------------------ characterisations

  lemma LargestIs(s: seq<int32>, m: int32)
    requires m in s && forall x :: x in s ==> x <= m
    ensures Largest(s) == m
  {
  }

  lemma MaxBelowIs(s: seq<int32>, bound: int32, v: int32)
    requires v in s && v < bound && forall x :: x in s && x < bound ==> x <= v
    ensures MaxBelow(s, bound) == Some(v)
  {
  }

  /** There is a second largest value exactly when `s` holds two different
      values. */
  lemma SecondLargestExistsIff(s: seq<int32>)
    ensures SecondLargest(s).Some? <==> exists i, j :: 0 <= i < |s| && 0 <= j < |s| && s[i] != s[j]
  {
    if i, j :| 0 <= i < |s| && 0 <= j < |s| && s[i] != s[j] {
      var lo := if s[i] < s[j] then s[i] else s[j];
      var hi := if s[i] < s[j] then s[j] else s[i];
      assert hi in s && lo in s;
      assert lo < hi <= Largest(s);
    }
    if SecondLargest(s).Some? {
      var v := SecondLargest(s).value;
      SecondLargestIsBelowMax(s);
      var i :| 0 <= i < |s| && s[i] == v;
      var j :| 0 <= j < |s| && s[j] == Largest(s);
      assert s[i] != s[j];
    }
  }

  /** The second largest value is an element below the maximum that is at
      least every other element below the maximum. */
  lemma SecondLargestIsBelowMax(s: seq<int32>)
    ensures SecondLargest(s).Some? ==>
      s != [] && SecondLargest(s).value in s && SecondLargest(s).value < Largest(s) &&
      forall x :: x in s && x < Largest(s) ==> x <= SecondLargest(s).value
  {
  }

  /** Fewer than two elements, or all elements equal: there is none. */
  lemma NoSecondLargest(s: seq<int32>)
    requires |s| < 2 || forall i :: 0 <= i < |s| ==> s[i] == s[0]
    ensures SecondLargest(s) == None
    ensures ExactAnswer(s) == -1 && SentinelAnswer(s) == -1
  {
    if s != [] {
      forall x | x in s ensures x >= Largest(s) {
        var i :| 0 <= i < |s| && s[i] == x;
        var j :| 0 <= j < |s| && s[j] == Largest(s);
        assert s[i] == s[0] == s[j];
      }
    }
  }

  /** The answer depends only on which values occur, not on their order or
      how often they repeat. */
  lemma SecondLargestOfSameValues(s: seq<int32>, t: seq<int32>)
    requires forall x :: x in s <==> x in t
    ensures SecondLargest(s) == SecondLargest(t)
    ensures ExactAnswer(s) == ExactAnswer(t)
  {
    if s != [] {
      assert s[0] in t;
      LargestIs(t, Largest(s));
      var m := Largest(s);
      match MaxBelow(s, m)
      case Some(v) => MaxBelowIs(t, m, v);
      case None =>
        assert forall x :: x in t ==> x >= m;
    }
  }

  /** The two answers agree on every input except one whose second largest
      value is `Integer.MIN_VALUE`. */
  lemma AnswersAgreeUnlessMinValue(s: seq<int32>)
    ensures SentinelAnswer(s) == ExactAnswer(s) <==> SecondLargest(s) != Some(MIN_VALUE)
  {
    if |s| < 2 {
      NoSecondLargest(s);
    }
  }

  /** On [5, MIN_VALUE] the sentinel answer is -1 although the second largest
      value is MIN_VALUE. */
  lemma MinValueIsLostBySentinel()
    ensures SecondLargest([5, MIN_VALUE]) == Some(MIN_VALUE)
    ensures SentinelAnswer([5, MIN_VALUE]) == -1 && ExactAnswer([5, MIN_VALUE]) == MIN_VALUE
  {
    var s: seq<int32> := [5, MIN_VALUE];
    LargestIs(s, 5);
    MaxBelowIs(s, 5, MIN_VALUE);
  }

  // ------------------------------------------------------------ growing a prefix

  /** Appending a value already present changes neither the maximum nor the
      second largest value. */
  lemma AppendSeen(s: seq<int32>, x: int32)
    requires x in s
    ensures Largest(s + [x]) == Largest(s)
    ensures SecondLargest(s + [x]) == SecondLargest(s)
  {
    SecondLargestOfSameValues(s + [x], s);
    LargestIs(s + [x], Largest(s));
  }

  /** Appending a new maximum makes the old maximum the second largest. */
  lemma AppendAbove(s: seq<int32>, x: int32)
    requires s != [] && x > Largest(s)
    ensures Largest(s + [x]) == x
    ensures SecondLargest(s + [x]) == Some(Largest(s))
  {
    LargestIs(s + [x], x);
    MaxBelowIs(s + [x], x, Largest(s));
  }

  /** Appending a new value below the maximum keeps the maximum and may raise
      the second largest to it. */
  lemma AppendBelow(s: seq<int32>, x: int32)
    requires s != [] && x !in s && x <= Largest(s)
    ensures Largest(s + [x]) == Largest(s)
    ensures SecondLargest(s + [x]) ==
      match SecondLargest(s)
      case None => Some(x)
      case Some(v) => if x > v then Some(x) else Some(v)
  {
    var m := Largest(s);
    LargestIs(s + [x], m);
    match SecondLargest(s)
    case None => MaxBelowIs(s + [x], m, x);
    case Some(v) => MaxBelowIs(s + [x], m, if x > v then x else v);
  }
}
