/**
 * Small shared vocabulary: an Option type, Python's negative-index slice
 * `s[-k:]`, and the numeric folds (sum, maximum, count above a threshold)
 * that the detectors take over lists of reals.
 */
module Common {

  /** Python's `None` or a value. */
  datatype Option<T> = None | Some(value: T)

  /** A result, or the `ZeroDivisionError` Python raises for a division by zero. */
  datatype Outcome<T> = Ok(value: T) | ZeroDivisionError

  /** Python's `s[-k:]` for an integer k: the last k elements when 0 < k (all
      of s when k exceeds its length), all of s when k == 0 (because -0 == 0),
      and s without its first -k elements when k < 0. */
  function PySuffix<T>(s: seq<T>, k: int): (r: seq<T>)
    ensures 0 < k ==> |r| == (if k < |s| then k else |s|)
    ensures k == 0 ==> r == s
    ensures k < 0 ==> |r| == (if -k < |s| then |s| + k else 0)
    ensures r == s[|s| - |r|..]
  {
    if k > 0 then (if k >= |s| then s else s[|s| - k..])
    else if k == 0 then s
    else if -k >= |s| then [] else s[-k..]
  }

  /** The set of flagged identities after an observation of `id`: it holds
      `id` exactly when the observation is positive, and no other identity
      changes. An alert fires when `id` goes from unflagged to flagged. */
  function Latch(flags: set<int>, id: int, on: bool): (r: set<int>)
    ensures id in r <==> on
    ensures r - {id} == flags - {id}
  {
    if on then flags + {id} else flags - {id}
  }

  function Min(a: int, b: int): int { if a <= b then a else b }

  /** Left-to-right sum of a list of reals. */
  function Sum(s: seq<real>): real
  {
    if |s| == 0 then 0.0 else Sum(s[..|s| - 1]) + s[|s| - 1]
  }

  /** numpy's `max` over a non-empty list. */
  function Max(s: seq<real>): (m: real)
    requires |s| > 0
    ensures forall i :: 0 <= i < |s| ==> s[i] <= m
    ensures exists i :: 0 <= i < |s| && s[i] == m
  {
    if |s| == 1 then s[0]
    else
      var m' := Max(s[..|s| - 1]);
      assert forall i :: 0 <= i < |s| - 1 ==> s[..|s| - 1][i] == s[i];
      if s[|s| - 1] > m' then s[|s| - 1] else m'
  }

  /** Number of entries strictly above `t` (numpy's `(s > t).sum()`). */
  function CountAbove(s: seq<real>, t: real): (n: nat)
    ensures n <= |s|
  {
    if |s| == 0 then 0
    else CountAbove(s[..|s| - 1], t) + (if s[|s| - 1] > t then 1 else 0)
  }

  /** Every entry is bounded by `b`, so the sum is at most |s| * b. */
  lemma {:induction false} SumAtMost(s: seq<real>, b: real)
    requires forall i :: 0 <= i < |s| ==> s[i] <= b
    ensures Sum(s) <= |s| as real * b
  {
    if |s| > 0 {
      var p := s[..|s| - 1];
      assert forall i :: 0 <= i < |p| ==> p[i] == s[i];
      SumAtMost(p, b);
    }
  }

  /** Every entry is strictly above `b` in a non-empty list, so the sum is above |s| * b. */
  lemma {:induction false} SumAbove(s: seq<real>, b: real)
    requires |s| > 0
    requires forall i :: 0 <= i < |s| ==> s[i] > b
    ensures Sum(s) > |s| as real * b
  {
    var p := s[..|s| - 1];
    assert forall i :: 0 <= i < |p| ==> p[i] == s[i];
    if |p| > 0 {
      SumAbove(p, b);
    }
  }

  /** A list whose entries are all `c` sums to |s| * c. */
  lemma {:induction false} SumConstant(s: seq<real>, c: real)
    requires forall i :: 0 <= i < |s| ==> s[i] == c
    ensures Sum(s) == |s| as real * c
  {
    if |s| > 0 {
      var p := s[..|s| - 1];
      assert forall i :: 0 <= i < |p| ==> p[i] == s[i];
      SumConstant(p, c);
    }
  }

  /** When every entry is above `t`, all of them are counted. */
  lemma {:induction false} CountAboveAll(s: seq<real>, t: real)
    requires forall i :: 0 <= i < |s| ==> s[i] > t
    ensures CountAbove(s, t) == |s|
  {
    if |s| > 0 {
      var p := s[..|s| - 1];
      assert forall i :: 0 <= i < |p| ==> p[i] == s[i];
      CountAboveAll(p, t);
    }
  }

  /** When no entry is above `t`, none is counted. */
  lemma {:induction false} CountAboveNone(s: seq<real>, t: real)
    requires forall i :: 0 <= i < |s| ==> s[i] <= t
    ensures CountAbove(s, t) == 0
  {
    if |s| > 0 {
      var p := s[..|s| - 1];
      assert forall i :: 0 <= i < |p| ==> p[i] == s[i];
      CountAboveNone(p, t);
    }
  }

  /** A count of at most one means at most one position is above `t`. */
  lemma {:induction false} CountAtMostOneUnique(s: seq<real>, t: real, i: nat, j: nat)
    requires CountAbove(s, t) <= 1
    requires i < |s| && j < |s|
    requires s[i] > t && s[j] > t
    ensures i == j
  {
    var p := s[..|s| - 1];
    assert forall k :: 0 <= k < |p| ==> p[k] == s[k];
    if i == |s| - 1 && j != i {
      CountPositive(p, t, j);
    } else if j == |s| - 1 && i != j {
      CountPositive(p, t, i);
    } else if i != j {
      CountAtMostOneUnique(p, t, i, j);
    }
  }

  /** A position above `t` makes the count positive. */
  lemma {:induction false} CountPositive(s: seq<real>, t: real, i: nat)
    requires i < |s| && s[i] > t
    ensures CountAbove(s, t) >= 1
  {
    var p := s[..|s| - 1];
    assert forall k :: 0 <= k < |p| ==> p[k] == s[k];
    if i < |s| - 1 {
      CountPositive(p, t, i);
    }
  }
}
