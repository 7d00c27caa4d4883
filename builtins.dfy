/**
 The handful of Python built-in behaviours the river generator leans on:
 negative list indexing, floor division, `min`/`max` over a list,
 `list.remove`, and `ndarray.flatten`.
 */
module Builtins {

  datatype Option<T> = None | Some(value: T)

  /** No element occurs twice. */
  predicate Distinct<T(==)>(s: seq<T>) {
    forall i, j :: 0 <= i < j < |s| ==> s[i] != s[j]
  }

  /** Python's resolution of the subscript `xs[i]` on a list of length `n`:
      indices in [-n, n) are accepted and count modulo `n`; anything else
      raises IndexError (here: None). */
  function PyIndex(i: int, n: nat): (r: Option<nat>)
    ensures r.Some? <==> -(n as int) <= i < n
    ensures r.Some? ==> r.value < n && r.value == if i < 0 then i + n else i
  {
    if 0 <= i < n then Some(i)
    else if -(n as int) <= i < 0 then Some(i + n)
    else None
  }

  /** An accepted subscript names the slot congruent to it modulo `n`. */
  lemma {:induction false} PyIndexModulo(i: int, n: nat)
    requires PyIndex(i, n).Some?
    ensures PyIndex(i, n).value == i % n
  {
    if i < 0 {
      assert i == (i + n) - n;
    }
  }

  /** Python's `a // b` on integers: the quotient rounded towards minus
      infinity (b == 0 raises ZeroDivisionError, excluded here). */
  function FloorDiv(a: int, b: int): (q: int)
    requires b != 0
    ensures b > 0 ==> q * b <= a < q * b + b
    ensures b < 0 ==> q * b + b < a <= q * b
  {
    if b > 0 then a / b else (-a) / (-b)
  }

  /** Python's `min(xs)`; an empty list raises ValueError. */
  function MinOf(s: seq<int>): (m: int)
    requires |s| > 0
    ensures m in s
    ensures forall x :: x in s ==> m <= x
  {
    if |s| == 1 then s[0]
    else
      var rest := MinOf(s[1..]);
      assert forall x :: x in s ==> x == s[0] || x in s[1..];
      if s[0] <= rest then s[0] else rest
  }

  /** Python's `max(xs)`; an empty list raises ValueError. */
  function MaxOf(s: seq<int>): (m: int)
    requires |s| > 0
    ensures m in s
    ensures forall x :: x in s ==> x <= m
  {
    if |s| == 1 then s[0]
    else
      var rest := MaxOf(s[1..]);
      assert forall x :: x in s ==> x == s[0] || x in s[1..];
      if s[0] >= rest then s[0] else rest
  }

  /** `ndarray.flatten()` on a 2-D array: the rows laid end to end. */
  function Flatten(rows: seq<seq<int>>): seq<int> {
    if rows == [] then [] else rows[0] + Flatten(rows[1..])
  }

  /** Every entry of the 2-D array is in the flattened list, and every
      element of the flattened list is an entry of the 2-D array. */
  lemma {:induction false} FlattenMembers(rows: seq<seq<int>>)
    ensures forall i, j :: 0 <= i < |rows| && 0 <= j < |rows[i]| ==> rows[i][j] in Flatten(rows)
    ensures forall x :: x in Flatten(rows) ==>
              exists i, j :: 0 <= i < |rows| && 0 <= j < |rows[i]| && rows[i][j] == x
  {
    if rows != [] {
      var tail := rows[1..];
      FlattenMembers(tail);
      forall i, j | 0 <= i < |rows| && 0 <= j < |rows[i]|
        ensures rows[i][j] in Flatten(rows)
      {
        if i > 0 {
          assert rows[i] == tail[i - 1];
          assert tail[i - 1][j] in Flatten(tail);
        }
      }
      forall x | x in Flatten(rows)
        ensures exists i, j :: 0 <= i < |rows| && 0 <= j < |rows[i]| && rows[i][j] == x
      {
        if x in rows[0] {
          var j :| 0 <= j < |rows[0]| && rows[0][j] == x;
          assert rows[0][j] == x;
        } else {
          assert x in Flatten(tail);
          var i, j :| 0 <= i < |tail| && 0 <= j < |tail[i]| && tail[i][j] == x;
          assert rows[i + 1][j] == x;
        }
      }
    }
  }

  /** min and max over the flattened grid bound every entry, and each is
      taken by some entry. */
  lemma {:induction false} GridMinMax(rows: seq<seq<int>>)
    requires |rows| > 0 && |rows[0]| > 0
    ensures |Flatten(rows)| > 0
    ensures forall i, j :: 0 <= i < |rows| && 0 <= j < |rows[i]| ==>
              MinOf(Flatten(rows)) <= rows[i][j] <= MaxOf(Flatten(rows))
    ensures exists i, j :: 0 <= i < |rows| && 0 <= j < |rows[i]| && rows[i][j] == MinOf(Flatten(rows))
    ensures exists i, j :: 0 <= i < |rows| && 0 <= j < |rows[i]| && rows[i][j] == MaxOf(Flatten(rows))
  {
    FlattenMembers(rows);
    assert rows[0][0] in Flatten(rows);
    var lo, hi := MinOf(Flatten(rows)), MaxOf(Flatten(rows));
    assert lo in Flatten(rows) && hi in Flatten(rows);
  }

  /** Python's `xs.remove(x)`: drop the first occurrence of `x` (absent
      `x` raises ValueError, excluded here). */
  function Remove<T(==)>(s: seq<T>, x: T): seq<T>
    requires x in s
  {
    if s[0] == x then s[1..] else [s[0]] + Remove(s[1..], x)
  }

  /** `xs.remove(x)` takes exactly one occurrence of `x` out of the list:
      one element fewer, the same multiset less one `x`, and every other
      value kept. */
  lemma {:induction false} RemoveSpec<T>(s: seq<T>, x: T)
    requires x in s
    ensures |Remove(s, x)| == |s| - 1
    ensures multiset(Remove(s, x)) == multiset(s) - multiset{x}
    ensures forall y :: y in Remove(s, x) ==> y in s
    ensures forall y :: y in s && y != x ==> y in Remove(s, x)
  {
    assert s == [s[0]] + s[1..];
    if s[0] != x {
      RemoveSpec(s[1..], x);
    }
  }

  /** Removing the value found at index `i`, when it does not occur
      earlier, drops exactly that slot. */
  lemma {:induction false} RemoveAt<T>(s: seq<T>, i: nat)
    requires i < |s| && forall k :: 0 <= k < i ==> s[k] != s[i]
    ensures Remove(s, s[i]) == s[..i] + s[i + 1..]
  {
    if i == 0 {
      assert s[..0] + s[1..] == s[1..];
    } else {
      var tail := s[1..];
      assert s[0] != s[i];
      RemoveAt(tail, i - 1);
      assert s[..i] + s[i + 1..] == [s[0]] + (tail[..i - 1] + tail[i..]);
    }
  }

  /** On a list without repetitions, removing the element found at index
      `i` drops exactly that slot, removes exactly that value, and leaves a
      list that still has no repetitions. */
  lemma {:induction false} RemoveDistinct<T>(s: seq<T>, i: nat)
    requires Distinct(s) && i < |s|
    ensures Remove(s, s[i]) == s[..i] + s[i + 1..]
    ensures Distinct(Remove(s, s[i]))
    ensures forall y :: y in Remove(s, s[i]) <==> y in s && y != s[i]
  {
    RemoveAt(s, i);
    DropSlot(s, i);
  }

  lemma {:induction false} DropSlot<T>(s: seq<T>, i: nat)
    requires Distinct(s) && i < |s|
    ensures Distinct(s[..i] + s[i + 1..])
    ensures forall y :: y in s[..i] + s[i + 1..] <==> y in s && y != s[i]
  {
    var r := s[..i] + s[i + 1..];
    forall k | 0 <= k < |r| ensures r[k] == s[if k < i then k else k + 1] {
      if k < i { assert r[k] == s[..i][k]; } else { assert r[k] == s[i + 1..][k - i]; }
    }
    forall y | y in s && y != s[i] ensures y in r {
      var k :| 0 <= k < |s| && s[k] == y;
      if k < i { assert r[k] == y; } else { assert r[k - 1] == y; }
    }
  }

  /** A list without repetitions has as many distinct elements as slots. */
  lemma {:induction false} DistinctCard<T>(s: seq<T>)
    requires Distinct(s)
    ensures |set x | x in s| == |s|
  {
    if s != [] {
      var tail := s[1..];
      DistinctCard(tail);
      assert s[0] !in tail;
      assert (set x | x in s) == {s[0]} + (set x | x in tail);
    }
  }
}
