/**
 * The "append if new" loop that both the frontier explorer and the wall
 * store run: walk a list of candidates in order and append each one that is
 * neither blocked nor already present in the list being extended.
 */
module Dedupe {

  /** No element occurs twice. */
  predicate NoDup<T(==)>(s: seq<T>) {
    forall i, j :: 0 <= i < j < |s| ==> s[i] != s[j]
  }

  /**
   * The list `acc` after the loop `for x in xs: if x not in blocked and
   * x not in acc: acc.append(x)`, defined on the last candidate so that
   * a loop over a growing prefix of `xs` follows it step by step.
   */
  function AppendAbsent<T(==)>(acc: seq<T>, blocked: seq<T>, xs: seq<T>): (r: seq<T>)
    ensures |acc| <= |r| <= |acc| + |xs|
    ensures r[..|acc|] == acc
    ensures forall i :: |acc| <= i < |r| ==> r[i] in xs && r[i] !in blocked
    ensures forall x :: x in xs ==> x in blocked || x in r
    decreases |xs|
  {
    if xs == [] then acc
    else
      var r := AppendAbsent(acc, blocked, xs[..|xs| - 1]);
      var x := xs[|xs| - 1];
      assert forall y :: y in xs[..|xs| - 1] ==> y in xs;
      if x !in blocked && x !in r then r + [x] else r
  }

  /** Appending only absent elements keeps a duplicate-free list duplicate-free. */
  lemma {:induction false} AppendAbsentNoDup<T>(acc: seq<T>, blocked: seq<T>, xs: seq<T>)
    requires NoDup(acc)
    ensures NoDup(AppendAbsent(acc, blocked, xs))
    decreases |xs|
  {
    if xs != [] {
      AppendAbsentNoDup(acc, blocked, xs[..|xs| - 1]);
    }
  }

  /** The elements of the result are exactly the old ones plus the unblocked candidates. */
  lemma AppendAbsentMembers<T>(acc: seq<T>, blocked: seq<T>, xs: seq<T>, x: T)
    ensures x in AppendAbsent(acc, blocked, xs) <==> x in acc || (x in xs && x !in blocked)
  {
    var r := AppendAbsent(acc, blocked, xs);
    if x in r {
      var i :| 0 <= i < |r| && r[i] == x;
      if i < |acc| {
        assert acc[i] == r[..|acc|][i];
      }
    }
    if x in acc {
      var i :| 0 <= i < |acc| && acc[i] == x;
      assert r[..|acc|][i] == x;
    }
  }

  /** Reference definition: the candidates, in order, that are neither blocked nor in `acc`. */
  function NewItems<T(==)>(acc: seq<T>, blocked: seq<T>, xs: seq<T>): (r: seq<T>)
    ensures forall y :: y in r ==> y in xs && y !in blocked && y !in acc
    decreases |xs|
  {
    if xs == [] then []
    else
      var x := xs[|xs| - 1];
      assert forall y :: y in xs[..|xs| - 1] ==> y in xs;
      NewItems(acc, blocked, xs[..|xs| - 1]) + (if x !in blocked && x !in acc then [x] else [])
  }

  /**
   * For duplicate-free candidates the loop appends exactly the filtered
   * candidates after the old contents, in candidate order.
   */
  lemma {:induction false} AppendAbsentIsFilter<T>(acc: seq<T>, blocked: seq<T>, xs: seq<T>)
    requires NoDup(xs)
    ensures AppendAbsent(acc, blocked, xs) == acc + NewItems(acc, blocked, xs)
    decreases |xs|
  {
    if xs != [] {
      var front := xs[..|xs| - 1];
      var x := xs[|xs| - 1];
      assert NoDup(front);
      AppendAbsentIsFilter(acc, blocked, front);
      assert x !in front;
      var added := NewItems(acc, blocked, front);
      assert x !in added;
      assert x in acc + added <==> x in acc;
    }
  }
}
