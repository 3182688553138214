/** JavaScript's `Array.prototype.flat()` (depth one) on a list of lists,
    and where each element of the flat list comes from. */
module Nested {

  /** Total number of elements over all the inner sequences. */
  function TotalLength<T>(xs: seq<seq<T>>): nat {
    if xs == [] then 0 else |xs[0]| + TotalLength(xs[1..])
  }

  /** `rows.flat()`: the rows concatenated in order. */
  function Flatten<T>(rows: seq<seq<T>>): (flat: seq<T>)
    ensures |flat| == TotalLength(rows)
  {
    if rows == [] then [] else rows[0] + Flatten(rows[1..])
  }

  /** The (row, position) an index of the flat list comes from: the row is
      the one whose elements span that index, and the flat list holds that
      row's element there. */
  function Locate<T>(rows: seq<seq<T>>, k: nat): (p: (nat, nat))
    requires k < TotalLength(rows)
    ensures p.0 < |rows| && p.1 < |rows[p.0]|
    ensures k == TotalLength(rows[..p.0]) + p.1
    ensures Flatten(rows)[k] == rows[p.0][p.1]
  {
    if k < |rows[0]| then (0, k)
    else
      var p := Locate(rows[1..], k - |rows[0]|);
      assert rows[..p.0 + 1][1..] == rows[1..][..p.0];
      (p.0 + 1, p.1)
  }

  /** Element `j` of row `i` sits at index TotalLength(rows[..i]) + j of the
      flat list. */
  lemma {:induction false} FlattenAt<T>(rows: seq<seq<T>>, i: nat, j: nat)
    requires i < |rows| && j < |rows[i]|
    ensures TotalLength(rows[..i]) + j < |Flatten(rows)|
    ensures Flatten(rows)[TotalLength(rows[..i]) + j] == rows[i][j]
  {
    if i > 0 {
      FlattenAt(rows[1..], i - 1, j);
      assert rows[..i][1..] == rows[1..][..i - 1];
    }
  }

  /** Flattening distributes over concatenation of the outer list. */
  lemma {:induction false} FlattenAppend<T>(a: seq<seq<T>>, b: seq<seq<T>>)
    ensures Flatten(a + b) == Flatten(a) + Flatten(b)
  {
    if a == [] {
      assert a + b == b;
    } else {
      assert (a + b)[1..] == a[1..] + b;
      FlattenAppend(a[1..], b);
    }
  }

  /** Extending a prefix by one row adds that row's elements. */
  lemma {:induction false} TotalLengthPrefix<T>(rows: seq<seq<T>>, i: nat)
    requires i < |rows|
    ensures TotalLength(rows[..i + 1]) == TotalLength(rows[..i]) + |rows[i]|
  {
    if i > 0 {
      TotalLengthPrefix(rows[1..], i - 1);
      assert rows[..i + 1][1..] == rows[1..][..i];
      assert rows[..i][1..] == rows[1..][..i - 1];
    } else {
      assert rows[..1][1..] == [];
    }
  }

  /** Longer prefixes hold at least as many elements. */
  lemma {:induction false} TotalLengthMonotone<T>(rows: seq<seq<T>>, i: nat, j: nat)
    requires i <= j <= |rows|
    ensures TotalLength(rows[..i]) <= TotalLength(rows[..j])
    decreases j - i
  {
    if i < j {
      TotalLengthPrefix(rows, i);
      TotalLengthMonotone(rows, i + 1, j);
    }
  }

  /** Two lists of lists of the same shape hold equally many elements. */
  lemma {:induction false} SameShapeTotalLength<T, U>(a: seq<seq<T>>, b: seq<seq<U>>)
    requires |a| == |b|
    requires forall i :: 0 <= i < |a| ==> |a[i]| == |b[i]|
    ensures TotalLength(a) == TotalLength(b)
  {
    if a != [] {
      SameShapeTotalLength(a[1..], b[1..]);
    }
  }
}
