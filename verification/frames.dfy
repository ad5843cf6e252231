/**
 Data frames as the pipeline handles them: a number of columns and a sequence of rows.
 A row's position in the sequence stands for its index label, and column j for the j-th
 column name.
 */
module Frames {

  /** A frame of `width` columns; `rows[r]` is the row at position `r`. */
  datatype Frame<T> = Frame(width: nat, rows: seq<seq<T>>)
  {
    /** Every row has one entry per column. */
    predicate Valid() {
      forall r :: 0 <= r < |rows| ==> |rows[r]| == width
    }

    /** `pd.concat([this, other])`: the rows of `other` below the rows of this frame. */
    function Concat(other: Frame<T>): (f: Frame<T>)
      requires width == other.width
      ensures f.width == width && |f.rows| == |rows| + |other.rows|
      ensures f.rows[..|rows|] == rows && f.rows[|rows|..] == other.rows
      ensures Valid() && other.Valid() ==> f.Valid()
    {
      Frame(width, rows + other.rows)
    }
  }

  /** A feature frame and a label frame describing the same samples, row for row. */
  predicate Aligned(X: Frame<real>, y: Frame<int>) {
    X.Valid() && y.Valid() && |X.rows| == |y.rows|
  }

  /** Every row has an entry in column `j`. */
  predicate HasColumn<T>(rows: seq<seq<T>>, j: nat) {
    forall r :: 0 <= r < |rows| ==> j < |rows[r]|
  }

  /** Every label entry is 0 or 1. */
  predicate Binary(y: Frame<int>) {
    forall r, j :: 0 <= r < |y.rows| && 0 <= j < |y.rows[r]| ==> y.rows[r][j] == 0 || y.rows[r][j] == 1
  }

  /** Stacking two 0/1 label frames gives a 0/1 label frame. */
  lemma ConcatBinary(a: Frame<int>, b: Frame<int>)
    requires a.width == b.width && Binary(a) && Binary(b)
    ensures Binary(a.Concat(b))
  {
    var c := a.Concat(b);
    forall r, j | 0 <= r < |c.rows| && 0 <= j < |c.rows[r]|
      ensures c.rows[r][j] == 0 || c.rows[r][j] == 1
    {
      if r < |a.rows| {
        assert c.rows[r] == a.rows[r];
      } else {
        assert c.rows[r] == b.rows[r - |a.rows|];
      }
    }
  }

  predicate Increasing(p: seq<nat>) {
    forall i, k :: 0 <= i < k < |p| ==> p[i] < p[k]
  }

  /** The positions below `n` that `idx` holds, in ascending order. */
  function Positions(n: nat, idx: set<nat>): (p: seq<nat>)
    ensures forall i :: 0 <= i < |p| ==> p[i] < n && p[i] in idx
    ensures forall r: nat :: r < n && r in idx ==> r in p
  {
    if n == 0 then []
    else Positions(n - 1, idx) + (if n - 1 in idx then [n - 1] else [])
  }

  /** The positions come in ascending order, so none is repeated. */
  lemma {:induction false} PositionsIncreasing(n: nat, idx: set<nat>)
    ensures Increasing(Positions(n, idx))
  {
    if n > 0 {
      PositionsIncreasing(n - 1, idx);
    }
  }

  /** Going from `n - 1` to `n` appends position `n - 1` exactly when `idx` holds it. */
  lemma PositionsStep(n: nat, idx: set<nat>)
    requires n > 0
    ensures |Positions(n, idx)| == |Positions(n - 1, idx)| + (if n - 1 in idx then 1 else 0)
  {
  }

  /** Going from `n - 1` to `n` adds position `n - 1` exactly when `idx` holds it. */
  lemma IndexBelowStep(n: nat, idx: set<nat>)
    requires n > 0
    ensures |set r: nat | r < n && r in idx| == |set r: nat | r < n - 1 && r in idx| + (if n - 1 in idx then 1 else 0)
  {
    var upTo := set r: nat | r < n && r in idx;
    var below := set r: nat | r < n - 1 && r in idx;
    if n - 1 in idx {
      assert upTo == below + {n - 1};
    } else {
      assert upTo == below;
    }
  }

  /** One position per member of `idx` below `n`: no position is lost or repeated. */
  lemma {:induction false} PositionsCount(n: nat, idx: set<nat>)
    ensures |Positions(n, idx)| == |set r: nat | r < n && r in idx|
  {
    if n == 0 {
      assert (set r: nat | r < n && r in idx) == {};
    } else {
      PositionsCount(n - 1, idx);
      IndexBelowStep(n, idx);
      PositionsStep(n, idx);
    }
  }

  /** When every member of `idx` is a position below `n`, there are exactly |idx| positions. */
  lemma PositionsOfIndex(n: nat, idx: set<nat>)
    requires forall r :: r in idx ==> r < n
    ensures |Positions(n, idx)| == |idx|
  {
    PositionsCount(n, idx);
    assert (set r: nat | r < n && r in idx) == idx;
  }

  /**
   The rows whose position `idx` holds, in their original order and renumbered from 0:
   `f[f.index.isin(idx)].reset_index(drop=True)`.
   */
  function Restrict<T>(f: Frame<T>, idx: set<nat>): (g: Frame<T>)
    ensures g.width == f.width
    ensures |g.rows| == |Positions(|f.rows|, idx)|
    ensures forall i :: 0 <= i < |g.rows| ==> g.rows[i] == f.rows[Positions(|f.rows|, idx)[i]]
    ensures f.Valid() ==> g.Valid()
  {
    var p := Positions(|f.rows|, idx);
    Frame(f.width, seq(|p|, i requires 0 <= i < |p| => f.rows[p[i]]))
  }
}
