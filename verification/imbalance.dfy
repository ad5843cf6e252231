/**
 Per-label imbalance: the count of 1-entries in each label column, the imbalance ratio of
 each label (IRLbl) and their mean (MeanIR), as `get_irlb` and `get_tail_label` compute them.
 */
module Imbalance {
  import opened Frames

  /**
   The test a column must pass before its count of 1s is read from `value_counts()`;
   otherwise the column counts as 0.
   */
  datatype CountRule =
    | OnePresent   // get_irlb: the value 1 occurs in the column
    | TwoDistinct  // get_tail_label: the column holds more than one distinct value

  /** The number of rows whose entry in column `j` is 1. */
  function CountOnes(rows: seq<seq<int>>, j: nat): (c: nat)
    requires HasColumn(rows, j)
    ensures c <= |rows|
  {
    if rows == [] then 0
    else CountOnes(rows[..|rows| - 1], j) + (if rows[|rows| - 1][j] == 1 then 1 else 0)
  }

  /** `1 in df[c].value_counts()` */
  predicate HasOne(rows: seq<seq<int>>, j: nat)
    requires HasColumn(rows, j)
  {
    exists r :: 0 <= r < |rows| && rows[r][j] == 1
  }

  /** `len(df[c].value_counts()) > 1` */
  predicate Varies(rows: seq<seq<int>>, j: nat)
    requires HasColumn(rows, j)
  {
    exists r, s :: 0 <= r < |rows| && 0 <= s < |rows| && rows[r][j] != rows[s][j]
  }

  /** The count the loop of `get_irlb` (OnePresent) or `get_tail_label` (TwoDistinct) stores for column `j`. */
  function ColumnCount(y: Frame<int>, j: nat, rule: CountRule): nat
    requires y.Valid() && j < y.width
  {
    match rule
    case OnePresent => if HasOne(y.rows, j) then CountOnes(y.rows, j) else 0
    case TwoDistinct => if Varies(y.rows, j) then CountOnes(y.rows, j) else 0
  }

  /** The counts of all columns, in column order. */
  function Counts(y: Frame<int>, rule: CountRule): (c: seq<nat>)
    requires y.Valid()
    ensures |c| == y.width
    ensures forall j :: 0 <= j < y.width ==> c[j] == ColumnCount(y, j, rule)
  {
    seq(y.width, j requires 0 <= j < y.width => ColumnCount(y, j, rule))
  }

  /** `max(irpl)` over the counts. */
  function MaxCount(c: seq<nat>): (m: nat)
    requires |c| > 0
    ensures forall j :: 0 <= j < |c| ==> c[j] <= m
    ensures exists j :: 0 <= j < |c| && c[j] == m
  {
    if |c| == 1 then c[0]
    else
      var m' := MaxCount(c[..|c| - 1]);
      if c[|c| - 1] > m' then c[|c| - 1] else m'
  }

  /** The divisor of a count: the count itself, or 1 for a count of 0. */
  function Divisor(c: nat): (d: real)
    ensures d >= 1.0
    ensures c > 0 ==> d == c as real
  {
    if c > 0 then c as real else 1.0
  }

  /** Facts about `m / d` for a non-negative `m` and a divisor `d >= 1`. */
  lemma QuotientFacts(m: real, d: real)
    requires m >= 0.0 && d >= 1.0
    ensures m / d >= 0.0
    ensures d <= m ==> m / d >= 1.0
    ensures d == m ==> m / d == 1.0
    ensures d == 1.0 ==> m / d == m
  {
    var q := m / d;
    assert q * d == m;
    assert m - d == (q - 1.0) * d;
  }

  /** The IRLbl of a column with count `c` when the largest count is `m`. */
  function Ratio(m: nat, c: nat): (q: real)
    ensures q >= 0.0
    ensures q * Divisor(c) == m as real
    ensures c == 0 ==> q == m as real
    ensures c == m && c > 0 ==> q == 1.0
    ensures c <= m && m > 0 ==> q >= 1.0
  {
    QuotientFacts(m as real, Divisor(c));
    m as real / Divisor(c)
  }

  /**
   IRLbl of every column: the largest count divided by the column's own count (by 1 when
   that count is 0).
   */
  function Ratios(c: seq<nat>): (r: seq<real>)
    requires |c| > 0
    ensures |r| == |c|
    ensures forall j :: 0 <= j < |c| ==> r[j] == Ratio(MaxCount(c), c[j])
  {
    var m := MaxCount(c);
    seq(|c|, j requires 0 <= j < |c| => Ratio(m, c[j]))
  }

  function Sum(s: seq<real>): real {
    if s == [] then 0.0 else Sum(s[..|s| - 1]) + s[|s| - 1]
  }

  /** `np.average` */
  function Mean(s: seq<real>): real
    requires |s| > 0
  {
    Sum(s) / |s| as real
  }

  /** IRLbl of every label column of `y` under `rule`. */
  function IRLbl(y: Frame<int>, rule: CountRule): (r: seq<real>)
    requires y.Valid() && y.width > 0
    ensures |r| == y.width
  {
    Ratios(Counts(y, rule))
  }

  /** MeanIR of `y` under `rule`. */
  function MeanIR(y: Frame<int>, rule: CountRule): real
    requires y.Valid() && y.width > 0
  {
    Mean(IRLbl(y, rule))
  }

  /**
   On 0/1 labels a column that holds more than one distinct value holds a 1, so the lookup
   `vc[1]` that `get_tail_label` makes after its `len(vc) > 1` test finds an entry.
   */
  lemma VariesHasOne(y: Frame<int>, j: nat)
    requires y.Valid() && j < y.width && Binary(y)
    requires Varies(y.rows, j)
    ensures HasOne(y.rows, j)
  {
  }

  /**
   The loops of `get_irlb` (rule OnePresent) and `get_tail_label` (rule TwoDistinct) up to
   the mean: fill `irpl` with the column counts, divide the largest by each, average.
   */
  method ImbalanceRatios(y: Frame<int>, rule: CountRule) returns (irpl: seq<real>, mir: real)
    requires y.Valid() && y.width > 0
    ensures irpl == IRLbl(y, rule) && mir == MeanIR(y, rule)
  {
    var n := y.width;
    var counts := new nat[n];
    for column := 0 to n
      invariant forall k :: 0 <= k < column ==> counts[k] == ColumnCount(y, k, rule)
    {
      var present := if rule == OnePresent then HasOne(y.rows, column) else Varies(y.rows, column);
      if present {
        counts[column] := CountOnes(y.rows, column);
      } else {
        counts[column] := 0;
      }
    }
    assert counts[..] == Counts(y, rule);
    irpl := Ratios(counts[..]);
    mir := Mean(irpl);
  }

  // ---------------------------------------------------------------------------
  // Bounds of the mean

  function MinOf(s: seq<real>): (m: real)
    requires |s| > 0
    ensures forall i :: 0 <= i < |s| ==> m <= s[i]
    ensures exists i :: 0 <= i < |s| && s[i] == m
  {
    if |s| == 1 then s[0]
    else
      var m' := MinOf(s[..|s| - 1]);
      if s[|s| - 1] < m' then s[|s| - 1] else m'
  }

  function MaxOf(s: seq<real>): (m: real)
    requires |s| > 0
    ensures forall i :: 0 <= i < |s| ==> s[i] <= m
    ensures exists i :: 0 <= i < |s| && s[i] == m
  {
    if |s| == 1 then s[0]
    else
      var m' := MaxOf(s[..|s| - 1]);
      if s[|s| - 1] > m' then s[|s| - 1] else m'
  }

  /** A sum of values between `lo` and `hi` lies between |s|·lo and |s|·hi. */
  lemma {:induction false} SumBounds(s: seq<real>, lo: real, hi: real)
    requires forall i :: 0 <= i < |s| ==> lo <= s[i] <= hi
    ensures |s| as real * lo <= Sum(s) <= |s| as real * hi
  {
    if s != [] {
      var init := s[..|s| - 1];
      assert forall i :: 0 <= i < |init| ==> init[i] == s[i];
      SumBounds(init, lo, hi);
      assert |s| as real * lo == |init| as real * lo + lo;
      assert |s| as real * hi == |init| as real * hi + hi;
    }
  }

  /** The mean of values between `lo` and `hi` lies between them. */
  lemma MeanBounds(s: seq<real>, lo: real, hi: real)
    requires |s| > 0
    requires forall i :: 0 <= i < |s| ==> lo <= s[i] <= hi
    ensures lo <= Mean(s) <= hi
  {
    SumBounds(s, lo, hi);
    var n := |s| as real;
    assert Mean(s) * n == Sum(s);
  }

  /** The mean lies between the smallest and the largest value. */
  lemma MeanBetween(s: seq<real>)
    requires |s| > 0
    ensures MinOf(s) <= Mean(s) <= MaxOf(s)
  {
    MeanBounds(s, MinOf(s), MaxOf(s));
  }

  // ---------------------------------------------------------------------------
  // Properties of IRLbl and MeanIR

  /**
   Every IRLbl is at least 0; a column without 1s gets the largest count (not 0); a column
   with the largest, positive count gets 1; when some count is positive every IRLbl is at
   least 1; and MeanIR lies between the smallest and the largest IRLbl.
   */
  lemma IRLblFacts(y: Frame<int>, rule: CountRule)
    requires y.Valid() && y.width > 0
    ensures var c, r := Counts(y, rule), IRLbl(y, rule);
      && (forall j :: 0 <= j < y.width ==> r[j] >= 0.0)
      && (forall j :: 0 <= j < y.width && c[j] == 0 ==> r[j] == MaxCount(c) as real)
      && (forall j :: 0 <= j < y.width && c[j] == MaxCount(c) && c[j] > 0 ==> r[j] == 1.0)
      && (MaxCount(c) > 0 ==> forall j :: 0 <= j < y.width ==> r[j] >= 1.0)
      && MinOf(r) <= MeanIR(y, rule) <= MaxOf(r)
  {
    MeanBetween(IRLbl(y, rule));
  }

  /** When some count is positive, MeanIR is at least 1. */
  lemma MeanIRAtLeastOne(y: Frame<int>, rule: CountRule)
    requires y.Valid() && y.width > 0
    requires MaxCount(Counts(y, rule)) > 0
    ensures MeanIR(y, rule) >= 1.0
  {
    MeanBounds(IRLbl(y, rule), 1.0, MaxOf(IRLbl(y, rule)));
  }

  // ---------------------------------------------------------------------------
  // The two counting rules

  lemma {:induction false} CountOnesPositive(rows: seq<seq<int>>, j: nat)
    requires HasColumn(rows, j)
    ensures CountOnes(rows, j) > 0 <==> HasOne(rows, j)
  {
    if rows != [] {
      var init := rows[..|rows| - 1];
      CountOnesPositive(init, j);
      if HasOne(init, j) {
        var r :| 0 <= r < |init| && init[r][j] == 1;
        assert rows[r][j] == 1;
      }
      if HasOne(rows, j) && rows[|rows| - 1][j] != 1 {
        var r :| 0 <= r < |rows| && rows[r][j] == 1;
        assert init[r][j] == 1;
      }
    }
  }

  lemma {:induction false} CountOnesFull(rows: seq<seq<int>>, j: nat)
    requires HasColumn(rows, j)
    ensures CountOnes(rows, j) == |rows| <==> forall r :: 0 <= r < |rows| ==> rows[r][j] == 1
  {
    if rows != [] {
      var init := rows[..|rows| - 1];
      CountOnesFull(init, j);
      if CountOnes(rows, j) == |rows| {
        assert CountOnes(init, j) == |init|;
        forall r | 0 <= r < |rows| ensures rows[r][j] == 1 {
          if r < |init| { assert init[r][j] == 1; }
        }
      }
      if forall r :: 0 <= r < |rows| ==> rows[r][j] == 1 {
        assert forall r :: 0 <= r < |init| ==> init[r][j] == rows[r][j];
      }
    }
  }

  /**
   On a 0/1 column, `get_irlb` counts every 1, while `get_tail_label` counts them only when
   the column also holds a 0: the two rules differ exactly on a non-empty all-ones column,
   which `get_tail_label` counts as 0.
   */
  lemma CountRulesCompared(y: Frame<int>, j: nat)
    requires y.Valid() && j < y.width && Binary(y)
    ensures ColumnCount(y, j, OnePresent) == CountOnes(y.rows, j)
    ensures ColumnCount(y, j, TwoDistinct) == if CountOnes(y.rows, j) < |y.rows| then CountOnes(y.rows, j) else 0
    ensures ColumnCount(y, j, OnePresent) != ColumnCount(y, j, TwoDistinct)
        <==> |y.rows| > 0 && forall r :: 0 <= r < |y.rows| ==> y.rows[r][j] == 1
  {
    var rows := y.rows;
    CountOnesPositive(rows, j);
    CountOnesFull(rows, j);
    var c := CountOnes(rows, j);
    if 0 < c < |rows| {
      var a :| 0 <= a < |rows| && rows[a][j] == 1;
      var b :| 0 <= b < |rows| && rows[b][j] != 1;
      assert Varies(rows, j);
    }
  }
}
