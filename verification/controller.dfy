/**
 The two drivers: `MLSMOTE`, one pass of minority selection and augmentation, and
 `MLSMOTE_iterative`, which repeats the pass from the accumulated data while the mean
 imbalance ratio improves (or stays above a threshold).
 */
module Controller {
  import opened Wrappers
  import opened Frames
  import opened Imbalance
  import opened Tail
  import opened Minority
  import opened Synthesis

  /** Data the imbalance measures accept: aligned frames, at least one label column, 0/1 labels. */
  predicate Labelled(X: Frame<real>, y: Frame<int>) {
    Aligned(X, y) && y.width > 0 && Binary(y)
  }

  /** The nearest-neighbour search, as a function of the feature rows; it succeeds on 5 rows or more. */
  ghost predicate SearchOK(knn: seq<seq<real>> -> seq<seq<nat>>) {
    forall rows: seq<seq<real>> {:trigger knn(rows)} :: |rows| >= 5 ==> NeighbourTable(knn(rows), |rows|)
  }

  /** `x` and `y` start with the rows of `X` and `Y`. */
  predicate Extends(X: Frame<real>, Y: Frame<int>, x: Frame<real>, y: Frame<int>) {
    && |X.rows| <= |x.rows| && |Y.rows| <= |y.rows|
    && x.rows[..|X.rows|] == X.rows && y.rows[..|Y.rows|] == Y.rows
  }

  /**
   `pd.concat([X, X_res])` and `pd.concat([y, y_res])` for `X_res, y_res = augment(xs, ys,
   n_sample)`: the rows of `X` and `Y`, then `xs` and `ys` themselves, then the synthetic
   samples. Fails when `xs` has fewer than 5 rows or no columns, as the neighbour search does.
   */
  function Stack(X: Frame<real>, Y: Frame<int>, xs: Frame<real>, ys: Frame<int>, nSample: Option<nat>,
                 knn: seq<seq<real>> -> seq<seq<nat>>, g: Generator, pos: nat): (r: Result<Augmentation, Error>)
    requires Labelled(X, Y) && Aligned(xs, ys) && Binary(ys) && xs.width == X.width && ys.width == Y.width
    requires Ranged(g) && SearchOK(knn)
    ensures r.Failure? <==> |xs.rows| < 5 || xs.width == 0
    ensures r.Failure? ==> r.error == if |xs.rows| > 0 && xs.width == 0 then NoFeatures else TooFewSamples
    ensures r.Success? ==> Labelled(r.value.x, r.value.y) && r.value.x.width == X.width && r.value.y.width == Y.width
    ensures r.Success? ==> Extends(X, Y, r.value.x, r.value.y)
    ensures r.Success? ==> |r.value.x.rows| == |X.rows| + |xs.rows| + SampleCount(ys, nSample)
  {
    var a := Synthesized(xs, ys, nSample, knn(xs.rows), g, pos);
    if a.Failure? then Failure(a.error)
    else
      SynthesizedShape(xs, ys, nSample, knn(xs.rows), g, pos);
      SynthesizedBinary(xs, ys, nSample, knn(xs.rows), g, pos);
      ConcatBinary(Y, a.value.y);
      Success(Augmentation(X.Concat(a.value.x), Y.Concat(a.value.y), a.value.next))
  }

  /**
   A successful `Stack` holds `X` and `Y`, then `xs` and `ys`, then the synthetic rows that
   `augment(xs, ys, n_sample)` appends to them.
   */
  lemma StackLayout(X: Frame<real>, Y: Frame<int>, xs: Frame<real>, ys: Frame<int>, nSample: Option<nat>,
                    knn: seq<seq<real>> -> seq<seq<nat>>, g: Generator, pos: nat, a: Augmentation)
    requires Labelled(X, Y) && Aligned(xs, ys) && Binary(ys) && xs.width == X.width && ys.width == Y.width
    requires Ranged(g) && SearchOK(knn)
    requires Stack(X, Y, xs, ys, nSample, knn, g, pos) == Success(a)
    ensures Searchable(xs, ys, knn(xs.rows), g)
    ensures Synthesized(xs, ys, nSample, knn(xs.rows), g, pos).Success?
    ensures
      var n, s := |X.rows|, Synthesized(xs, ys, nSample, knn(xs.rows), g, pos).value;
      && n + |xs.rows| <= |a.x.rows| && n + |ys.rows| <= |a.y.rows|
      && a.x.rows[..n] == X.rows && a.y.rows[..n] == Y.rows
      && a.x.rows[n..n + |xs.rows|] == xs.rows && a.y.rows[n..n + |ys.rows|] == ys.rows
      && a.x.rows[n + |xs.rows|..] == s.x.rows[|xs.rows|..] && a.y.rows[n + |ys.rows|..] == s.y.rows[|ys.rows|..]
  {
    var s := Synthesized(xs, ys, nSample, knn(xs.rows), g, pos).value;
    SynthesizedShape(xs, ys, nSample, knn(xs.rows), g, pos);
    assert a.x == X.Concat(s.x) && a.y == Y.Concat(s.y);
    SliceFrom(X.Concat(s.x).rows, |X.rows|, xs.rows);
    SliceFrom(Y.Concat(s.y).rows, |Y.rows|, ys.rows);
    DropAfter(X.rows, s.x.rows, |xs.rows|);
    DropAfter(Y.rows, s.y.rows, |ys.rows|);
  }

  /** Dropping `|p| + k` entries of `p + q` leaves `q` without its first `k`. */
  lemma DropAfter<T>(p: seq<T>, q: seq<T>, k: nat)
    requires k <= |q|
    ensures (p + q)[|p| + k..] == q[k..]
  {
  }

  /** When the rows of `f` from `n` on start with `sub`, the slice of `f` from `n` is `sub`. */
  lemma SliceFrom<T>(f: seq<T>, n: nat, sub: seq<T>)
    requires n <= |f| && |sub| <= |f| - n && f[n..][..|sub|] == sub
    ensures f[n..n + |sub|] == sub
  {
  }

  /**
   `X_res, y_res` of `MLSMOTE` for the minority subset of `x`, `y`, stacked under `X` and
   `Y`: fails when the subset has fewer than 5 rows or there are no features.
   */
  function Oversample(X: Frame<real>, Y: Frame<int>, x: Frame<real>, y: Frame<int>, nSample: Option<nat>,
                      knn: seq<seq<real>> -> seq<seq<nat>>, g: Generator, pos: nat): (r: Result<Augmentation, Error>)
    requires Labelled(X, Y) && Labelled(x, y) && x.width == X.width && y.width == Y.width
    requires Ranged(g) && SearchOK(knn)
    ensures r.Failure? <==> |MinorityIndex(y)| < 5 || x.width == 0
    ensures r.Failure? ==> r.error == if |MinorityIndex(y)| > 0 && x.width == 0 then NoFeatures else TooFewSamples
    ensures r.Success? ==> Labelled(r.value.x, r.value.y) && r.value.x.width == X.width && r.value.y.width == Y.width
    ensures r.Success? ==> Extends(X, Y, r.value.x, r.value.y)
    ensures r.Success? ==> |r.value.x.rows| == |X.rows| + |MinorityIndex(y)| + SampleCount(y, nSample)
  {
    var sub := MinorityInstance(x, y);
    Stack(X, Y, sub.0, sub.1, nSample, knn, g, pos)
  }

  /**
   `MLSMOTE(X, y, n_sample)` with the draws from position `pos`: the input rows, then the
   minority rows once more, then n_sample synthetic rows (5 per label column by default);
   or the error `augment` raises on a minority subset of fewer than 5 rows or on a feature
   frame without columns.
   */
  function MLSMOTE(X: Frame<real>, y: Frame<int>, nSample: Option<nat>,
                   knn: seq<seq<real>> -> seq<seq<nat>>, g: Generator, pos: nat): (r: Result<Augmentation, Error>)
    requires Labelled(X, y) && Ranged(g) && SearchOK(knn)
    ensures r.Failure? <==> |MinorityIndex(y)| < 5 || X.width == 0
    ensures r.Success? ==> Labelled(r.value.x, r.value.y) && r.value.x.width == X.width && r.value.y.width == y.width
    ensures r.Success? ==> |r.value.x.rows| == |X.rows| + |MinorityIndex(y)| + SampleCount(y, nSample)
  {
    Oversample(X, y, X, y, nSample, knn, g, pos)
  }

  /**
   The layout of a successful `MLSMOTE`: the input rows, then the minority subset `xs`, `ys`
   as `get_minority_instace` returns it (the selected rows in their original order, by
   `MinorityInOrder`), then the synthetic rows `augment(xs, ys, n_sample)` makes.
   */
  lemma MLSMOTELayout(X: Frame<real>, y: Frame<int>, nSample: Option<nat>,
                      knn: seq<seq<real>> -> seq<seq<nat>>, g: Generator, pos: nat,
                      a: Augmentation, xs: Frame<real>, ys: Frame<int>)
    requires Labelled(X, y) && Ranged(g) && SearchOK(knn)
    requires MLSMOTE(X, y, nSample, knn, g, pos) == Success(a)
    requires (xs, ys) == MinorityInstance(X, y)
    ensures Searchable(xs, ys, knn(xs.rows), g)
    ensures Synthesized(xs, ys, nSample, knn(xs.rows), g, pos).Success?
    ensures
      var n, s := |X.rows|, Synthesized(xs, ys, nSample, knn(xs.rows), g, pos).value;
      && n + |xs.rows| <= |a.x.rows| && n + |ys.rows| <= |a.y.rows|
      && a.x.rows[..n] == X.rows && a.y.rows[..n] == y.rows
      && a.x.rows[n..n + |xs.rows|] == xs.rows && a.y.rows[n..n + |ys.rows|] == ys.rows
      && a.x.rows[n + |xs.rows|..] == s.x.rows[|xs.rows|..] && a.y.rows[n + |ys.rows|..] == s.y.rows[|ys.rows|..]
  {
    StackLayout(X, y, xs, ys, nSample, knn, g, pos, a);
  }

  // ---------------------------------------------------------------------------
  // MLSMOTE_iterative

  /** The loop variables: `X_i`, `y_i`, `irlb_mean_last`, and the position of the next draw. */
  datatype State = State(x: Frame<real>, y: Frame<int>, last: real, next: nat)

  /** The loop invariant: the accumulated frames are labelled data of the input's widths, and
      `last` is their MeanIR. */
  predicate Inv(X: Frame<real>, Y: Frame<int>, s: State) {
    && Labelled(s.x, s.y) && s.x.width == X.width && s.y.width == Y.width
    && s.last == MeanIR(s.y, OnePresent)
  }

  /** The state before the first pass: the input, its MeanIR, and the first draw after `random.seed(42)`. */
  function Initial(X: Frame<real>, Y: Frame<int>): (s: State)
    requires Labelled(X, Y)
    ensures Inv(X, Y, s)
  {
    State(X, Y, MeanIR(Y, OnePresent), 0)
  }

  /**
   `X_cur`, `y_cur` of one pass: the input rows followed by the minority subset of the
   accumulated frames, copied as it is when `cp` holds, augmented otherwise.
   */
  function Candidate(X: Frame<real>, Y: Frame<int>, cp: bool, knn: seq<seq<real>> -> seq<seq<nat>>, g: Generator, s: State)
    : (r: Result<Augmentation, Error>)
    requires Labelled(X, Y) && Ranged(g) && SearchOK(knn) && Inv(X, Y, s)
    ensures r.Success? ==> Labelled(r.value.x, r.value.y) && r.value.x.width == X.width && r.value.y.width == Y.width
    ensures r.Success? ==> Extends(X, Y, r.value.x, r.value.y)
    ensures cp ==> r.Success? && r.value.next == s.next
    ensures cp ==> |r.value.x.rows| == |X.rows| + |MinorityIndex(s.y)|
  {
    if cp then
      var sub := MinorityInstance(s.x, s.y);
      ConcatBinary(Y, sub.1);
      Success(Augmentation(X.Concat(sub.0), Y.Concat(sub.1), s.next))
    else
      Oversample(X, Y, s.x, s.y, None, knn, g, s.next)
  }

  /** The acceptance test: below the last mean without a threshold, above the threshold with one. */
  predicate Accepts(threshold: Option<real>, cur: real, last: real) {
    (threshold.None? && cur < last) || (threshold.Some? && cur > threshold.value)
  }

  /** How one pass ends: the candidate becomes the new state, the loop breaks, or `augment` raises. */
  datatype StepResult = Accepted(s: State) | Stopped | Failed(error: Error)

  /** One pass of the `while True` loop from state `s`. */
  function Step(X: Frame<real>, Y: Frame<int>, threshold: Option<real>, cp: bool,
                knn: seq<seq<real>> -> seq<seq<nat>>, g: Generator, s: State): (t: StepResult)
    requires Labelled(X, Y) && Ranged(g) && SearchOK(knn) && Inv(X, Y, s)
    ensures t.Accepted? ==> Inv(X, Y, t.s) && Extends(X, Y, t.s.x, t.s.y)
    ensures t.Accepted? ==> Accepts(threshold, t.s.last, s.last)
    ensures t.Stopped? ==> Candidate(X, Y, cp, knn, g, s).Success?
  {
    var c := Candidate(X, Y, cp, knn, g, s);
    if c.Failure? then Failed(c.error)
    else
      var cur := MeanIR(c.value.y, OnePresent);
      if Accepts(threshold, cur, s.last) then Accepted(State(c.value.x, c.value.y, cur, c.value.next))
      else Stopped
  }

  /** How the loop ends: it breaks, returning the frames of state `s`, or its fuel runs out in state `s`. */
  datatype Outcome = Converged(s: State) | OutOfFuel(s: State)

  /** Every state satisfying `inv` can take a pass, and an accepted pass keeps `inv`. */
  ghost predicate Closed(inv: State -> bool, pass: State --> StepResult) {
    forall s :: inv(s) ==> pass.requires(s) && (pass(s).Accepted? ==> inv(pass(s).s))
  }

  /** The `while True` loop from state `s`, for at most `fuel` passes, each made by `pass`. */
  function Iterate(inv: State -> bool, pass: State --> StepResult, s: State, fuel: nat): (r: Result<Outcome, Error>)
    requires Closed(inv, pass) && inv(s)
    ensures r.Success? ==> inv(r.value.s)
    decreases fuel
  {
    if fuel == 0 then Success(OutOfFuel(s))
    else
      match pass(s)
      case Accepted(t) => Iterate(inv, pass, t, fuel - 1)
      case Stopped => Success(Converged(s))
      case Failed(e) => Failure(e)
  }

  /** A property `keep` that every accepted pass preserves holds of the state the loop ends in. */
  lemma {:induction false} IterateKeeps(inv: State -> bool, pass: State --> StepResult, keep: State -> bool, s: State, fuel: nat)
    requires Closed(inv, pass) && inv(s) && keep(s)
    requires forall t :: inv(t) && keep(t) && pass.requires(t) && pass(t).Accepted? ==> keep(pass(t).s)
    ensures var r := Iterate(inv, pass, s, fuel); r.Success? ==> keep(r.value.s)
    decreases fuel
  {
    if fuel > 0 {
      match pass(s)
      case Accepted(t) => IterateKeeps(inv, pass, keep, t, fuel - 1);
      case Stopped =>
      case Failed(e) =>
    }
  }

  /** The invariant, as a function of the state. */
  function Invariant(X: Frame<real>, Y: Frame<int>): State -> bool {
    s => Inv(X, Y, s)
  }

  /** The pass of `MLSMOTE_iterative(X, Y, threshold, cp)`, as a function of the state. */
  function Pass(X: Frame<real>, Y: Frame<int>, threshold: Option<real>, cp: bool,
                knn: seq<seq<real>> -> seq<seq<nat>>, g: Generator): State --> StepResult
  {
    s requires Labelled(X, Y) && Ranged(g) && SearchOK(knn) && Inv(X, Y, s) => Step(X, Y, threshold, cp, knn, g, s)
  }

  lemma PassClosed(X: Frame<real>, Y: Frame<int>, threshold: Option<real>, cp: bool,
                   knn: seq<seq<real>> -> seq<seq<nat>>, g: Generator)
    requires Labelled(X, Y) && Ranged(g) && SearchOK(knn)
    ensures Closed(Invariant(X, Y), Pass(X, Y, threshold, cp, knn, g))
  {
  }

  /** What `MLSMOTE_iterative(X, Y, threshold, cp)` returns when it stops within `fuel` passes. */
  function Iterative(X: Frame<real>, Y: Frame<int>, threshold: Option<real>, cp: bool,
                     knn: seq<seq<real>> -> seq<seq<nat>>, g: Generator, fuel: nat): (r: Result<Outcome, Error>)
    requires Labelled(X, Y) && Ranged(g) && SearchOK(knn)
    ensures r.Success? ==> Inv(X, Y, r.value.s)
  {
    PassClosed(X, Y, threshold, cp, knn, g);
    Iterate(Invariant(X, Y), Pass(X, Y, threshold, cp, knn, g), Initial(X, Y), fuel)
  }

  /** An accepted pass hands the rest of the loop to the new state. */
  lemma IterateAccepted(inv: State -> bool, pass: State --> StepResult, s: State, t: State, fuel: nat)
    requires Closed(inv, pass) && inv(s) && fuel > 0
    requires pass.requires(s) && pass(s) == Accepted(t)
    ensures inv(t) && Iterate(inv, pass, s, fuel) == Iterate(inv, pass, t, fuel - 1)
  {
  }

  /**
   One pass of the loop of `MLSMOTE_iterative`: take the minority subset of the accumulated
   frames, copy or augment it, stack it under the input, and compare MeanIR.
   */
  method OnePass(X: Frame<real>, Y: Frame<int>, threshold: Option<real>, cp: bool,
                 knn: seq<seq<real>> -> seq<seq<nat>>, g: Generator, s: State) returns (t: StepResult)
    requires Labelled(X, Y) && Ranged(g) && SearchOK(knn) && Inv(X, Y, s)
    ensures t == Step(X, Y, threshold, cp, knn, g, s)
  {
    var sub := MinorityInstance(s.x, s.y);
    var xres, yres, next := sub.0, sub.1, s.next;
    if !cp {
      var a := Augment(sub.0, sub.1, None, knn(sub.0.rows), g, s.next);
      if a.Failure? {
        return Failed(a.error);
      }
      SynthesizedShape(sub.0, sub.1, None, knn(sub.0.rows), g, s.next);
      xres, yres, next := a.value.x, a.value.y, a.value.next;
    }
    var xcur, ycur := X.Concat(xres), Y.Concat(yres);
    assert Candidate(X, Y, cp, knn, g, s) == Success(Augmentation(xcur, ycur, next));
    var irlbCur, cur := ImbalanceRatios(ycur, OnePresent);
    if Accepts(threshold, cur, s.last) {
      t := Accepted(State(xcur, ycur, cur, next));
    } else {
      t := Stopped;
    }
  }

  /** Two loops whose passes agree on the states both invariants admit end alike. */
  lemma {:induction false} IterateAgree(inv: State -> bool, p: State --> StepResult,
                                        inv': State -> bool, q: State --> StepResult, s: State, fuel: nat)
    requires Closed(inv, p) && Closed(inv', q) && inv(s) && inv'(s)
    requires forall t :: inv(t) && inv'(t) && p.requires(t) && q.requires(t) ==> p(t) == q(t)
    ensures Iterate(inv, p, s, fuel) == Iterate(inv', q, s, fuel)
    decreases fuel
  {
    if fuel > 0 {
      match p(s)
      case Accepted(t) => IterateAgree(inv, p, inv', q, t, fuel - 1);
      case Stopped =>
      case Failed(e) =>
    }
  }

  // `StepPass`, `IterativeBy` and `TakePass` let `MLSMOTEIterative` reason about the loop
  // through two ghost closures known only by what they do on each state. Its loop invariant
  // then speaks of `Iterate(inv, pass, s, fuel)` without unfolding the closures `Iterative`
  // builds (`Invariant`, `Pass`), whose bodies hold the whole of `Step`; `IterativeBy` turns
  // the result back into `Iterative` at each of the method's exits.

  /**
   The invariant and the pass of `MLSMOTE_iterative`, known only by what they are on each
   state: `Inv` and the pass `Step` describes.
   */
  lemma StepPass(X: Frame<real>, Y: Frame<int>, threshold: Option<real>, cp: bool,
                 knn: seq<seq<real>> -> seq<seq<nat>>, g: Generator)
    returns (inv: State -> bool, pass: State --> StepResult)
    requires Labelled(X, Y) && Ranged(g) && SearchOK(knn)
    ensures Closed(inv, pass)
    ensures forall s {:trigger Inv(X, Y, s)} :: inv(s) == Inv(X, Y, s)
    ensures forall s {:trigger Step(X, Y, threshold, cp, knn, g, s)} :: Inv(X, Y, s) ==>
              pass.requires(s) && pass(s) == Step(X, Y, threshold, cp, knn, g, s)
  {
    inv, pass := Invariant(X, Y), Pass(X, Y, threshold, cp, knn, g);
    PassClosed(X, Y, threshold, cp, knn, g);
  }

  /** A loop whose invariant is `Inv` and whose pass is the one `Step` describes is the loop `Iterative` runs. */
  lemma IterativeBy(X: Frame<real>, Y: Frame<int>, threshold: Option<real>, cp: bool,
                    knn: seq<seq<real>> -> seq<seq<nat>>, g: Generator,
                    inv: State -> bool, pass: State --> StepResult, fuel: nat)
    requires Labelled(X, Y) && Ranged(g) && SearchOK(knn)
    requires Closed(inv, pass) && inv(Initial(X, Y))
    requires forall s {:trigger Inv(X, Y, s)} :: inv(s) == Inv(X, Y, s)
    requires forall s {:trigger Step(X, Y, threshold, cp, knn, g, s)} :: Inv(X, Y, s) ==>
               pass.requires(s) && pass(s) == Step(X, Y, threshold, cp, knn, g, s)
    ensures Iterate(inv, pass, Initial(X, Y), fuel) == Iterative(X, Y, threshold, cp, knn, g, fuel)
  {
    var inv', spec := Invariant(X, Y), Pass(X, Y, threshold, cp, knn, g);
    PassClosed(X, Y, threshold, cp, knn, g);
    forall t | inv(t) && inv'(t) && pass.requires(t) && spec.requires(t)
      ensures pass(t) == spec(t)
    {
      assert spec(t) == Step(X, Y, threshold, cp, knn, g, t);
    }
    IterateAgree(inv, pass, inv', spec, Initial(X, Y), fuel);
  }

  /** `OnePass`, seen as the pass `pass` of the loop, which agrees with `Step` on the states that satisfy `Inv`. */
  method TakePass(X: Frame<real>, Y: Frame<int>, threshold: Option<real>, cp: bool,
                  knn: seq<seq<real>> -> seq<seq<nat>>, g: Generator,
                  ghost inv: State -> bool, ghost pass: State --> StepResult, s: State)
    returns (t: StepResult)
    requires Labelled(X, Y) && Ranged(g) && SearchOK(knn) && inv(s)
    requires forall u {:trigger Inv(X, Y, u)} :: inv(u) == Inv(X, Y, u)
    requires forall u {:trigger Step(X, Y, threshold, cp, knn, g, u)} :: Inv(X, Y, u) ==>
               pass.requires(u) && pass(u) == Step(X, Y, threshold, cp, knn, g, u)
    ensures pass.requires(s) && t == pass(s)
  {
    assert Inv(X, Y, s);
    t := OnePass(X, Y, threshold, cp, knn, g, s);
  }

  /**
   `MLSMOTE_iterative(X, Y, threshold, cp)`, for at most `fuel` passes: start from the input
   and its MeanIR, and repeat the pass while its candidate is accepted.
   */
  method MLSMOTEIterative(X: Frame<real>, Y: Frame<int>, threshold: Option<real>, cp: bool,
                          knn: seq<seq<real>> -> seq<seq<nat>>, g: Generator, fuel: nat)
    returns (r: Result<Outcome, Error>)
    requires Labelled(X, Y) && Ranged(g) && SearchOK(knn)
    ensures r == Iterative(X, Y, threshold, cp, knn, g, fuel)
  {
    ghost var inv, pass := StepPass(X, Y, threshold, cp, knn, g);
    var irlb, last := ImbalanceRatios(Y, OnePresent);
    var s := State(X, Y, last, 0);
    assert Inv(X, Y, s);
    var remaining := fuel;
    while remaining > 0
      invariant inv(s)
      invariant Iterate(inv, pass, s, remaining) == Iterate(inv, pass, Initial(X, Y), fuel)
      decreases remaining
    {
      var step := TakePass(X, Y, threshold, cp, knn, g, inv, pass, s);
      match step
      case Accepted(t) =>
        IterateAccepted(inv, pass, s, t, remaining);
        s, remaining := t, remaining - 1;
      case Stopped =>
        IterativeBy(X, Y, threshold, cp, knn, g, inv, pass, fuel);
        return Success(Converged(s));
      case Failed(e) =>
        IterativeBy(X, Y, threshold, cp, knn, g, inv, pass, fuel);
        return Failure(e);
    }
    IterativeBy(X, Y, threshold, cp, knn, g, inv, pass, fuel);
    return Success(OutOfFuel(s));
  }

  // ---------------------------------------------------------------------------
  // What the loop returns

  /** Without a threshold every accepted pass strictly lowers the MeanIR of the accumulated frames. */
  lemma AcceptedLowersMeanIR(X: Frame<real>, Y: Frame<int>, cp: bool,
                             knn: seq<seq<real>> -> seq<seq<nat>>, g: Generator, s: State)
    requires Labelled(X, Y) && Ranged(g) && SearchOK(knn) && Inv(X, Y, s)
    requires Step(X, Y, None, cp, knn, g, s).Accepted?
    ensures var t := Step(X, Y, None, cp, knn, g, s).s;
      MeanIR(t.y, OnePresent) < MeanIR(s.y, OnePresent)
  {
  }

  /**
   A pass fails exactly when its candidate does, with the candidate's error; otherwise it is
   accepted exactly when the acceptance test holds of the candidate's MeanIR, and then the
   candidate, its MeanIR and the next draw form the new state.
   */
  lemma StepDecides(X: Frame<real>, Y: Frame<int>, threshold: Option<real>, cp: bool,
                    knn: seq<seq<real>> -> seq<seq<nat>>, g: Generator, s: State)
    requires Labelled(X, Y) && Ranged(g) && SearchOK(knn) && Inv(X, Y, s)
    ensures var c, t := Candidate(X, Y, cp, knn, g, s), Step(X, Y, threshold, cp, knn, g, s);
      && (t.Failed? <==> c.Failure?)
      && (c.Failure? ==> t.error == c.error)
      && (c.Success? ==> (t.Accepted? <==> Accepts(threshold, MeanIR(c.value.y, OnePresent), s.last)))
      && (t.Accepted? ==> t.s == State(c.value.x, c.value.y, MeanIR(c.value.y, OnePresent), c.value.next))
  {
  }

  /** When the loop breaks, the pass from the state it returns was rejected. */
  lemma {:induction false} IterateStops(inv: State -> bool, pass: State --> StepResult, s: State, fuel: nat)
    requires Closed(inv, pass) && inv(s)
    ensures var r := Iterate(inv, pass, s, fuel);
      r.Success? && r.value.Converged? ==> pass.requires(r.value.s) && pass(r.value.s) == Stopped
    decreases fuel
  {
    if fuel > 0 {
      match pass(s)
      case Accepted(t) => IterateStops(inv, pass, t, fuel - 1);
      case Stopped =>
      case Failed(e) =>
    }
  }

  /**
   When `MLSMOTE_iterative` breaks, it returns the last accepted state (or the input): the
   candidate built from that state is rejected.
   */
  lemma IterativeStops(X: Frame<real>, Y: Frame<int>, threshold: Option<real>, cp: bool,
                       knn: seq<seq<real>> -> seq<seq<nat>>, g: Generator, fuel: nat)
    requires Labelled(X, Y) && Ranged(g) && SearchOK(knn)
    ensures var r := Iterative(X, Y, threshold, cp, knn, g, fuel);
      r.Success? && r.value.Converged? ==> Step(X, Y, threshold, cp, knn, g, r.value.s).Stopped?
  {
    var inv, pass := StepPass(X, Y, threshold, cp, knn, g);
    assert Inv(X, Y, Initial(X, Y));
    IterateStops(inv, pass, Initial(X, Y), fuel);
    IterativeBy(X, Y, threshold, cp, knn, g, inv, pass, fuel);
  }

  /**
   The frames of `s` are the labelled input itself, or they start with the input rows and
   their MeanIR is below the input's (no threshold) or above the threshold.
   */
  predicate Improves(X: Frame<real>, Y: Frame<int>, threshold: Option<real>, s: State) {
    && Labelled(X, Y) && Labelled(s.x, s.y)
    && ((s.x == X && s.y == Y)
        || (&& Extends(X, Y, s.x, s.y)
            && (threshold.None? ==> MeanIR(s.y, OnePresent) < MeanIR(Y, OnePresent))
            && (threshold.Some? ==> MeanIR(s.y, OnePresent) > threshold.value)))
  }

  /** An accepted pass from a state that improves on the input leads to one that does too. */
  lemma StepImproves(X: Frame<real>, Y: Frame<int>, threshold: Option<real>, cp: bool,
                     knn: seq<seq<real>> -> seq<seq<nat>>, g: Generator, s: State)
    requires Labelled(X, Y) && Ranged(g) && SearchOK(knn) && Inv(X, Y, s)
    requires Improves(X, Y, threshold, s) && Step(X, Y, threshold, cp, knn, g, s).Accepted?
    ensures Improves(X, Y, threshold, Step(X, Y, threshold, cp, knn, g, s).s)
  {
    var t := Step(X, Y, threshold, cp, knn, g, s).s;
    assert Extends(X, Y, t.x, t.y) && Accepts(threshold, t.last, s.last);
  }

  /**
   `MLSMOTE_iterative` returns labelled frames of the input's widths that are the input
   itself, or start with the input rows and have a MeanIR below the input's (no threshold)
   or above the threshold.
   */
  lemma IterativeImproves(X: Frame<real>, Y: Frame<int>, threshold: Option<real>, cp: bool,
                          knn: seq<seq<real>> -> seq<seq<nat>>, g: Generator, fuel: nat)
    requires Labelled(X, Y) && Ranged(g) && SearchOK(knn)
    ensures var r := Iterative(X, Y, threshold, cp, knn, g, fuel);
      r.Success? ==> Inv(X, Y, r.value.s) && Improves(X, Y, threshold, r.value.s)
  {
    var inv, pass := StepPass(X, Y, threshold, cp, knn, g);
    var keep := (s: State) => Improves(X, Y, threshold, s);
    assert Inv(X, Y, Initial(X, Y));
    forall s | inv(s) && keep(s) && pass.requires(s) && pass(s).Accepted?
      ensures keep(pass(s).s)
    {
      assert Inv(X, Y, s);
      StepImproves(X, Y, threshold, cp, knn, g, s);
    }
    IterateKeeps(inv, pass, keep, Initial(X, Y), fuel);
    IterativeBy(X, Y, threshold, cp, knn, g, inv, pass, fuel);
  }

  // ---------------------------------------------------------------------------
  // Copy mode adds no new data

  /** `row`, `labels` is a row pair of `X`, `Y`: the feature row and the label row at one position. */
  predicate Among(X: Frame<real>, Y: Frame<int>, row: seq<real>, labels: seq<int>) {
    exists q :: 0 <= q < |X.rows| && q < |Y.rows| && row == X.rows[q] && labels == Y.rows[q]
  }

  /** Every row pair of `x`, `y` is a row pair of `X`, `Y`. */
  predicate RowsFrom(X: Frame<real>, Y: Frame<int>, x: Frame<real>, y: Frame<int>) {
    && |x.rows| == |y.rows|
    && forall i :: 0 <= i < |x.rows| ==> Among(X, Y, x.rows[i], y.rows[i])
  }

  lemma RowsFromSelf(X: Frame<real>, Y: Frame<int>)
    requires |X.rows| == |Y.rows|
    ensures RowsFrom(X, Y, X, Y)
  {
    forall i | 0 <= i < |X.rows|
      ensures Among(X, Y, X.rows[i], Y.rows[i])
    {
      assert X.rows[i] == X.rows[i] && Y.rows[i] == Y.rows[i];
    }
  }

  lemma RowsFromTrans(X: Frame<real>, Y: Frame<int>, x: Frame<real>, y: Frame<int>, u: Frame<real>, v: Frame<int>)
    requires RowsFrom(X, Y, x, y) && RowsFrom(x, y, u, v)
    ensures RowsFrom(X, Y, u, v)
  {
    forall i | 0 <= i < |u.rows|
      ensures Among(X, Y, u.rows[i], v.rows[i])
    {
      assert Among(x, y, u.rows[i], v.rows[i]);
      var k :| 0 <= k < |x.rows| && k < |y.rows| && u.rows[i] == x.rows[k] && v.rows[i] == y.rows[k];
      assert Among(X, Y, x.rows[k], y.rows[k]);
    }
  }

  lemma RowsFromConcat(X: Frame<real>, Y: Frame<int>, a: Frame<real>, b: Frame<int>, c: Frame<real>, d: Frame<int>)
    requires a.width == c.width && b.width == d.width
    requires RowsFrom(X, Y, a, b) && RowsFrom(X, Y, c, d)
    ensures RowsFrom(X, Y, a.Concat(c), b.Concat(d))
  {
    var u, v := a.Concat(c), b.Concat(d);
    forall i | 0 <= i < |u.rows|
      ensures Among(X, Y, u.rows[i], v.rows[i])
    {
      if i < |a.rows| {
        assert u.rows[i] == a.rows[i] && v.rows[i] == b.rows[i];
      } else {
        assert u.rows[i] == c.rows[i - |a.rows|] && v.rows[i] == d.rows[i - |a.rows|];
      }
    }
  }

  /** The minority subset consists of row pairs of the frames it is taken from. */
  lemma MinorityRowsFrom(x: Frame<real>, y: Frame<int>)
    requires Labelled(x, y)
    ensures var sub := MinorityInstance(x, y); RowsFrom(x, y, sub.0, sub.1)
  {
    var sub, p := MinorityInstance(x, y), Positions(|x.rows|, MinorityIndex(y));
    MinorityInOrder(x, y);
    forall i | 0 <= i < |sub.0.rows|
      ensures Among(x, y, sub.0.rows[i], sub.1.rows[i])
    {
      assert sub.0.rows[i] == x.rows[p[i]] && sub.1.rows[i] == y.rows[p[i]];
    }
  }

  /** With `cp`, a pass stacks copies of rows of the accumulated frames under the input rows. */
  lemma CopyStep(X: Frame<real>, Y: Frame<int>, threshold: Option<real>,
                 knn: seq<seq<real>> -> seq<seq<nat>>, g: Generator, s: State)
    requires Labelled(X, Y) && Ranged(g) && SearchOK(knn) && Inv(X, Y, s)
    requires RowsFrom(X, Y, s.x, s.y) && Step(X, Y, threshold, true, knn, g, s).Accepted?
    ensures var t := Step(X, Y, threshold, true, knn, g, s).s; RowsFrom(X, Y, t.x, t.y)
  {
    var t := Step(X, Y, threshold, true, knn, g, s).s;
    var sub := MinorityInstance(s.x, s.y);
    assert t.x == X.Concat(sub.0) && t.y == Y.Concat(sub.1);
    MinorityRowsFrom(s.x, s.y);
    RowsFromTrans(X, Y, s.x, s.y, sub.0, sub.1);
    RowsFromSelf(X, Y);
    RowsFromConcat(X, Y, X, Y, sub.0, sub.1);
  }

  /** With `cp`, every row pair `MLSMOTE_iterative` returns is a row pair of its input. */
  lemma CopyOnlyDuplicates(X: Frame<real>, Y: Frame<int>, threshold: Option<real>,
                           knn: seq<seq<real>> -> seq<seq<nat>>, g: Generator, fuel: nat)
    requires Labelled(X, Y) && Ranged(g) && SearchOK(knn)
    ensures var r := Iterative(X, Y, threshold, true, knn, g, fuel);
      r.Success? ==> RowsFrom(X, Y, r.value.s.x, r.value.s.y)
  {
    var inv, pass := StepPass(X, Y, threshold, true, knn, g);
    var keep := (s: State) => RowsFrom(X, Y, s.x, s.y);
    assert Inv(X, Y, Initial(X, Y));
    RowsFromSelf(X, Y);
    forall s | inv(s) && keep(s) && pass.requires(s) && pass(s).Accepted?
      ensures keep(pass(s).s)
    {
      assert Inv(X, Y, s);
      CopyStep(X, Y, threshold, knn, g, s);
    }
    IterateKeeps(inv, pass, keep, Initial(X, Y), fuel);
    IterativeBy(X, Y, threshold, true, knn, g, inv, pass, fuel);
  }
}
