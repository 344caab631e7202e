/** Window valuation: the settled equity path, the per-fill curve, net, and the drawdown over the path. */
module EquityPath {
  import opened Wrappers
  import opened Arith
  import opened Events
  import opened Reducer
  import opened BookValue

  predicate IsFill(e: Event) {
    e.payload.FillRecorded?
  }

  predicate IsSettlement(e: Event) {
    e.payload.PositionOpened? || e.payload.PositionClosed?
  }

  ghost function EquityAfter(genesis: LedgerState, rows: seq<Event>, n: nat): int
    requires n <= |rows|
  {
    Equity(Fold(genesis, rows[..n]))
  }

  // ---------------------------------------------------------------- the settled path

  /** The state after `n` rows is a point of the path unless a fill's position row is about to land. */
  predicate RecordedAt(rows: seq<Event>, n: nat)
    requires n <= |rows|
  {
    n == 0 || !IsFill(rows[n - 1]) || n == |rows| || !IsSettlement(rows[n])
  }

  ghost function PathUpTo(genesis: LedgerState, rows: seq<Event>, n: nat): seq<int>
    requires n <= |rows|
  {
    (if n == 0 then [] else PathUpTo(genesis, rows, n - 1))
    + (if RecordedAt(rows, n) then [EquityAfter(genesis, rows, n)] else [])
  }

  lemma FoldNext(genesis: LedgerState, rows: seq<Event>, i: nat)
    requires i < |rows|
    ensures Fold(genesis, rows[..i + 1]) == Reduce(Fold(genesis, rows[..i]), rows[i])
  {
    assert rows[..i + 1] == rows[..i] + [rows[i]];
    FoldSnoc(genesis, rows[..i], rows[i]);
  }

  /** One more row of a fold that may raise; once it has raised, the whole window has. */
  lemma TryFoldNext(genesis: LedgerState, rows: seq<Event>, i: nat)
    requires i < |rows| && TryFold(genesis, rows[..i]).Some?
    ensures TryFold(genesis, rows[..i]).value == Fold(genesis, rows[..i])
    ensures TryFold(genesis, rows[..i + 1]) == TryReduce(Fold(genesis, rows[..i]), rows[i])
    ensures TryFold(genesis, rows[..i + 1]).None? ==> TryFold(genesis, rows).None?
  {
    TryFoldIsFold(genesis, rows[..i]);
    assert rows[..i + 1] == rows[..i] + [rows[i]];
    TryFoldSnoc(genesis, rows[..i], rows[i]);
    assert rows == rows[..i + 1] + rows[i + 1..];
    TryFoldSplit(genesis, rows[..i + 1], rows[i + 1..]);
  }

  /** The fold has taken the first `i` rows without raising and stands at `state`. */
  ghost predicate Reached(genesis: LedgerState, rows: seq<Event>, i: nat, state: LedgerState)
    requires i <= |rows|
  {
    TryFold(genesis, rows[..i]) == Some(state) && state == Fold(genesis, rows[..i])
  }

  method NextState(ghost genesis: LedgerState, rows: seq<Event>, i: nat, state: LedgerState)
    returns (next: Option<LedgerState>)
    requires i < |rows| && Reached(genesis, rows, i, state)
    ensures next.Some? ==> Reached(genesis, rows, i + 1, next.value)
    ensures next.None? ==> TryFold(genesis, rows).None?
  {
    TryFoldNext(genesis, rows, i);
    FoldNext(genesis, rows, i);
    next := ReduceRow(state, rows[i]);
  }

  method SettledPath(genesis: LedgerState, rows: seq<Event>) returns (r: Option<seq<int>>)
    ensures r == if TryFold(genesis, rows).None? then None else Some(PathUpTo(genesis, rows, |rows|))
  {
    var state := genesis;
    var equity := EquityLamports(state);
    var path := [equity];
    var unsettled := false;
    var i := 0;
    assert rows[..0] == [];
    while i < |rows|
      invariant 0 <= i <= |rows|
      invariant Reached(genesis, rows, i, state)
      invariant unsettled == (i > 0 && IsFill(rows[i - 1]))
      invariant path == PathUpTo(genesis, rows, if unsettled then i - 1 else i)
    {
      var row := rows[i];
      if unsettled && !IsSettlement(row) {
        // A fill that no position row followed is settled as it stands.
        equity := EquityLamports(state);
        path := path + [equity];
      }
      var next := NextState(genesis, rows, i, state);
      if next.None? {
        return None;
      }
      state := next.value;
      i := i + 1;
      if IsFill(row) {
        unsettled := true;
        continue;
      }
      unsettled := false;
      equity := EquityLamports(state);
      path := path + [equity];
    }
    assert rows[..i] == rows;
    if unsettled {
      equity := EquityLamports(state);
      path := path + [equity];
    }
    return Some(path);
  }

  /** Closing equity less opening equity. */
  method NetLamports(genesis: LedgerState, rows: seq<Event>) returns (r: Option<int>)
    ensures r == if TryFold(genesis, rows).None? then None
                 else Some(Equity(Fold(genesis, rows)) - Equity(genesis))
  {
    var state := genesis;
    var i := 0;
    assert rows[..0] == [];
    while i < |rows|
      invariant 0 <= i <= |rows|
      invariant Reached(genesis, rows, i, state)
    {
      var next := NextState(genesis, rows, i, state);
      if next.None? {
        return None;
      }
      state := next.value;
      i := i + 1;
    }
    assert rows[..i] == rows;
    var closing := EquityLamports(state);
    var opening := EquityLamports(genesis);
    return Some(closing - opening);
  }

  lemma {:induction false} PathStartsAtOpening(genesis: LedgerState, rows: seq<Event>, n: nat)
    requires n <= |rows|
    ensures PathUpTo(genesis, rows, n) != [] && PathUpTo(genesis, rows, n)[0] == Equity(genesis)
  {
    assert rows[..0] == [];
    if n > 0 {
      PathStartsAtOpening(genesis, rows, n - 1);
    }
  }

  /** The path runs from opening to closing equity, so its span is the window's net. */
  lemma PathSpanIsNet(genesis: LedgerState, rows: seq<Event>)
    ensures
      var path := PathUpTo(genesis, rows, |rows|);
      path != [] && path[|path| - 1] - path[0] == Equity(Fold(genesis, rows)) - Equity(genesis)
  {
    PathStartsAtOpening(genesis, rows, |rows|);
    assert rows[..|rows|] == rows;
    assert RecordedAt(rows, |rows|);
  }

  // ---------------------------------------------------------------- one point per fill

  function Fills(rows: seq<Event>, n: nat): nat
    requires n <= |rows|
  {
    if n == 0 then 0 else Fills(rows, n - 1) + (if IsFill(rows[n - 1]) then 1 else 0)
  }

  /** A fill's point is taken when the next fill begins or the window ends. */
  predicate CurvePointAt(rows: seq<Event>, n: nat)
    requires n <= |rows|
  {
    Fills(rows, n) > 0 && (n == |rows| || IsFill(rows[n]))
  }

  /** The points taken after fewer than `n` rows. */
  ghost function CurveBefore(genesis: LedgerState, rows: seq<Event>, n: nat): seq<int>
    requires n <= |rows| + 1
  {
    if n == 0 then []
    else
      CurveBefore(genesis, rows, n - 1)
      + (if CurvePointAt(rows, n - 1) then [EquityAfter(genesis, rows, n - 1)] else [])
  }

  ghost function Curve(genesis: LedgerState, rows: seq<Event>): seq<int> {
    CurveBefore(genesis, rows, |rows| + 1)
  }

  method WindowCurve(genesis: LedgerState, rows: seq<Event>) returns (r: Option<seq<int>>)
    ensures r == if TryFold(genesis, rows).None? then None else Some(Curve(genesis, rows))
  {
    var state := genesis;
    var curve: seq<int> := [];
    var pending := false;
    var i := 0;
    assert rows[..0] == [];
    while i < |rows|
      invariant 0 <= i <= |rows|
      invariant Reached(genesis, rows, i, state)
      invariant pending == (Fills(rows, i) > 0)
      invariant curve == CurveBefore(genesis, rows, i)
    {
      assert CurveBefore(genesis, rows, i + 1)
          == curve + (if CurvePointAt(rows, i) then [Equity(state)] else []);
      if IsFill(rows[i]) {
        if pending {
          var equity := EquityLamports(state);
          curve := curve + [equity];
        }
        pending := true;
      }
      var next := NextState(genesis, rows, i, state);
      if next.None? {
        return None;
      }
      state := next.value;
      i := i + 1;
    }
    assert rows[..i] == rows;
    assert CurvePointAt(rows, i) == pending && EquityAfter(genesis, rows, i) == Equity(state);
    if pending {
      var equity := EquityLamports(state);
      curve := curve + [equity];
    }
    assert curve == Curve(genesis, rows);
    return Some(curve);
  }

  lemma {:induction false} CurveLength(genesis: LedgerState, rows: seq<Event>, n: nat)
    requires n <= |rows|
    ensures |CurveBefore(genesis, rows, n)| == if Fills(rows, n) > 0 then Fills(rows, n) - 1 else 0
  {
    if n > 0 {
      CurveLength(genesis, rows, n - 1);
    }
  }

  /** The curve has one point per fill and ends, like the path, at the closing equity. */
  lemma CurvePairsWithFills(genesis: LedgerState, rows: seq<Event>)
    ensures
      var curve := Curve(genesis, rows);
      && |curve| == Fills(rows, |rows|)
      && (curve != [] ==> curve[|curve| - 1] == Equity(Fold(genesis, rows)))
  {
    assert rows[..|rows|] == rows;
    CurveLength(genesis, rows, |rows|);
  }

  // ---------------------------------------------------------------- which point is which

  /** The place between a fill and the position row that follows it. */
  predicate Settles(rows: seq<Event>, n: nat) {
    0 < n < |rows| && rows[n - 1].payload.FillRecorded?
    && (rows[n].payload.PositionOpened? || rows[n].payload.PositionClosed?)
  }

  /** The first `n` places, the opening one included, without those inside a settlement. */
  function Places(rows: seq<Event>, n: nat): set<nat> {
    set m: nat | m < n && !Settles(rows, m)
  }

  lemma PlacesNext(rows: seq<Event>, n: nat)
    ensures Places(rows, 0) == {}
    ensures |Places(rows, n + 1)| == |Places(rows, n)| + (if Settles(rows, n) then 0 else 1)
  {
    assert Places(rows, n + 1) == Places(rows, n) + (if Settles(rows, n) then {} else {n});
  }

  lemma {:induction false} PathPlaces(genesis: LedgerState, rows: seq<Event>, m: nat, n: nat)
    requires m <= n <= |rows|
    ensures |PathUpTo(genesis, rows, n)| == |Places(rows, n + 1)|
    ensures !Settles(rows, m) ==>
              |Places(rows, m)| < |PathUpTo(genesis, rows, n)|
              && PathUpTo(genesis, rows, n)[|Places(rows, m)|] == EquityAfter(genesis, rows, m)
    decreases n
  {
    hide Places, EquityAfter;
    PlacesNext(rows, n);
    PlacesNext(rows, 0);
    assert RecordedAt(rows, n) <==> !Settles(rows, n);
    hide Settles, RecordedAt;
    if n > 0 {
      PathPlaces(genesis, rows, if m < n then m else n - 1, n - 1);
    }
  }

  /** The path, point by point: the equity after each prefix that stands outside a settlement, and no more. */
  lemma PathPointsExactly(genesis: LedgerState, rows: seq<Event>)
    ensures
      var path := PathUpTo(genesis, rows, |rows|);
      && |path| == |Places(rows, |rows| + 1)|
      && forall n: nat | n <= |rows| && !Settles(rows, n) ::
           && |Places(rows, n)| < |path|
           && path[|Places(rows, n)|] == Equity(Fold(genesis, rows[..n]))
  {
    hide Fold, Equity, PathUpTo;
    PathPlaces(genesis, rows, 0, |rows|);
    forall n: nat | n <= |rows| && !Settles(rows, n)
      ensures |Places(rows, n)| < |PathUpTo(genesis, rows, |rows|)|
      ensures PathUpTo(genesis, rows, |rows|)[|Places(rows, n)|] == Equity(Fold(genesis, rows[..n]))
    {
      PathPlaces(genesis, rows, n, |rows|);
    }
  }

  lemma {:induction false} FillsAreCounted(rows: seq<Event>, n: nat)
    requires n <= |rows|
    ensures Fills(rows, n) == |set k | 0 <= k < n && rows[k].payload.FillRecorded?|
  {
    var fills := set k | 0 <= k < n && rows[k].payload.FillRecorded?;
    if n == 0 {
      assert fills == {};
    } else {
      FillsAreCounted(rows, n - 1);
      var before := set k | 0 <= k < n - 1 && rows[k].payload.FillRecorded?;
      assert fills == before + (if rows[n - 1].payload.FillRecorded? then {n - 1} else {});
    }
  }

  lemma {:induction false} CurvePlaces(genesis: LedgerState, rows: seq<Event>, m: nat, n: nat)
    requires m < n <= |rows| + 1 && CurvePointAt(rows, m)
    ensures var curve := CurveBefore(genesis, rows, n);
            Fills(rows, m) <= |curve| && curve[Fills(rows, m) - 1] == Equity(Fold(genesis, rows[..m]))
  {
    hide Fold, Equity;
    if m == n - 1 {
      CurveLength(genesis, rows, m);
    } else {
      CurvePlaces(genesis, rows, m, n - 1);
    }
  }

  /** The curve, point by point: the k-th is the equity just before the fill after the k-th, or at the close. */
  lemma CurvePointsExactly(genesis: LedgerState, rows: seq<Event>, n: nat)
    requires n <= |rows| && (n < |rows| ==> rows[n].payload.FillRecorded?)
    ensures
      var curve, k := Curve(genesis, rows), |set i | 0 <= i < n && rows[i].payload.FillRecorded?|;
      k > 0 ==> k <= |curve| && curve[k - 1] == Equity(Fold(genesis, rows[..n]))
  {
    hide Fold, Equity, CurveBefore, Fills;
    FillsAreCounted(rows, n);
    if Fills(rows, n) > 0 {
      CurvePlaces(genesis, rows, n, |rows| + 1);
    }
  }

  // ---------------------------------------------------------------- settled points

  ghost function PhaseAfter(genesis: LedgerState, rows: seq<Event>, n: nat): Phase
    requires n <= |rows|
  {
    EndPhase(genesis, Settled, rows[..n])
  }

  /** A well-formed log is allowed row by row, each against the state and phase before it. */
  lemma {:induction false} AllowedAt(s: LedgerState, ph: Phase, rows: seq<Event>, n: nat)
    requires WellFormed(s, ph, rows) && PhaseOk(s, ph) && n < |rows|
    ensures PhaseOk(Fold(s, rows[..n]), EndPhase(s, ph, rows[..n]))
    ensures Allowed(Fold(s, rows[..n]), EndPhase(s, ph, rows[..n]), rows[n])
    ensures EndPhase(s, ph, rows[..n + 1]) == NextPhase(Fold(s, rows[..n]), rows[n])
    decreases n
  {
    hide Allowed, NextPhase, PhaseOk, Reduce;
    if n == 0 {
      assert rows[..0] == [] && rows[..1][1..] == [];
    } else {
      StepKeepsPhase(s, ph, rows[0]);
      AllowedAt(Reduce(s, rows[0]), NextPhase(s, rows[0]), rows[1..], n - 1);
      assert rows[..n][1..] == rows[1..][..n - 1];
      assert rows[..n + 1][1..] == rows[1..][..n];
    }
  }

  /** On a well-formed, completed log no point of the path falls between a fill and its position row. */
  lemma EveryPointIsSettled(genesis: LedgerState, rows: seq<Event>, n: nat)
    requires PhaseOk(genesis, Settled) && WellFormed(genesis, Settled, rows)
    requires PhaseAfter(genesis, rows, |rows|) == Settled
    requires n <= |rows| && RecordedAt(rows, n)
    ensures PhaseAfter(genesis, rows, n) == Settled
  {
    if 0 < n {
      AllowedAt(genesis, Settled, rows, n - 1);
      if n < |rows| {
        AllowedAt(genesis, Settled, rows, n);
      }
    }
  }

  /** The converse half: every settled prefix is a point of the path. */
  lemma EverySettledPrefixIsAPoint(genesis: LedgerState, rows: seq<Event>, n: nat)
    requires PhaseOk(genesis, Settled) && WellFormed(genesis, Settled, rows)
    requires n <= |rows| && PhaseAfter(genesis, rows, n) == Settled
    ensures RecordedAt(rows, n)
  {
    if n < |rows| {
      AllowedAt(genesis, Settled, rows, n);
    }
  }

  /** Opening a position at cost is two rows and no movement between consecutive points of the path. */
  lemma OpeningAtCostMovesNothing(genesis: LedgerState, rows: seq<Event>, n: nat)
    requires PhaseOk(genesis, Settled) && WellFormed(genesis, Settled, rows)
    requires n + 2 <= |rows| && PhaseAfter(genesis, rows, n) == Settled
    requires PhaseAfter(genesis, rows, n + 1).AwaitOpen?
    ensures EquityAfter(genesis, rows, n + 2) == EquityAfter(genesis, rows, n)
    ensures RecordedAt(rows, n) && !RecordedAt(rows, n + 1) && RecordedAt(rows, n + 2)
    ensures PathUpTo(genesis, rows, n + 2)
         == PathUpTo(genesis, rows, n) + [EquityAfter(genesis, rows, n)]
  {
    hide Fold, Reduce, WellFormed, PathUpTo, Equity;
    AllowedAt(genesis, Settled, rows, n);
    AllowedAt(genesis, Settled, rows, n + 1);
    FoldNext(genesis, rows, n);
    FoldNext(genesis, rows, n + 1);
    OpeningPair(Fold(genesis, rows[..n]), rows[n], rows[n + 1]);
    PathSkips(genesis, rows, n);
  }

  lemma PathSkips(genesis: LedgerState, rows: seq<Event>, n: nat)
    requires n + 2 <= |rows| && !RecordedAt(rows, n + 1) && RecordedAt(rows, n + 2)
    ensures PathUpTo(genesis, rows, n + 2)
         == PathUpTo(genesis, rows, n) + [EquityAfter(genesis, rows, n + 2)]
  {
    assert PathUpTo(genesis, rows, n + 1) == PathUpTo(genesis, rows, n);
  }

  lemma OpeningPair(s: LedgerState, fill: Event, openRow: Event)
    requires PhaseOk(s, Settled) && Allowed(s, Settled, fill) && NextPhase(s, fill).AwaitOpen?
    requires Allowed(Reduce(s, fill), NextPhase(s, fill), openRow)
    ensures Equity(Reduce(Reduce(s, fill), openRow)) == Equity(s)
  {
    var mid := Reduce(s, fill);
    FillEffect(s, fill);
    OpenedEffect(mid, openRow);
    var mint := openRow.payload.mint;
    SumUpdate(mid.positions, Worth, mint, Reduce(mid, openRow).positions[mint]);
  }

  // ---------------------------------------------------------------- drawdown over the path

  function RunningPeak(path: seq<int>, j: nat): int
    requires j < |path|
  {
    if j == 0 then path[0] else Max(RunningPeak(path, j - 1), path[j])
  }

  /** How far below its running peak a point stands; nothing until the peak is positive. */
  function Fall(path: seq<int>, j: nat): real
    requires j < |path|
  {
    if RunningPeak(path, j) > 0 then Shortfall(RunningPeak(path, j), path[j]) else 0.0
  }

  function Shortfall(peak: int, equity: int): real
    requires peak > 0
  {
    (peak - equity) as real / peak as real
  }

  /** The loop over the path: the largest shortfall from the running peak. */
  method MaxDrawdown(path: seq<int>) returns (worst: real)
    requires path != []
    ensures forall j: nat | j < |path| :: Fall(path, j) <= worst
    ensures worst == 0.0 || exists j: nat | j < |path| :: worst == Fall(path, j)
    ensures worst >= 0.0
  {
    var peak := path[0];
    worst := 0.0;
    var i := 0;
    while i < |path|
      invariant 0 <= i <= |path|
      invariant peak == if i == 0 then path[0] else RunningPeak(path, i - 1)
      invariant worst >= 0.0
      invariant forall j: nat | j < i :: Fall(path, j) <= worst
      invariant worst == 0.0 || exists j: nat | j < i :: worst == Fall(path, j)
    {
      peak := Max(peak, path[i]);
      ghost var fall := Fall(path, i);
      if peak > 0 {
        worst := MaxReal(worst, Shortfall(peak, path[i]));
      }
      i := i + 1;
    }
  }

  lemma {:induction false} RunningPeakBounds(path: seq<int>, i: nat, j: nat)
    requires i <= j < |path|
    ensures path[i] <= RunningPeak(path, j)
    ensures exists k: nat | k <= j :: RunningPeak(path, j) == path[k]
    decreases j
  {
    if j > 0 {
      RunningPeakBounds(path, if i < j then i else j - 1, j - 1);
    }
  }

  lemma CrossTerms(a: real, b: real, e: real)
    ensures (b - e) * a - (a - e) * b == e * (b - a)
    ensures 0.0 <= e && a <= b ==> 0.0 <= e * (b - a)
    ensures e < 0.0 && a < b ==> e * (b - a) < 0.0
  {
  }

  /** A higher peak over the same equity is a larger fraction lost exactly while that equity is not negative. */
  lemma ShortfallOrder(low: int, high: int, equity: int)
    requires 0 < low <= high
    ensures Shortfall(low, equity) <= Shortfall(high, equity) <==> 0 <= equity || low == high
  {
    if low < high {
      var a, b, e := low as real, high as real, equity as real;
      CrossTerms(a, b, e);
      if 0 <= equity {
        CrossMultiply(a - e, a, b - e, b);
      } else {
        CrossMultiplyStrictly(b - e, b, a - e, a);
      }
    }
  }

  lemma CrossMultiply(x: real, a: real, y: real, b: real)
    requires 0.0 < a && 0.0 < b && x * b <= y * a
    ensures x / a <= y / b
  {
    var p, q := x / a, y / b;
    assert p * a == x && q * b == y;
    assert (p * a) * b <= (q * b) * a;
    assert p * (a * b) <= q * (a * b);
    assert a * b > 0.0;
    RealFactor(p - q, a * b);
  }

  lemma CrossMultiplyStrictly(x: real, a: real, y: real, b: real)
    requires 0.0 < a && 0.0 < b && x * b < y * a
    ensures x / a < y / b
  {
    var p, q := x / a, y / b;
    assert p * a == x && q * b == y;
    assert (p * a) * b < (q * b) * a;
    assert p * (a * b) < q * (a * b);
    assert a * b > 0.0;
    RealFactor(q - p, a * b);
  }

  lemma RealFactor(n: real, d: real)
    requires 0.0 < d
    ensures n * d <= 0.0 ==> n <= 0.0
    ensures n * d > 0.0 ==> n > 0.0
  {
  }

  /**
   A point's shortfall from its running peak covers its fall from an earlier positive point exactly when
   the later equity is not negative, or the earlier point is that peak.
   */
  lemma FallCoversExactly(path: seq<int>, i: nat, j: nat)
    requires i <= j < |path| && 0 < path[i]
    ensures Shortfall(path[i], path[j]) <= Fall(path, j) <==> 0 <= path[j] || path[i] == RunningPeak(path, j)
  {
    RunningPeakBounds(path, i, j);
    ShortfallOrder(path[i], RunningPeak(path, j), path[j]);
  }

  /** So while equity stays non-negative the reported drawdown covers every fall from a positive point. */
  lemma DrawdownCoversEveryFall(path: seq<int>, worst: real, i: nat, j: nat)
    requires i <= j < |path| && 0 < path[i] && 0 <= path[j]
    requires forall k: nat | k < |path| :: Fall(path, k) <= worst
    ensures Shortfall(path[i], path[j]) <= worst
  {
    FallCoversExactly(path, i, j);
    assert Fall(path, j) <= worst;
  }

  /** Below zero it need not: a higher peak makes the fraction lost smaller. */
  lemma NegativeEquityEscapes()
    ensures var path := [100, 200, -100];
            Shortfall(path[0], path[2]) == 2.0 && forall k: nat | k < 3 :: Fall(path, k) <= 1.5
  {
    assert RunningPeak([100, 200, -100], 1) == 200;
  }
}
