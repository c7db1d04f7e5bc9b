/** The penalty score that chooses the mask: runs, finder-like patterns, 2x2 blocks, balance. */
module QrPenalty {
  import opened Arithmetic
  import opened QrGrid

  const PENALTY_N1 := 3
  const PENALTY_N2 := 3
  const PENALTY_N3 := 40
  const PENALTY_N4 := 10

  // ---------- Runs of a line ----------

  /** The runs of a line that are finished, and the length of the current one. Runs alternate in
      color and the first is light, possibly empty. */
  datatype LineState = LineState(closed: seq<nat>, run: nat) {
    /** The color of the current run. */
    predicate Color() { |closed| % 2 == 1 }
  }

  function ScanState(line: seq<bool>): LineState {
    if line == [] then LineState([], 0)
    else
      var s, c := ScanState(line[..|line| - 1]), line[|line| - 1];
      if c == s.Color() then s.(run := s.run + 1) else LineState(s.closed + [s.run], 1)
  }

  function Runs(line: seq<bool>): (runs: seq<nat>)
    ensures runs != []
  {
    ScanState(line).closed + [ScanState(line).run]
  }

  function Same(n: nat, c: bool): (s: seq<bool>)
    ensures |s| == n && forall i :: 0 <= i < n ==> s[i] == c
  {
    seq(n, i => c)
  }

  /** The line with the given alternating runs, light first. */
  function Expand(runs: seq<nat>): seq<bool> {
    if runs == [] then []
    else
      var n := |runs| - 1;
      Expand(runs[..n]) + Same(runs[n], n % 2 == 1)
  }

  /** Every run but the first is non-empty. */
  predicate Proper(runs: seq<nat>) {
    runs != [] && forall i :: 0 < i < |runs| ==> runs[i] > 0
  }

  lemma ExpandAppend(runs: seq<nat>, r: nat)
    ensures Expand(runs + [r]) == Expand(runs) + Same(r, |runs| % 2 == 1)
  {
    assert (runs + [r])[..|runs|] == runs;
  }

  lemma ProperAppend(runs: seq<nat>, r: nat)
    ensures Proper(runs + [r]) <==> runs == [] || (Proper(runs) && r > 0)
  {
    if Proper(runs + [r]) && runs != [] {
      assert forall i :: 0 < i < |runs| ==> runs[i] == (runs + [r])[i];
      assert (runs + [r])[|runs|] == r;
    }
  }

  lemma SameMore(n: nat, c: bool)
    ensures Same(n + 1, c) == Same(n, c) + [c]
  {}

  ghost predicate MakesUp(closed: seq<nat>, run: nat, line: seq<bool>) {
    Proper(closed + [run]) && Expand(closed + [run]) == line
  }

  lemma MakesUpLonger(closed: seq<nat>, run: nat, line: seq<bool>)
    requires MakesUp(closed, run, line)
    ensures MakesUp(closed, run + 1, line + [|closed| % 2 == 1])
  {
    hide Expand, Proper, Same;
    ExpandAppend(closed, run);
    ExpandAppend(closed, run + 1);
    ProperAppend(closed, run);
    ProperAppend(closed, run + 1);
    SameMore(run, |closed| % 2 == 1);
  }

  lemma MakesUpNew(closed: seq<nat>, run: nat, line: seq<bool>)
    requires MakesUp(closed, run, line)
    ensures MakesUp(closed + [run], 1, line + [|closed| % 2 == 0])
  {
    hide Expand, Proper, Same;
    ExpandAppend(closed + [run], 1);
    ProperAppend(closed + [run], 1);
    assert Same(1, |closed| % 2 == 0) == [|closed| % 2 == 0];
  }

  /** The runs are maximal and make up the line. */
  lemma {:induction false} RunsMakeUpLine(line: seq<bool>)
    ensures Proper(Runs(line)) && Expand(Runs(line)) == line
  {
    hide Expand, Proper;
    if line == [] {
      ExpandAppend([], 0);
      ProperAppend([], 0);
      assert [] + [0] == [0] == Runs([]);
      NothingExpanded();
    } else {
      var init, c := line[..|line| - 1], line[|line| - 1];
      var s := ScanState(init);
      RunsMakeUpLine(init);
      assert line == init + [c];
      if c == s.Color() {
        MakesUpLonger(s.closed, s.run, init);
      } else {
        MakesUpNew(s.closed, s.run, init);
      }
    }
  }

  lemma NothingExpanded()
    ensures Expand([]) == [] && Same(0, false) == []
  {}

  /** No other alternating runs make up the same line. */
  lemma {:induction false} RunsUnique(line: seq<bool>, runs: seq<nat>)
    requires Proper(runs) && Expand(runs) == line
    ensures runs == Runs(line)
    decreases |line|
  {
    hide Expand, Proper, Same;
    var n := |runs| - 1;
    assert n >= 0 by { assert Proper(runs); NonEmpty(runs); }
    var a, r, c := runs[..n], runs[n], n % 2 == 1;
    assert runs == a + [r];
    ExpandAppend(a, r);
    ProperAppend(a, r);
    if r == 0 {
      assert a == [] && line == [] by { NothingExpanded(); }
      assert Runs([]) == [0];
    } else {
      SameMore(r - 1, c);
      var init := Expand(a) + Same(r - 1, c);
      assert line == init + [c] && line[..|line| - 1] == init;
      if r == 1 && n > 0 {
        assert init == Expand(a);
        RunsUnique(init, a);
        var s := ScanState(init);
        assert runs == s.closed + [s.run] + [1];
        LastOf(a[..n - 1], a[n - 1], s.closed, s.run);
      } else {
        ExpandAppend(a, r - 1);
        ProperAppend(a, r - 1);
        RunsUnique(init, a + [r - 1]);
        var s := ScanState(init);
        LastOf(s.closed, s.run, a, r - 1);
      }
    }
  }

  lemma LastOf(a: seq<nat>, x: nat, b: seq<nat>, y: nat)
    requires a + [x] == b + [y]
    ensures a == b && x == y
  {
    assert a == (a + [x])[..|a|] && x == (a + [x])[|a|];
    assert b == (b + [y])[..|b|] && y == (b + [y])[|b|];
  }

  lemma NonEmpty(runs: seq<nat>)
    requires Proper(runs)
    ensures runs != []
  {}

  // ---------- Scores of a line ----------

  /** A run of length L >= 5 costs L - 2. */
  function RunCost(length: nat): nat { if length >= 5 then length - 2 else 0 }

  function RunScore(runs: seq<nat>): nat {
    if runs == [] then 0 else RunScore(runs[..|runs| - 1]) + RunCost(runs[|runs| - 1])
  }

  /** The seven latest runs, newest first, with zeros where there are fewer. */
  function History(runs: seq<nat>): (h: seq<nat>)
    ensures |h| == 7
  {
    seq(7, i requires 0 <= i < 7 => if i < |runs| then runs[|runs| - 1 - i] else 0)
  }

  /** How many finder-like patterns (dark 1:1:3:1:1 between light areas) end with the newest run. */
  function CountPatterns(h: seq<nat>): nat
    requires |h| == 7
  {
    var n := h[1];
    var core := n > 0 && h[2] == n && h[3] == n * 3 && h[4] == n && h[5] == n;
    (if core && h[0] >= n * 4 && h[6] >= n then 1 else 0) + (if core && h[6] >= n * 4 && h[0] >= n then 1 else 0)
  }

  /** Patterns that end with the last run, which has to be light. */
  function PatternsAtEnd(runs: seq<nat>): nat {
    if |runs| % 2 == 1 then CountPatterns(History(runs)) else 0
  }

  /** Patterns over all light runs. */
  function FinderScore(runs: seq<nat>): nat {
    if runs == [] then 0 else FinderScore(runs[..|runs| - 1]) + PatternsAtEnd(runs)
  }

  /** The finished runs, the first one widened by a light border. */
  function LeftBorder(runs: seq<nat>, size: nat): (r: seq<nat>)
    ensures |r| == |runs|
  {
    if runs == [] then [] else [runs[0] + size] + runs[1..]
  }

  /** All runs of a line that lies between two light borders of `size` modules. */
  function Bordered(runs: seq<nat>, size: nat): seq<nat>
    requires runs != []
  {
    var n := |runs| - 1;
    if n % 2 == 0 then LeftBorder(runs[..n] + [runs[n] + size], size) else LeftBorder(runs, size) + [size]
  }

  function LinePenalty(line: seq<bool>, size: nat): nat {
    RunScore(Runs(line)) + PENALTY_N3 * FinderScore(Bordered(Runs(line), size))
  }

  /** Pushes a run to the front of the history and drops the last value. */
  method AddHistory(currentRun: nat, history: seq<nat>, size: nat, ghost runs: seq<nat>) returns (h: seq<nat>)
    requires size > 0 && history == History(LeftBorder(runs, size)) && Proper(runs + [currentRun])
    ensures h == History(LeftBorder(runs + [currentRun], size))
  {
    var run := currentRun;
    assert runs != [] ==> history[0] == LeftBorder(runs, size)[|runs| - 1];
    assert forall i :: 0 < i < |runs| ==> runs[i] == (runs + [currentRun])[i];
    if history[0] == 0 {
      run := run + size;
    }
    h := [run] + history[..6];
    LeftBorderAppend(runs, currentRun, size);
  }

  lemma FinderScoreAppend(runs: seq<nat>, r: nat)
    ensures FinderScore(runs + [r]) == FinderScore(runs) + PatternsAtEnd(runs + [r])
  {
    hide PatternsAtEnd;
    assert (runs + [r])[..|runs|] == runs;
  }

  lemma RunScoreAppend(runs: seq<nat>, r: nat)
    ensures RunScore(runs + [r]) == RunScore(runs) + RunCost(r)
  {
    assert (runs + [r])[..|runs|] == runs;
  }

  lemma LeftBorderAppend(runs: seq<nat>, r: nat, size: nat)
    ensures LeftBorder(runs + [r], size) == LeftBorder(runs, size) + [if runs == [] then r + size else r]
  {}

  /** One more finished run: what it adds to the finder score. */
  lemma CloseRun(closed: seq<nat>, run: nat, size: nat)
    ensures FinderScore(LeftBorder(closed + [run], size)) == FinderScore(LeftBorder(closed, size))
      + (if |closed| % 2 == 0 then CountPatterns(History(LeftBorder(closed + [run], size))) else 0)
  {
    hide FinderScore, CountPatterns, History;
    LeftBorderAppend(closed, run, size);
    FinderScoreAppend(LeftBorder(closed, size), if closed == [] then run + size else run);
  }

  method TerminateAndCount(currentColor: bool, currentRun: nat, history: seq<nat>, size: nat, ghost closed: seq<nat>)
      returns (n: nat)
    requires size > 0 && history == History(LeftBorder(closed, size)) && Proper(closed + [currentRun])
    requires currentColor == (|closed| % 2 == 1)
    ensures FinderScore(Bordered(closed + [currentRun], size)) == FinderScore(LeftBorder(closed, size)) + n
  {
    hide FinderScore, CountPatterns, History, LeftBorder, Proper;
    var run, h := currentRun, history;
    ghost var runs := closed;
    ProperAppend(closed, run);
    assert (closed + [run])[..|closed|] == closed;
    LeftBorderAppend(closed, run, size);
    if currentColor {
      h := AddHistory(run, h, size, runs);
      CloseRun(runs, run, size);
      runs := runs + [run];
      run := 0;
    }
    run := run + size;
    ProperAppend(runs, run);
    h := AddHistory(run, h, size, runs);
    CloseRun(runs, run, size);
    LeftBorderAppend(runs, run, size);
    n := CountPatterns(h);
    assert Bordered(closed + [currentRun], size) == LeftBorder(runs + [run], size);
  }

  /** The current run grows by one module. */
  lemma GrowRun(closed: seq<nat>, run: nat)
    requires Proper(closed + [run])
    ensures Proper(closed + [run + 1])
    ensures RunScore(closed + [run + 1])
      == RunScore(closed + [run]) + (if run + 1 == 5 then PENALTY_N1 else if run + 1 > 5 then 1 else 0)
  {
    RunScoreAppend(closed, run);
    RunScoreAppend(closed, run + 1);
    ProperAppend(closed, run);
    ProperAppend(closed, run + 1);
  }

  /** A run of the other color starts. */
  lemma StartRun(closed: seq<nat>, run: nat)
    requires Proper(closed + [run])
    ensures Proper(closed + [run] + [1])
    ensures RunScore(closed + [run] + [1]) == RunScore(closed + [run])
  {
    RunScoreAppend(closed + [run], 1);
    ProperAppend(closed + [run], 1);
  }

  lemma ScanStateNext(line: seq<bool>, x: nat)
    requires x < |line|
    ensures var s := ScanState(line[..x]);
      ScanState(line[..x + 1]) == if line[x] == s.Color() then s.(run := s.run + 1)
          else LineState(s.closed + [s.run], 1)
  {
    assert line[..x + 1][..x] == line[..x];
  }

  /** One pass over a row or column. */
  method ScanLine(line: seq<bool>, size: nat) returns (result: nat)
    requires size > 0
    ensures result == LinePenalty(line, size)
  {
    hide FinderScore, CountPatterns, History, RunScore, LeftBorder, Proper, ScanState;
    result := 0;
    var runColor, run := false, 0;
    var history := seq(7, i => 0);
    ghost var closed: seq<nat> := [];
    ScanStart(size);
    assert line[..0] == [] && [] + [0] == [0];
    for x := 0 to |line|
      invariant ScanState(line[..x]) == LineState(closed, run) && runColor == (|closed| % 2 == 1)
      invariant history == History(LeftBorder(closed, size))
      invariant result == RunScore(closed + [run]) + PENALTY_N3 * FinderScore(LeftBorder(closed, size))
      invariant Proper(closed + [run])
    {
      ScanStateNext(line, x);
      if line[x] == runColor {
        GrowRun(closed, run);
        run := run + 1;
        if run == 5 {
          result := result + PENALTY_N1;
        } else if run > 5 {
          result := result + 1;
        }
      } else {
        StartRun(closed, run);
        CloseRun(closed, run, size);
        history := AddHistory(run, history, size, closed);
        if !runColor {
          result := result + CountPatterns(history) * PENALTY_N3;
        }
        closed := closed + [run];
        runColor := line[x];
        run := 1;
      }
    }
    assert line[..|line|] == line;
    var n := TerminateAndCount(runColor, run, history, size, closed);
    result := result + n * PENALTY_N3;
  }

  lemma ScanStart(size: nat)
    ensures seq(7, i => 0) == History(LeftBorder([], size))
    ensures RunScore([0]) == 0 && FinderScore(LeftBorder([], size)) == 0 && Proper([0])
    ensures ScanState([]) == LineState([], 0)
  {
    assert RunScore([0][..0]) == 0;
  }

  // ---------- The whole grid ----------

  function Column(g: Grid, x: nat): (c: seq<bool>)
    requires Square(g, |g|) && x < |g|
    ensures |c| == |g|
  {
    seq(|g|, y requires 0 <= y < |g| => g[y][x])
  }

  function RowsPenalty(g: Grid, n: nat): nat
    requires Square(g, |g|) && n <= |g|
  {
    if n == 0 then 0 else RowsPenalty(g, n - 1) + LinePenalty(g[n - 1], |g|)
  }

  function ColumnsPenalty(g: Grid, n: nat): nat
    requires Square(g, |g|) && n <= |g|
  {
    if n == 0 then 0 else ColumnsPenalty(g, n - 1) + LinePenalty(Column(g, n - 1), |g|)
  }

  /** The 2x2 block at (x, y) has one color. */
  predicate Uniform(g: Grid, x: nat, y: nat)
    requires Square(g, |g|) && x + 1 < |g| && y + 1 < |g|
  {
    g[y][x] == g[y][x + 1] && g[y][x] == g[y + 1][x] && g[y][x] == g[y + 1][x + 1]
  }

  function BlocksInRow(g: Grid, y: nat, n: nat): nat
    requires Square(g, |g|) && y + 1 < |g| && n < |g|
  {
    if n == 0 then 0 else BlocksInRow(g, y, n - 1) + (if Uniform(g, n - 1, y) then 1 else 0)
  }

  function Blocks(g: Grid, n: nat): nat
    requires Square(g, |g|) && n < |g|
  {
    if n == 0 then 0 else Blocks(g, n - 1) + BlocksInRow(g, n - 1, |g| - 1)
  }

  function DarkInLine(line: seq<bool>, n: nat): (d: nat)
    requires n <= |line|
    ensures d <= n
  {
    if n == 0 then 0 else DarkInLine(line, n - 1) + (if line[n - 1] then 1 else 0)
  }

  function Dark(g: Grid, n: nat): (d: nat)
    requires Square(g, |g|) && n <= |g|
    ensures d <= n * |g|
  {
    if n == 0 then 0
    else
      assert n * |g| == (n - 1) * |g| + |g|;
      Dark(g, n - 1) + DarkInLine(g[n - 1], |g|)
  }

  /** How far the share of dark modules is from one half, in steps of 5%. */
  function Balance(dark: nat, total: nat): int
    requires total > 0
  {
    (Abs(dark * 20 - total * 10) + total - 1) / total - 1
  }

  /** (45 - 5k)% <= dark / total <= (55 + 5k)%. */
  predicate WithinBalance(dark: nat, total: nat, k: nat) {
    (45 - 5 * k) * total <= 100 * dark <= (55 + 5 * k) * total
  }

  /** For an odd number of modules the balance is the smallest k >= 0 within the bounds. */
  lemma BalanceIsSmallest(dark: nat, total: nat)
    requires dark <= total && total % 2 == 1
    ensures 0 <= Balance(dark, total) <= 9
    ensures WithinBalance(dark, total, Balance(dark, total))
    ensures forall k: nat :: k < Balance(dark, total) ==> !WithinBalance(dark, total, k)
  {
    var d := Abs(dark * 20 - total * 10);
    assert d >= 1 && d <= 10 * total;
    var k := (d + total - 1) / total - 1;
    Ceiling(d, total, k);
    assert k < 10 by {
      if k >= 10 { MulAtLeast(10, k, total); }
    }
    BalanceAt(dark, total, k);
    forall m: nat | m < k
      ensures !WithinBalance(dark, total, m)
    {
      BalanceAt(dark, total, m);
      MulAtLeast(m + 1, k, total);
    }
  }

  /** k + 1 is d / total rounded up. */
  lemma Ceiling(d: nat, total: nat, k: int)
    requires total > 0 && d >= 1 && k == (d + total - 1) / total - 1
    ensures k >= 0 && k * total < d <= (k + 1) * total
  {
    var n := d + total - 1;
    var q, r := n / total, n % total;
    assert n == q * total + r;
    assert q == k + 1 && (k + 1) * total == k * total + total;
    if k < 0 { MulAtMost(k + 1, total); }
  }

  lemma MulAtMost(a: int, b: nat)
    requires a <= 0
    ensures a * b <= 0
  {}

  lemma MulAtLeast(a: int, b: int, c: nat)
    requires a <= b
    ensures a * c <= b * c
  {
    assert b * c == a * c + (b - a) * c;
    assert 0 <= (b - a) * c;
  }

  lemma BalanceAt(dark: nat, total: nat, k: nat)
    ensures WithinBalance(dark, total, k) <==> Abs(dark * 20 - total * 10) <= (k + 1) * total
  {
    assert (45 - 5 * k) * total == 45 * total - 5 * (k * total);
    assert (55 + 5 * k) * total == 55 * total + 5 * (k * total);
    assert (k + 1) * total == k * total + total;
  }

  /** The total penalty of a grid. */
  function PenaltyScore(g: Grid): int
    requires Square(g, |g|) && g != []
  {
    RowsPenalty(g, |g|) + ColumnsPenalty(g, |g|) + PENALTY_N2 * Blocks(g, |g| - 1)
    + PENALTY_N4 * Balance(Dark(g, |g|), |g| * |g|)
  }

  method GetPenaltyScore(modules: Grid) returns (result: int)
    requires Square(modules, |modules|) && modules != []
    ensures result == PenaltyScore(modules)
    ensures |modules| <= 177 && |modules| % 2 == 1 ==> 0 <= result <= 2_568_888
  {
    hide LinePenalty, Balance;
    var size := |modules|;
    result := 0;
    for y := 0 to size
      invariant result == RowsPenalty(modules, y)
    {
      var line := ScanLine(modules[y], size);
      result := result + line;
    }
    for x := 0 to size
      invariant result == RowsPenalty(modules, size) + ColumnsPenalty(modules, x)
    {
      var line := ScanLine(Column(modules, x), size);
      result := result + line;
    }
    for y := 0 to size - 1
      invariant result == RowsPenalty(modules, size) + ColumnsPenalty(modules, size) + PENALTY_N2 * Blocks(modules, y)
    {
      ghost var before := result;
      for x := 0 to size - 1
        invariant result == before + PENALTY_N2 * BlocksInRow(modules, y, x)
      {
        var color := modules[y][x];
        if color == modules[y][x + 1] && color == modules[y + 1][x] && color == modules[y + 1][x + 1] {
          result := result + PENALTY_N2;
        }
      }
    }
    var dark := 0;
    for y := 0 to size
      invariant dark == Dark(modules, y)
    {
      for x := 0 to size
        invariant dark == Dark(modules, y) + DarkInLine(modules[y], x)
      {
        if modules[y][x] {
          dark := dark + 1;
        }
      }
    }
    var total := size * size;
    result := result + Balance(dark, total) * PENALTY_N4;
    assert result == PenaltyScore(modules);
    if size <= 177 && size % 2 == 1 {
      PenaltyBound(modules);
    }
  }

  // ---------- No score comes near the starting minimum ----------

  /** Every finished run costs less than its length; only a first run may be empty. */
  lemma {:induction false} StateBound(line: seq<bool>)
    ensures var s := ScanState(line);
      RunScore(s.closed) + |s.closed| + s.run <= |line| + 1 && (line != [] ==> s.run > 0)
  {
    if line != [] {
      var s := ScanState(line[..|line| - 1]);
      StateBound(line[..|line| - 1]);
      RunScoreAppend(s.closed, s.run);
    }
  }

  lemma RunsBound(line: seq<bool>)
    requires line != []
    ensures RunScore(Runs(line)) + |Runs(line)| <= |line| + 1
  {
    StateBound(line);
    RunScoreAppend(ScanState(line).closed, ScanState(line).run);
  }

  /** A pattern needs seven runs, and at most two end with every other one from there on. */
  lemma {:induction false} FinderScoreBound(runs: seq<nat>)
    ensures FinderScore(runs) <= if |runs| < 7 then 0 else |runs| - 6 + |runs| % 2
  {
    if runs != [] {
      FinderScoreBound(runs[..|runs| - 1]);
      if |runs| < 7 {
        assert History(runs)[6] == 0;
      }
    }
  }

  lemma LineBound(line: seq<bool>, size: nat)
    requires 0 < |line| <= 177
    ensures LinePenalty(line, size) <= 6960
  {
    hide FinderScore, RunScore, Runs, LeftBorder;
    RunsBound(line);
    FinderScoreBound(Bordered(Runs(line), size));
  }

  lemma {:induction false} LinesBound(g: Grid, n: nat)
    requires Square(g, |g|) && |g| <= 177 && n <= |g|
    ensures RowsPenalty(g, n) <= n * 6960 && ColumnsPenalty(g, n) <= n * 6960
  {
    hide LinePenalty;
    if n > 0 {
      LinesBound(g, n - 1);
      LineBound(g[n - 1], |g|);
      LineBound(Column(g, n - 1), |g|);
    }
  }

  lemma {:induction false} BlocksBound(g: Grid, n: nat)
    requires Square(g, |g|) && |g| <= 177 && n < |g|
    ensures Blocks(g, n) <= n * 176
  {
    if n > 0 {
      BlocksBound(g, n - 1);
      BlocksInRowBound(g, n - 1, |g| - 1);
    }
  }

  lemma {:induction false} BlocksInRowBound(g: Grid, y: nat, n: nat)
    requires Square(g, |g|) && y + 1 < |g| && n < |g|
    ensures BlocksInRow(g, y, n) <= n
  {
    if n > 0 { BlocksInRowBound(g, y, n - 1); }
  }

  lemma PenaltyBound(g: Grid)
    requires Square(g, |g|) && 0 < |g| <= 177 && |g| % 2 == 1
    ensures 0 <= PenaltyScore(g) <= 2_556_858 < 2_568_888
  {
    hide Balance, RowsPenalty, ColumnsPenalty, Blocks;
    LinesBound(g, |g|);
    BlocksBound(g, |g| - 1);
    OddSquare(|g|);
    BalanceIsSmallest(Dark(g, |g|), |g| * |g|);
  }

  lemma OddSquare(n: nat)
    requires n % 2 == 1
    ensures n * n % 2 == 1 && n * n > 0
  {
    var h := n / 2;
    assert n == 2 * h + 1;
    assert n * n == 2 * (2 * (h * h) + 2 * h) + 1;
  }
}
