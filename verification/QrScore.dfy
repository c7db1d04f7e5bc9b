/** The penalty score in terms of the modules of the grid: what the run histories count are stretches of
    equal modules and finder-like patterns that stand in a line between two light borders. */
module QrScore {
  import opened QrGrid
  import opened QrPenalty

  // ---------- Finder-like patterns in a line ----------

  /** The modules from .. to - 1 have color c. */
  predicate Filled(line: seq<bool>, from: int, to: int, c: bool) {
    0 <= from <= to <= |line| && forall i :: from <= i < to ==> line[i] == c
  }

  /** They are a whole run: none of the neighbours has that color. */
  predicate WholeRun(line: seq<bool>, from: int, to: int, c: bool) {
    && Filled(line, from, to, c) && from < to
    && (from > 0 ==> line[from - 1] != c)
    && (to < |line| ==> line[to] != c)
  }

  /** Whole runs dark n, light n, dark 3n, light n, dark n from p on, with light modules on both sides. */
  predicate FinderAt(line: seq<bool>, p: nat, n: nat, left: nat, right: nat) {
    && WholeRun(line, p, p + n, true) && WholeRun(line, p + n, p + 2 * n, false)
    && WholeRun(line, p + 2 * n, p + 5 * n, true)
    && WholeRun(line, p + 5 * n, p + 6 * n, false) && WholeRun(line, p + 6 * n, p + 7 * n, true)
    && Filled(line, p - left, p, false) && Filled(line, p + 7 * n, p + 7 * n + right, false)
  }

  /** One side has at least 4n light modules, the other at least n. */
  datatype Finder = Finder(start: nat, unit: nat, wideLeft: bool)

  predicate IsFinder(line: seq<bool>, f: Finder) {
    var n := f.unit;
    FinderAt(line, f.start, n, if f.wideLeft then 4 * n else n, if f.wideLeft then n else 4 * n)
  }

  ghost function Finders(line: seq<bool>): set<Finder> {
    set p: nat, n: nat, wide: bool | p <= |line| && n <= |line| && IsFinder(line, Finder(p, n, wide))
      :: Finder(p, n, wide)
  }

  lemma InFinders(line: seq<bool>, f: Finder)
    ensures f in Finders(line) <==> IsFinder(line, f)
  {
    if IsFinder(line, f) {
      assert f == Finder(f.start, f.unit, f.wideLeft);
      assert f.start + 7 * f.unit <= |line|;
    }
  }

  // ---------- The runs of a line, seen from its modules ----------

  predicate Positive(runs: seq<nat>) { forall i :: 0 <= i < |runs| ==> runs[i] > 0 }

  /** Where run k starts. */
  function Start(runs: seq<nat>, k: nat): nat
    requires k <= |runs|
  {
    if k == 0 then 0 else Start(runs, k - 1) + runs[k - 1]
  }

  lemma {:induction false} StartOfPrefix(runs: seq<nat>, n: nat, k: nat)
    requires k <= n <= |runs|
    ensures Start(runs[..n], k) == Start(runs, k)
  {
    if k > 0 { StartOfPrefix(runs, n, k - 1); }
  }

  lemma {:induction false} StartGrows(runs: seq<nat>, j: nat, k: nat)
    requires j <= k <= |runs|
    ensures Start(runs, j) <= Start(runs, k)
    decreases k
  {
    if j < k { StartGrows(runs, j, k - 1); }
  }

  /** Run k fills the modules from its start to the start of the next. */
  lemma {:induction false} RunIsFilled(runs: seq<nat>, k: nat)
    requires k < |runs|
    ensures |Expand(runs)| == Start(runs, |runs|)
    ensures Filled(Expand(runs), Start(runs, k), Start(runs, k + 1), k % 2 == 1)
    decreases |runs|
  {
    hide Same, Start;
    var n := |runs| - 1;
    var init := runs[..n];
    assert Start(runs, n + 1) == Start(runs, n) + runs[n] by { StartIs(runs, n); }
    assert |Expand(init)| == Start(runs, n) by {
      StartOfPrefix(runs, n, n);
      if n > 0 { RunIsFilled(init, 0); } else { StartZero(runs); }
    }
    StartGrows(runs, k, n);
    assert Expand(runs) == Expand(init) + Same(runs[n], n % 2 == 1);
    if k < n {
      RunIsFilled(init, k);
      StartOfPrefix(runs, n, k);
      StartOfPrefix(runs, n, k + 1);
      StartGrows(runs, k + 1, n);
    }
  }

  lemma StartZero(runs: seq<nat>)
    ensures Start(runs, 0) == 0 && |Expand([])| == 0
  {}

  lemma StartIs(runs: seq<nat>, k: nat)
    requires k < |runs|
    ensures Start(runs, k + 1) == Start(runs, k) + runs[k]
  {}

  /** The whole run that ends where run k ends is run k. */
  lemma RunEnding(runs: seq<nat>, k: nat, a: int, c: bool)
    requires Positive(runs) && k < |runs|
    ensures WholeRun(Expand(runs), a, Start(runs, k + 1), c) <==> a == Start(runs, k) && c == (k % 2 == 1)
  {
    hide Start, Expand;
    var line := Expand(runs);
    RunIsFilled(runs, k);
    StartIs(runs, k);
    assert line[Start(runs, k + 1) - 1] == (k % 2 == 1);
    StartGrows(runs, k + 1, |runs|);
    if k > 0 {
      RunIsFilled(runs, k - 1);
      StartIs(runs, k - 1);
      assert line[Start(runs, k) - 1] == (k % 2 == 0);
    } else {
      StartZero(runs);
    }
    if k + 1 < |runs| {
      RunIsFilled(runs, k + 1);
      StartIs(runs, k + 1);
      assert line[Start(runs, k + 1)] == (k % 2 == 0);
    }
  }

  /** How much light there is before a dark run, and after it. */
  lemma LightBefore(runs: seq<nat>, k: nat, n: nat)
    requires Positive(runs) && k < |runs| && k % 2 == 1
    ensures Filled(Expand(runs), Start(runs, k) - n, Start(runs, k), false) <==> n <= runs[k - 1]
  {
    hide Start, Expand;
    var line := Expand(runs);
    StartIs(runs, k - 1);
    RunIsFilled(runs, k - 1);
    if k == 1 {
      StartZero(runs);
    } else {
      RunIsFilled(runs, k - 2);
      StartIs(runs, k - 2);
      assert line[Start(runs, k - 1) - 1];
    }
  }

  lemma LightAfter(runs: seq<nat>, n: nat)
    requires runs != [] && |runs| % 2 == 1
    ensures var e := Start(runs, |runs| - 1); Filled(Expand(runs), e, e + n, false) <==> n <= runs[|runs| - 1]
  {
    hide Start, Expand;
    RunIsFilled(runs, |runs| - 1);
    StartIs(runs, |runs| - 1);
  }

  // ---------- Every pattern is counted when the light run behind it ends ----------

  /** The last six runs before the last one have the proportions 1:1:3:1:1 between two wide enough ones. */
  predicate Proportions(runs: seq<nat>, n: nat, left: nat, right: nat) {
    var m := |runs|;
    && m >= 7 && runs[m - 2] == n && runs[m - 3] == n && runs[m - 4] == 3 * n && runs[m - 5] == n && runs[m - 6] == n
    && left <= runs[m - 7] && right <= runs[m - 1]
  }

  /** Five whole runs that end where the last run begins, one before the other. */
  lemma FiveRuns(runs: seq<nat>, p: nat, n: nat)
    requires Positive(runs) && |runs| % 2 == 1 && p + 7 * n == Start(runs, |runs| - 1)
    ensures FinderAt(Expand(runs), p, n, 0, 0) ==> |runs| >= 7 && p == Start(runs, |runs| - 6)
    ensures |runs| >= 7 ==> (FinderAt(Expand(runs), p, n, 0, 0) <==> Proportions(runs, n, 0, 0))
  {
    hide Start, Expand, WholeRun, Positive;
    var m, line := |runs|, Expand(runs);
    StartZero(runs);
    if m >= 3 {
      RunEnding(runs, m - 2, p + 6 * n, true);
      RunEnding(runs, m - 3, p + 5 * n, false);
      RunIsFilled(runs, 0);
      StartGrows(runs, m - 1, m);
    }
    if m >= 5 {
      RunEnding(runs, m - 4, p + 2 * n, true);
      RunEnding(runs, m - 5, p + n, false);
    }
    if m >= 7 {
      RunEnding(runs, m - 6, p, true);
      Lengths(runs, m);
    }
    if FinderAt(line, p, n, 0, 0) {
      EndsLater(line, p + 6 * n, p + 7 * n, true);
      EndsLater(line, p + 2 * n, p + 5 * n, true);
      EndsLater(line, p, p + n, true);
    }
  }

  lemma NoSides(line: seq<bool>, p: nat, n: nat, left: nat, right: nat)
    requires p + 7 * n <= |line|
    ensures FinderAt(line, p, n, left, right)
      <==> (&& FinderAt(line, p, n, 0, 0) && Filled(line, p - left, p, false)
            && Filled(line, p + 7 * n, p + 7 * n + right, false))
  {
    hide WholeRun;
  }

  /** The pattern whose last dark run is the last but one. */
  lemma FinderEnding(runs: seq<nat>, p: nat, n: nat, left: nat, right: nat)
    requires Positive(runs) && |runs| % 2 == 1 && p + 7 * n == Start(runs, |runs| - 1)
    ensures FinderAt(Expand(runs), p, n, left, right) <==> Proportions(runs, n, left, right)
    ensures FinderAt(Expand(runs), p, n, left, right) ==> p == Start(runs, |runs| - 6)
  {
    hide Start, Expand, FinderAt, Filled, Positive;
    FiveRuns(runs, p, n);
    LightAfter(runs, right);
    RunIsFilled(runs, 0);
    StartGrows(runs, |runs| - 1, |runs|);
    NoSides(Expand(runs), p, n, left, right);
    if Proportions(runs, n, 0, 0) { Lengths(runs, |runs|); }
    if |runs| >= 7 { LightBefore(runs, |runs| - 6, left); }
  }

  lemma EndsLater(line: seq<bool>, a: int, b: int, c: bool)
    requires WholeRun(line, a, b, c)
    ensures 0 <= a < b
  {}

  lemma Lengths(runs: seq<nat>, m: nat)
    requires 7 <= m == |runs|
    ensures Start(runs, m - 1) == Start(runs, m - 2) + runs[m - 2]
    ensures Start(runs, m - 2) == Start(runs, m - 3) + runs[m - 3]
    ensures Start(runs, m - 3) == Start(runs, m - 4) + runs[m - 4]
    ensures Start(runs, m - 4) == Start(runs, m - 5) + runs[m - 5]
    ensures Start(runs, m - 5) == Start(runs, m - 6) + runs[m - 6]
  {
    hide Start;
    StartIs(runs, m - 2);
    StartIs(runs, m - 3);
    StartIs(runs, m - 4);
    StartIs(runs, m - 5);
    StartIs(runs, m - 6);
  }

  /** Another run does not change what is filled before it. */
  lemma FilledBefore(line: seq<bool>, more: seq<bool>, from: int, to: int, c: bool)
    requires to <= |line|
    ensures Filled(line, from, to, c) <==> Filled(line + more, from, to, c)
  {
    if Filled(line + more, from, to, c) {
      assert forall i :: from <= i < to ==> line[i] == (line + more)[i];
    }
  }

  lemma WholeBefore(line: seq<bool>, more: seq<bool>, from: int, to: int, c: bool)
    requires to < |line|
    ensures WholeRun(line, from, to, c) <==> WholeRun(line + more, from, to, c)
  {
    hide Filled;
    FilledBefore(line, more, from, to, c);
    assert to >= 0 ==> (line + more)[to] == line[to];
    assert 0 < from <= to ==> (line + more)[from - 1] == line[from - 1];
  }

  /** A pattern whose right side ends inside the line is one whatever follows. */
  lemma FinderBefore(line: seq<bool>, more: seq<bool>, p: nat, n: nat, left: nat, right: nat)
    requires right > 0 && p + 7 * n + right <= |line|
    ensures FinderAt(line, p, n, left, right) <==> FinderAt(line + more, p, n, left, right)
  {
    hide WholeRun, Filled;
    WholeBefore(line, more, p, p + n, true);
    WholeBefore(line, more, p + n, p + 2 * n, false);
    WholeBefore(line, more, p + 2 * n, p + 5 * n, true);
    WholeBefore(line, more, p + 5 * n, p + 6 * n, false);
    WholeBefore(line, more, p + 6 * n, p + 7 * n, true);
    FilledBefore(line, more, p - left, p, false);
    FilledBefore(line, more, p + 7 * n, p + 7 * n + right, false);
  }

  /** A pattern that reaches into the last run: that run is light, and the pattern ends where it begins. */
  lemma FinderReaches(runs: seq<nat>, p: nat, n: nat, left: nat, right: nat)
    requires Positive(runs) && runs != [] && right > 0 && n > 0
    requires FinderAt(Expand(runs), p, n, left, right) && p + 7 * n + right > Start(runs, |runs| - 1)
    ensures |runs| % 2 == 1 && p + 7 * n == Start(runs, |runs| - 1)
  {
    hide Start, Expand;
    var m, line := |runs|, Expand(runs);
    var e := Start(runs, m - 1);
    RunIsFilled(runs, m - 1);
    StartIs(runs, m - 1);
    assert !line[p + 7 * n + right - 1] && line[p + 7 * n - 1];
    assert m % 2 == 1;
    assert p + 7 * n - 1 < e;
    if m > 1 {
      RunIsFilled(runs, m - 2);
      StartIs(runs, m - 2);
      assert line[e - 1];
    } else {
      StartZero(runs);
    }
  }

  /** The patterns that the last run completes. */
  ghost function Completed(runs: seq<nat>): set<Finder>
    requires runs != []
  {
    if |runs| % 2 == 1 then
      set f | f in Finders(Expand(runs)) && f.start + 7 * f.unit == Start(runs, |runs| - 1)
    else {}
  }

  lemma FindersGrow(runs: seq<nat>)
    requires Positive(runs) && runs != []
    ensures Finders(Expand(runs)) == Finders(Expand(runs[..|runs| - 1])) + Completed(runs)
    ensures Finders(Expand(runs[..|runs| - 1])) !! Completed(runs)
  {
    hide Expand, Start, Finders, FinderAt;
    var n := |runs| - 1;
    var init, line, last := Expand(runs[..n]), Expand(runs), Same(runs[n], n % 2 == 1);
    assert line == init + last by { ExpandLast(runs); }
    assert |init| == Start(runs, n) by { RunIsFilled(runs, n); StartIs(runs, n); }
    forall f: Finder
      ensures f in Finders(line) <==> f in Finders(init) || f in Completed(runs)
      ensures !(f in Finders(init) && f in Completed(runs))
    {
      InFinders(line, f);
      InFinders(init, f);
      var left, right := if f.wideLeft then 4 * f.unit else f.unit, if f.wideLeft then f.unit else 4 * f.unit;
      NoUnit(line, f);
      NoUnit(init, f);
      if f.unit > 0 {
        if f.start + 7 * f.unit + right <= |init| {
          FinderBefore(init, last, f.start, f.unit, left, right);
        } else {
          if IsFinder(line, f) { FinderReaches(runs, f.start, f.unit, left, right); }
          assert !IsFinder(init, f) by { Fits(init, f.start, f.unit, left, right); }
        }
      }
    }
  }

  lemma ExpandLast(runs: seq<nat>)
    requires runs != []
    ensures var n := |runs| - 1; Expand(runs) == Expand(runs[..n]) + Same(runs[n], n % 2 == 1)
  {}

  lemma NoUnit(line: seq<bool>, f: Finder)
    ensures IsFinder(line, f) ==> f.unit > 0
  {}

  lemma Fits(line: seq<bool>, p: nat, n: nat, left: nat, right: nat)
    ensures FinderAt(line, p, n, left, right) ==> p + 7 * n + right <= |line|
  {}

  predicate EndsInFinder(runs: seq<nat>, wide: bool)
    requires |runs| >= 7
  {
    var n := runs[|runs| - 2];
    Proportions(runs, n, if wide then 4 * n else n, if wide then n else 4 * n)
  }

  lemma CompletedIs(runs: seq<nat>, f: Finder)
    requires Positive(runs) && |runs| % 2 == 1
    ensures f in Completed(runs)
      <==> (&& |runs| >= 7 && EndsInFinder(runs, f.wideLeft)
            && f.unit == runs[|runs| - 2] && f.start == Start(runs, |runs| - 6))
  {
    hide Expand, Start, Finders, FinderAt, Positive;
    InFinders(Expand(runs), f);
    if f.start + 7 * f.unit == Start(runs, |runs| - 1) {
      FinderEnding(runs, f.start, f.unit, if f.wideLeft then 4 * f.unit else f.unit,
          if f.wideLeft then f.unit else 4 * f.unit);
    }
    if |runs| >= 7 { Lengths(runs, |runs|); }
  }

  lemma HistorySlots(runs: seq<nat>)
    ensures |runs| < 7 ==> History(runs)[6] == 0
    ensures |runs| >= 7 ==> forall k :: 0 <= k < 7 ==> History(runs)[k] == runs[|runs| - 1 - k]
  {}

  /** They are as many as the histories count. */
  lemma CompletedCount(runs: seq<nat>)
    requires Positive(runs) && runs != []
    ensures |Completed(runs)| == PatternsAtEnd(runs)
  {
    hide Expand, Start, Finders, FinderAt, Positive, History, Completed;
    var m := |runs|;
    if m % 2 == 1 {
      forall f: Finder
        ensures f in Completed(runs)
          <==> (m >= 7 && EndsInFinder(runs, f.wideLeft) && f.unit == runs[m - 2] && f.start == Start(runs, m - 6))
      {
        CompletedIs(runs, f);
      }
      HistorySlots(runs);
      if m >= 7 {
        var start, n := Start(runs, m - 6), runs[m - 2];
        var wideLeft, wideRight := Finder(start, n, true), Finder(start, n, false);
        var a, b := EndsInFinder(runs, true), EndsInFinder(runs, false);
        assert Completed(runs) == (if a then {wideLeft} else {}) + (if b then {wideRight} else {});
        PositiveUnit(runs);
      } else {
        assert Completed(runs) == {};
      }
    } else {
      NoneCompleted(runs);
    }
  }

  lemma PositiveUnit(runs: seq<nat>)
    requires Positive(runs) && |runs| >= 7
    ensures runs[|runs| - 2] > 0
  {}

  lemma NoneCompleted(runs: seq<nat>)
    requires |runs| % 2 == 0 && runs != []
    ensures Completed(runs) == {}
  {}

  /** All patterns of a line are counted, and none is counted twice. */
  lemma {:induction false} FinderScoreCounts(runs: seq<nat>)
    requires Positive(runs)
    ensures FinderScore(runs) == |Finders(Expand(runs))|
  {
    hide Expand, Finders, Completed, PatternsAtEnd;
    if runs == [] {
      assert Finders(Expand([])) == {} by { NoFinders(); }
    } else {
      var init := runs[..|runs| - 1];
      FinderScoreCounts(init);
      FindersGrow(runs);
      CompletedCount(runs);
    }
  }

  lemma NoFinders()
    ensures Finders(Expand([])) == {}
  {
    assert Expand([]) == [];
  }

  // ---------- The line between its borders ----------

  function Light(n: nat): (s: seq<bool>)
    ensures |s| == n && forall i :: 0 <= i < n ==> !s[i]
  {
    seq(n, i => false)
  }

  /** The modules outside the grid count as light. */
  function Extended(line: seq<bool>, size: nat): seq<bool> { Light(size) + line + Light(size) }

  lemma LightLast(init: seq<nat>, r: nat, size: nat)
    requires |init| % 2 == 0
    ensures Expand(init + [r + size]) == Expand(init + [r]) + Light(size)
  {
    hide Expand;
    ExpandAppend(init, r);
    ExpandAppend(init, r + size);
    assert Same(r + size, false) == Same(r, false) + Light(size);
  }

  lemma DarkLast(runs: seq<nat>, size: nat)
    requires |runs| % 2 == 0
    ensures Expand(LeftBorder(runs, size) + [size]) == Expand(LeftBorder(runs, size)) + Light(size)
  {
    hide Expand;
    ExpandAppend(LeftBorder(runs, size), size);
    assert Same(size, false) == Light(size);
  }

  lemma BorderedIsPositive(runs: seq<nat>, size: nat)
    requires Proper(runs) && size > 0
    ensures Positive(Bordered(runs, size))
  {}

  lemma BorderedIsExtended(line: seq<bool>, size: nat)
    requires size > 0
    ensures Positive(Bordered(Runs(line), size)) && Expand(Bordered(Runs(line), size)) == Extended(line, size)
  {
    hide Expand, Runs, Proper, Positive, LeftBorder, Light;
    var runs := Runs(line);
    RunsMakeUpLine(line);
    BorderedIsPositive(runs, size);
    var n := |runs| - 1;
    if n % 2 == 0 {
      LightLast(runs[..n], runs[n], size);
      assert runs == runs[..n] + [runs[n]];
      WidenFirst(runs[..n] + [runs[n] + size], size);
      assert Light(size) + (line + Light(size)) == Extended(line, size);
    } else {
      WidenFirst(runs, size);
      DarkLast(runs, size);
    }
  }

  lemma {:induction false} WidenFirst(runs: seq<nat>, size: nat)
    requires runs != []
    ensures Expand(LeftBorder(runs, size)) == Light(size) + Expand(runs)
  {
    hide Expand;
    var n := |runs| - 1;
    var init := runs[..n];
    assert runs == init + [runs[n]];
    ExpandAppend(init, runs[n]);
    LeftBorderAppend(init, runs[n], size);
    if n == 0 {
      NothingExpanded();
      assert LeftBorder(runs, size) == [] + [runs[0] + size];
      ExpandAppend([], runs[0] + size);
      assert Same(runs[0] + size, false) == Light(size) + Same(runs[0], false);
    } else {
      WidenFirst(init, size);
      ExpandAppend(LeftBorder(init, size), runs[n]);
      var last := Same(runs[n], n % 2 == 1);
      assert Light(size) + Expand(init) + last == Light(size) + (Expand(init) + last);
    }
  }

  // ---------- Stretches of five equal modules ----------

  /** Where five equal modules start, and where they start a run. */
  predicate FiveAt(line: seq<bool>, i: nat) { i + 5 <= |line| && Filled(line, i, i + 5, line[i]) }

  predicate LongRunAt(line: seq<bool>, i: nat) { FiveAt(line, i) && (i > 0 ==> line[i - 1] != line[i]) }

  ghost function Fives(line: seq<bool>): set<nat> { set i: nat | i < |line| && FiveAt(line, i) }

  ghost function LongRuns(line: seq<bool>): set<nat> { set i: nat | i < |line| && LongRunAt(line, i) }

  /** The current run is as long as it can be. */
  lemma {:induction false} CurrentRun(line: seq<bool>)
    ensures var s := ScanState(line);
      && Filled(line, |line| - s.run, |line|, s.Color()) && (line != [] ==> s.run > 0)
      && (s.run < |line| ==> line[|line| - s.run - 1] != s.Color())
  {
    if line != [] {
      var n := |line| - 1;
      CurrentRun(line[..n]);
      assert line == line[..n] + [line[n]];
    }
  }

  lemma FiveBefore(line: seq<bool>, i: nat)
    requires line != []
    ensures var init := line[..|line| - 1];
      && (FiveAt(init, i) <==> FiveAt(line, i) && i + 5 < |line|)
      && (LongRunAt(init, i) <==> LongRunAt(line, i) && i + 5 < |line|)
  {
    if i + 5 < |line| {
      FilledBefore(line[..|line| - 1], [line[|line| - 1]], i, i + 5, line[i]);
      assert line[..|line| - 1] + [line[|line| - 1]] == line;
    }
  }

  lemma InFives(line: seq<bool>, i: nat)
    ensures i in Fives(line) <==> FiveAt(line, i)
    ensures i in LongRuns(line) <==> LongRunAt(line, i)
    ensures LongRunAt(line, i) ==> FiveAt(line, i)
    ensures FiveAt(line, i) ==> i + 5 <= |line|
  {}

  /** One more module: five equal ones end with it when its run has reached five. */
  lemma FivesGrow(line: seq<bool>)
    requires line != []
    ensures var init, run := line[..|line| - 1], ScanState(line).run;
      && |Fives(line)| == |Fives(init)| + (if run >= 5 then 1 else 0)
      && |LongRuns(line)| == |LongRuns(init)| + (if run == 5 then 1 else 0)
  {
    hide ScanState, FiveAt, LongRunAt, Fives, LongRuns, Filled;
    var n, s := |line|, ScanState(line);
    var init := line[..n - 1];
    CurrentRun(line);
    if n >= 5 { LastFive(line, s.run, s.Color()); }
    RunFits(line, s.run, s.Color());
    forall k: nat
      ensures k in Fives(line) <==> k in Fives(init) || (s.run >= 5 && k == n - 5)
      ensures k in LongRuns(line) <==> k in LongRuns(init) || (s.run == 5 && k == n - 5)
      ensures k in Fives(init) || k in LongRuns(init) ==> k != n - 5
    {
      InFives(line, k);
      InFives(init, k);
      FiveBefore(line, k);
    }
    OneMore(Fives(init), Fives(line), n - 5, s.run >= 5);
    OneMore(LongRuns(init), LongRuns(line), n - 5, s.run == 5);
  }

  lemma OneMore(a: set<nat>, b: set<nat>, k: int, more: bool)
    requires (k < 0 ==> !more) && forall i: nat :: i in b <==> i in a || (more && i == k)
    requires forall i: nat :: i in a ==> i != k
    ensures |b| == |a| + (if more then 1 else 0)
  {
    if more {
      assert b == a + {k as nat};
    } else {
      assert b == a;
    }
  }

  lemma RunFits(line: seq<bool>, run: nat, c: bool)
    ensures Filled(line, |line| - run, |line|, c) ==> run <= |line|
  {}

  lemma LastFive(line: seq<bool>, run: nat, c: bool)
    requires |line| >= 5 && 0 < run <= |line| && Filled(line, |line| - run, |line|, c)
    requires run < |line| ==> line[|line| - run - 1] != c
    ensures FiveAt(line, |line| - 5) <==> run >= 5
    ensures LongRunAt(line, |line| - 5) <==> run == 5
  {
    assert line[|line| - 1] == c;
  }

  /** A run of five costs 3, every further module of it 1. */
  lemma {:induction false} RunScoreCounts(line: seq<bool>)
    ensures RunScore(Runs(line)) == |Fives(line)| + 2 * |LongRuns(line)|
  {
    hide RunScore, Fives, LongRuns, Proper;
    if line == [] {
      assert Runs([]) == [0];
      ScanStart(0);
      assert Fives(line) == {} && LongRuns(line) == {} by { NoFives(); }
    } else {
      var s := ScanState(line[..|line| - 1]);
      RunScoreCounts(line[..|line| - 1]);
      RunsMakeUpLine(line[..|line| - 1]);
      FivesGrow(line);
      if line[|line| - 1] == s.Color() {
        GrowRun(s.closed, s.run);
      } else {
        StartRun(s.closed, s.run);
      }
    }
  }

  lemma NoFives()
    ensures Fives([]) == {} && LongRuns([]) == {}
  {}

  // ---------- The score of a line and of the grid ----------

  /** Stretches of five, runs of at least five, and finder-like patterns; light modules outside the line
      count for the patterns alone. */
  lemma LineIsCounted(line: seq<bool>, size: nat)
    requires size > 0
    ensures LinePenalty(line, size) == |Fives(line)| + 2 * |LongRuns(line)| + 40 * |Finders(Extended(line, size))|
  {
    hide RunScore, Runs, Bordered, FinderScore, Finders, Fives, LongRuns, Positive, Expand;
    RunScoreCounts(line);
    BorderedIsExtended(line, size);
    FinderScoreCounts(Bordered(Runs(line), size));
  }

  /** Rows and columns exchanged. */
  function Transposed(g: Grid): (t: Grid)
    requires Square(g, |g|)
    ensures Square(t, |g|)
  {
    seq(|g|, y requires 0 <= y < |g| => seq(|g|, x requires 0 <= x < |g| => g[x][y]))
  }

  lemma ColumnsAreRows(g: Grid, x: nat)
    requires Square(g, |g|) && x < |g|
    ensures Column(g, x) == Transposed(g)[x] && Column(Transposed(g), x) == g[x]
  {}

  lemma {:induction false} LinesTransposed(g: Grid, n: nat)
    requires Square(g, |g|) && n <= |g|
    ensures RowsPenalty(Transposed(g), n) == ColumnsPenalty(g, n)
    ensures ColumnsPenalty(Transposed(g), n) == RowsPenalty(g, n)
  {
    hide LinePenalty, Transposed, Column;
    if n > 0 {
      LinesTransposed(g, n - 1);
      ColumnsAreRows(g, n - 1);
    }
  }

  /** The cells of the first columns and rows that have a property. */
  ghost function Where(p: Cell -> bool, width: nat, height: nat): set<Cell> {
    set x: nat, y: nat | x < width && y < height && p(Cell(x, y)) :: Cell(x, y)
  }

  ghost function WhereInRow(p: Cell -> bool, width: nat, y: nat): set<Cell> {
    set x: nat | x < width && p(Cell(x, y)) :: Cell(x, y)
  }

  lemma WiderRow(p: Cell -> bool, width: nat, y: nat)
    ensures |WhereInRow(p, width + 1, y)| == |WhereInRow(p, width, y)| + (if p(Cell(width, y)) then 1 else 0)
  {
    var more := if p(Cell(width, y)) then {Cell(width, y)} else {};
    assert WhereInRow(p, width + 1, y) == WhereInRow(p, width, y) + more;
    assert WhereInRow(p, width, y) !! more;
  }

  lemma OneRowMore(p: Cell -> bool, width: nat, height: nat)
    ensures |Where(p, width, height + 1)| == |Where(p, width, height)| + |WhereInRow(p, width, height)|
  {
    assert Where(p, width, height + 1) == Where(p, width, height) + WhereInRow(p, width, height);
    assert Where(p, width, height) !! WhereInRow(p, width, height);
  }

  lemma Nowhere(p: Cell -> bool, width: nat, y: nat)
    ensures Where(p, width, 0) == {} && WhereInRow(p, 0, y) == {}
  {}

  predicate IsDark(g: Grid, c: Cell) { c.y < |g| && c.x < |g[c.y]| && g[c.y][c.x] }

  /** The four modules of a 2x2 block have one color. */
  predicate IsPlain(g: Grid, c: Cell) {
    && c.y + 1 < |g| && c.x + 1 < |g[c.y]| && c.x + 1 < |g[c.y + 1]|
    && g[c.y][c.x] == g[c.y][c.x + 1] == g[c.y + 1][c.x] == g[c.y + 1][c.x + 1]
  }

  ghost function DarkCells(g: Grid): set<Cell> { Where(c => IsDark(g, c), |g|, |g|) }

  ghost function PlainBlocks(g: Grid): set<Cell>
    requires g != []
  {
    Where(c => IsPlain(g, c), |g| - 1, |g| - 1)
  }

  lemma {:induction false} RowIsCounted(g: Grid, p: Cell -> bool, y: nat, n: nat)
    requires Square(g, |g|) && y < |g| && n <= |g|
    ensures (forall x: nat :: x < n ==> p(Cell(x, y)) == g[y][x]) ==> DarkInLine(g[y], n) == |WhereInRow(p, n, y)|
    ensures y + 1 < |g| && n < |g| && (forall x: nat :: x < n ==> p(Cell(x, y)) == Uniform(g, x, y))
      ==> BlocksInRow(g, y, n) == |WhereInRow(p, n, y)|
  {
    hide WhereInRow, Uniform;
    if n > 0 {
      RowIsCounted(g, p, y, n - 1);
      WiderRow(p, n - 1, y);
    } else {
      Nowhere(p, 0, y);
    }
  }

  lemma {:induction false} DarkIsCounted(g: Grid, p: Cell -> bool, n: nat)
    requires Square(g, |g|) && n <= |g| && forall c :: p(c) == IsDark(g, c)
    ensures Dark(g, n) == |Where(p, |g|, n)|
  {
    hide WhereInRow, Where, DarkInLine;
    if n > 0 {
      DarkIsCounted(g, p, n - 1);
      OneRowMore(p, |g|, n - 1);
      RowIsCounted(g, p, n - 1, |g|);
    } else {
      Nowhere(p, |g|, 0);
    }
  }

  lemma {:induction false} BlocksAreCounted(g: Grid, p: Cell -> bool, n: nat)
    requires Square(g, |g|) && n < |g| && forall c :: p(c) == IsPlain(g, c)
    ensures Blocks(g, n) == |Where(p, |g| - 1, n)|
  {
    hide WhereInRow, Where, BlocksInRow;
    if n > 0 {
      BlocksAreCounted(g, p, n - 1);
      OneRowMore(p, |g| - 1, n - 1);
      RowIsCounted(g, p, n - 1, |g| - 1);
    } else {
      Nowhere(p, |g| - 1, 0);
    }
  }

  /** The score of a line in terms of its modules. */
  ghost function LineCount(line: seq<bool>): nat {
    |Fives(line)| + 2 * |LongRuns(line)| + 40 * |Finders(Extended(line, |line|))|
  }

  ghost function SumOfLines(g: Grid, n: nat): nat
    requires Square(g, |g|) && n <= |g|
  {
    if n == 0 then 0 else SumOfLines(g, n - 1) + LineCount(g[n - 1])
  }

  lemma LineScore(line: seq<bool>)
    requires line != []
    ensures LinePenalty(line, |line|) == LineCount(line)
  {
    hide LinePenalty, Fives, LongRuns, Finders, Extended;
    LineIsCounted(line, |line|);
  }

  lemma {:induction false} LinesAreCounted(g: Grid, n: nat)
    requires Square(g, |g|) && n <= |g|
    ensures RowsPenalty(g, n) == SumOfLines(g, n)
    ensures ColumnsPenalty(g, n) == SumOfLines(Transposed(g), n)
  {
    hide LinePenalty, LineCount, Transposed, Column;
    if n > 0 {
      LinesAreCounted(g, n - 1);
      ColumnsAreRows(g, n - 1);
      LineScore(g[n - 1]);
      LineScore(Transposed(g)[n - 1]);
    }
  }

  /** The smallest k for which the dark share lies within (45 - 5k)% and (55 + 5k)%. */
  ghost predicate IsBalance(dark: nat, total: nat, k: nat) {
    && (45 - 5 * k) * total <= 100 * dark <= (55 + 5 * k) * total
    && forall j: nat :: j < k ==> !WithinBalance(dark, total, j)
  }

  lemma BalanceIs(dark: nat, total: nat)
    requires dark <= total && total % 2 == 1
    ensures Balance(dark, total) >= 0 && IsBalance(dark, total, Balance(dark, total))
  {
    BalanceIsSmallest(dark, total);
  }

  /** The whole score: lines, blocks of one color, and the steps of 5% that the dark share is off one half. */
  lemma PenaltyIsCounted(g: Grid) returns (k: nat)
    requires Square(g, |g|) && |g| % 2 == 1
    ensures IsBalance(|DarkCells(g)|, |g| * |g|, k)
    ensures PenaltyScore(g) == SumOfLines(g, |g|) + SumOfLines(Transposed(g), |g|) + 3 * |PlainBlocks(g)| + 10 * k
  {
    hide RowsPenalty, ColumnsPenalty, SumOfLines, Blocks, Dark, Balance, Where, IsBalance, IsDark, IsPlain;
    LinesAreCounted(g, |g|);
    DarkIsCounted(g, c => IsDark(g, c), |g|);
    BlocksAreCounted(g, c => IsPlain(g, c), |g| - 1);
    OddSquare(|g|);
    BalanceIs(Dark(g, |g|), |g| * |g|);
    k := Balance(Dark(g, |g|), |g| * |g|);
  }
}
