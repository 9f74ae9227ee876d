/**
 Merging canonical trace steps into a legacy workflow trace,
 apps/app/common/workflow-trace.ts with the timestamps of run-date-normalization.ts.
 Fields read through `||` use "" for absent ones, fields read through `??` use `None`.
 Seconds are exact reals; floating-point rounding is not modelled.
 */
module WorkflowTrace {
  import opened Options

  // ----- Timestamps

  /** A wire timestamp: absent, a number (or numeric text), or text with its parsed date. */
  datatype Wire = Missing | Number(x: real) | Text(millis: Option<real>)

  const THRESHOLD: real := 100_000_000_000.0
  const LAST_DATE: real := 8_640_000_000_000_000.0

  function Abs(x: real): real { if x < 0.0 then -x else x }

  /** Epoch seconds; numbers at or above the threshold are milliseconds. */
  function Seconds(w: Wire): Option<real> {
    match w
    case Missing => None
    case Text(None) => None
    case Text(Some(ms)) => Some(ms / 1000.0)
    case Number(x) =>
      var ms := if Abs(x) < THRESHOLD then x * 1000.0 else x;
      if Abs(ms) <= LAST_DATE then Some(ms / 1000.0) else None
  }

  function StartOf(w: Wire): Wire {
    match Seconds(w) case Some(s) => Number(s) case None => Number(0.0)
  }

  function FinishOf(w: Wire): Wire {
    match Seconds(w) case Some(s) => Number(s) case None => Missing
  }

  /** Normalising twice is normalising once exactly below the threshold. */
  lemma SecondsIdempotentIff(w: Wire)
    requires w.Text? && w.millis.Some? ==> Abs(w.millis.value) <= LAST_DATE
    ensures StartOf(StartOf(w)) == StartOf(w) <==> Settled(StartOf(w))
    ensures FinishOf(FinishOf(w)) == FinishOf(w) <==> Settled(FinishOf(w))
  {
    match Seconds(w)
    case None =>
    case Some(s) =>
      assert Abs(s) <= LAST_DATE / 1000.0;
      if Abs(s) >= THRESHOLD { assert s / 1000.0 != s; }
  }

  predicate Settled(w: Wire) {
    w.Number? ==> Abs(w.x) < THRESHOLD
  }

  // ----- Entries and steps

  datatype Entry = Entry(id: string, traceStepId: string, nodeId: string, kind: string, status: string,
                         startedAt: Wire, finishedAt: Wire, childSession: Option<string>,
                         error: Option<string>, tools: seq<string>, payload: string)

  datatype Step = Step(id: string, traceStepId: string, nodeId: string, kind: string, status: string,
                       startedAt: Wire, finishedAt: Wire, childSession: Option<string>,
                       errorSafe: Option<string>, tools: seq<string>)

  function Or(a: string, b: string): string { if a != "" then a else b }

  function Else<T>(a: Option<T>, b: Option<T>): Option<T> { if a.Some? then a else b }

  function LegacyStatus(status: string): string {
    if status in {"running", "success", "skipped"} then status else "failed"
  }

  /** `[...new Set(xs)]`: first occurrences in order. */
  function Dedup(xs: seq<string>): seq<string> {
    if xs == [] then []
    else
      var d := Dedup(xs[..|xs| - 1]);
      if xs[|xs| - 1] in d then d else d + [xs[|xs| - 1]]
  }

  function Normalized(e: Entry): Entry {
    e.(startedAt := StartOf(e.startedAt), finishedAt := FinishOf(e.finishedAt))
  }

  function NormalizeAll(trace: seq<Entry>): (r: seq<Entry>)
    ensures |r| == |trace| && forall i :: 0 <= i < |r| ==> r[i] == Normalized(trace[i])
  {
    seq(|trace|, i requires 0 <= i < |trace| => Normalized(trace[i]))
  }

  const BLANK := Entry("", "", "", "", "", Missing, Missing, None, None, [], "")

  /** The merged row; `existing` is `BLANK` when no legacy entry matched. */
  function Join(existing: Entry, step: Step): Entry {
    var stable := Or(step.id, Or(step.traceStepId, Or(existing.id, existing.traceStepId)));
    Entry(stable, stable, step.nodeId,
          Or(existing.kind, step.kind),
          Or(existing.status, LegacyStatus(step.status)),
          if existing.startedAt.Missing? then StartOf(step.startedAt) else existing.startedAt,
          if existing.finishedAt.Missing? then FinishOf(step.finishedAt) else existing.finishedAt,
          Else(step.childSession, existing.childSession),
          Else(existing.error, step.errorSafe),
          Dedup(existing.tools + step.tools),
          existing.payload)
  }

  // ----- Greedy matching

  /** First unused legacy entry of this node at or after `from`, or -1. */
  function FirstFree(legacy: seq<Entry>, used: set<int>, node: string, from: nat): (m: int)
    requires from <= |legacy|
    ensures m == -1 || (from <= m < |legacy| && m !in used && legacy[m].nodeId == node)
    ensures forall j :: from <= j < |legacy| && (j < m || m == -1) ==> j in used || legacy[j].nodeId != node
    decreases |legacy| - from
  {
    if from == |legacy| then -1
    else if from !in used && legacy[from].nodeId == node then from
    else FirstFree(legacy, used, node, from + 1)
  }

  function Match(legacy: seq<Entry>, used: set<int>, node: string, index: nat): (m: int)
    ensures m == -1 || (0 <= m < |legacy| && m !in used && legacy[m].nodeId == node)
    ensures m == -1 ==> forall j :: 0 <= j < |legacy| && legacy[j].nodeId == node ==> j in used
  {
    if index < |legacy| && index !in used && legacy[index].nodeId == node then index
    else FirstFree(legacy, used, node, 0)
  }

  function Used(matches: seq<int>): set<int> {
    set m | m in matches && m >= 0
  }

  /** The legacy index each step absorbs, or -1. */
  function Matches(legacy: seq<Entry>, steps: seq<Step>): (ms: seq<int>)
    ensures |ms| == |steps|
  {
    if steps == [] then []
    else
      var before := Matches(legacy, steps[..|steps| - 1]);
      before + [Match(legacy, Used(before), steps[|steps| - 1].nodeId, |steps| - 1)]
  }

  function Existing(legacy: seq<Entry>, m: int): Entry {
    if 0 <= m < |legacy| then legacy[m] else BLANK
  }

  function Joined(legacy: seq<Entry>, steps: seq<Step>, matches: seq<int>): (rows: seq<Entry>)
    requires |matches| == |steps|
    ensures |rows| == |steps|
    ensures forall i :: 0 <= i < |rows| ==> rows[i] == Join(Existing(legacy, matches[i]), steps[i])
  {
    seq(|steps|, i requires 0 <= i < |steps| => Join(Existing(legacy, matches[i]), steps[i]))
  }

  /** The entries no step absorbed, in order. */
  function Leftovers(legacy: seq<Entry>, used: set<int>): seq<Entry> {
    if legacy == [] then []
    else
      var n := |legacy| - 1;
      Leftovers(legacy[..n], used) + if n in used then [] else [legacy[n]]
  }

  function Merge(trace: seq<Entry>, steps: seq<Step>): seq<Entry> {
    var legacy := NormalizeAll(trace);
    if steps == [] then legacy
    else
      var ms := Matches(legacy, steps);
      Joined(legacy, steps, ms) + Leftovers(legacy, Used(ms))
  }

  lemma {:induction false} JoinedSnoc(legacy: seq<Entry>, steps: seq<Step>, ms: seq<int>, i: nat, m: int)
    requires i < |steps| && |ms| == i
    ensures Joined(legacy, steps[..i + 1], ms + [m])
         == Joined(legacy, steps[..i], ms) + [Join(Existing(legacy, m), steps[i])]
  {
    hide Join, Existing;
    var longer, rows := Joined(legacy, steps[..i + 1], ms + [m]), Joined(legacy, steps[..i], ms);
    forall j | 0 <= j <= i ensures longer[j] == (rows + [Join(Existing(legacy, m), steps[i])])[j] {
      assert steps[..i + 1][j] == steps[j];
    }
  }

  lemma MatchesSnoc(legacy: seq<Entry>, steps: seq<Step>, i: nat)
    requires i < |steps|
    ensures Matches(legacy, steps[..i + 1])
         == Matches(legacy, steps[..i]) + [Match(legacy, Used(Matches(legacy, steps[..i])), steps[i].nodeId, i)]
  {
    assert steps[..i + 1][..i] == steps[..i];
  }

  lemma UsedSnoc(ms: seq<int>, m: int)
    ensures Used(ms + [m]) == if m >= 0 then Used(ms) + {m} else Used(ms)
  {
  }

  /** The loop over the canonical steps, with the growing set of absorbed entries. */
  method JoinSteps(legacy: seq<Entry>, steps: seq<Step>) returns (merged: seq<Entry>, used: set<int>)
    ensures merged == Joined(legacy, steps, Matches(legacy, steps)) && used == Used(Matches(legacy, steps))
  {
    used, merged := {}, [];
    ghost var ms: seq<int> := [];
    for i := 0 to |steps|
      invariant ms == Matches(legacy, steps[..i]) && used == Used(ms)
      invariant merged == Joined(legacy, steps[..i], ms)
    {
      var step := steps[i];
      var legacyIndex := -1;
      if i < |legacy| && i !in used && legacy[i].nodeId == step.nodeId {
        legacyIndex := i;
      }
      if legacyIndex < 0 {
        legacyIndex := FirstFree(legacy, used, step.nodeId, 0);
      }
      var existing := if legacyIndex >= 0 then legacy[legacyIndex] else BLANK;
      if legacyIndex >= 0 { used := used + {legacyIndex}; }
      assert existing == Existing(legacy, legacyIndex);
      MatchesSnoc(legacy, steps, i);
      JoinedSnoc(legacy, steps, ms, i, legacyIndex);
      UsedSnoc(ms, legacyIndex);
      merged := merged + [Join(existing, step)];
      ms := ms + [legacyIndex];
    }
    assert steps[..|steps|] == steps;
  }

  method MergeCanonicalWorkflowTrace(trace: seq<Entry>, steps: seq<Step>) returns (merged: seq<Entry>)
    ensures merged == Merge(trace, steps)
  {
    hide Normalized, Join, Matches, Used, Leftovers;
    var legacy := NormalizeAll(trace);
    if steps == [] { return legacy; }
    var rows, used := JoinSteps(legacy, steps);
    MergeIs(trace, steps);
    merged := AppendLeftovers(rows, legacy, used);
  }

  /** The closing loop: entries no step has absorbed are pushed in their order. */
  method AppendLeftovers(rows: seq<Entry>, legacy: seq<Entry>, used: set<int>) returns (merged: seq<Entry>)
    ensures merged == rows + Leftovers(legacy, used)
  {
    hide Leftovers;
    merged := rows;
    NoLeftovers(used);
    for i := 0 to |legacy|
      invariant merged == rows + Leftovers(legacy[..i], used)
    {
      LeftoversSnoc(legacy, used, i);
      if i !in used { merged := merged + [legacy[i]]; }
    }
    assert legacy[..|legacy|] == legacy;
  }

  lemma MergeIs(trace: seq<Entry>, steps: seq<Step>)
    requires steps != []
    ensures var legacy := NormalizeAll(trace);
            var ms := Matches(legacy, steps);
            Merge(trace, steps) == Joined(legacy, steps, ms) + Leftovers(legacy, Used(ms))
  {
  }

  lemma NoLeftovers(used: set<int>)
    ensures Leftovers([], used) == []
  {
  }

  lemma LeftoversSnoc(legacy: seq<Entry>, used: set<int>, i: nat)
    requires i < |legacy|
    ensures Leftovers(legacy[..i + 1], used) == Leftovers(legacy[..i], used) + if i in used then [] else [legacy[i]]
  {
    assert legacy[..i + 1][..i] == legacy[..i];
  }

  // ----- A maximum matching that loses nothing

  /** Absorbed entries exist, share the step's node, and are absorbed once. */
  ghost predicate ValidMatching(legacy: seq<Entry>, steps: seq<Step>, ms: seq<int>) {
    && |ms| == |steps|
    && (forall i :: 0 <= i < |ms| ==> ms[i] == -1 || (0 <= ms[i] < |legacy| && legacy[ms[i]].nodeId == steps[i].nodeId))
    && (forall i, j :: 0 <= i < j < |ms| && ms[i] >= 0 ==> ms[i] != ms[j])
  }

  function EntriesOf(legacy: seq<Entry>, node: string): set<int> {
    set i | 0 <= i < |legacy| && legacy[i].nodeId == node
  }

  function AbsorbedOf(legacy: seq<Entry>, ms: seq<int>, node: string): set<int> {
    set m | m in ms && 0 <= m < |legacy| && legacy[m].nodeId == node
  }

  function StepsOf(steps: seq<Step>, node: string): nat {
    if steps == [] then 0
    else StepsOf(steps[..|steps| - 1], node) + if steps[|steps| - 1].nodeId == node then 1 else 0
  }

  function Min(a: int, b: int): int { if a <= b then a else b }

  lemma {:induction false} MatchesValid(legacy: seq<Entry>, steps: seq<Step>)
    ensures ValidMatching(legacy, steps, Matches(legacy, steps))
  {
    if steps != [] {
      var n := |steps| - 1;
      MatchesValid(legacy, steps[..n]);
      var before := Matches(legacy, steps[..n]);
      var m := Match(legacy, Used(before), steps[n].nodeId, n);
      assert Matches(legacy, steps) == before + [m];
      forall i | 0 <= i < n && before[i] >= 0 ensures before[i] != m {
        assert before[i] in Used(before);
      }
    }
  }

  /** For every node exactly min(#steps, #entries) entries are absorbed. */
  lemma {:induction false} AbsorbedCount(legacy: seq<Entry>, steps: seq<Step>, node: string)
    ensures |AbsorbedOf(legacy, Matches(legacy, steps), node)| == Min(StepsOf(steps, node), |EntriesOf(legacy, node)|)
  {
    if steps == [] {
      assert AbsorbedOf(legacy, [], node) == {};
    } else {
      var front, last := steps[..|steps| - 1], steps[|steps| - 1];
      AbsorbedCount(legacy, front, node);
      var before := Matches(legacy, front);
      var m := Match(legacy, Used(before), last.nodeId, |front|);
      var a, all := AbsorbedOf(legacy, before, node), EntriesOf(legacy, node);
      AbsorbedSnoc(legacy, before, m, node);
      if last.nodeId == node {
        if m == -1 {
          assert a == all;
        } else {
          Strict(a, all, m);
        }
      }
    }
  }

  lemma AbsorbedSnoc(legacy: seq<Entry>, before: seq<int>, m: int, node: string)
    ensures AbsorbedOf(legacy, before + [m], node)
         == AbsorbedOf(legacy, before, node) + if 0 <= m < |legacy| && legacy[m].nodeId == node then {m} else {}
  {
  }

  lemma Strict(a: set<int>, all: set<int>, m: int)
    requires a <= all && m in all && m !in a
    ensures |a| < |all|
  {
    Cardinality(a + {m}, all);
  }

  lemma Cardinality(a: set<int>, b: set<int>)
    requires a <= b
    ensures |a| <= |b|
  {
    assert b == a + (b - a);
  }

  /** No other matching absorbs more entries of any node. */
  lemma GreedyIsMaximum(legacy: seq<Entry>, steps: seq<Step>, other: seq<int>, node: string)
    requires ValidMatching(legacy, steps, other)
    ensures |AbsorbedOf(legacy, other, node)| <= |AbsorbedOf(legacy, Matches(legacy, steps), node)|
  {
    AbsorbedCount(legacy, steps, node);
    Cardinality(AbsorbedOf(legacy, other, node), EntriesOf(legacy, node));
    AbsorbedAtMostSteps(legacy, steps, other, node);
  }

  lemma {:induction false} AbsorbedAtMostSteps(legacy: seq<Entry>, steps: seq<Step>, ms: seq<int>, node: string)
    requires ValidMatching(legacy, steps, ms)
    ensures |AbsorbedOf(legacy, ms, node)| <= StepsOf(steps, node)
  {
    if steps == [] {
      assert AbsorbedOf(legacy, ms, node) == {};
    } else {
      var n := |steps| - 1;
      AbsorbedAtMostSteps(legacy, steps[..n], ms[..n], node);
      assert ms == ms[..n] + [ms[n]];
      var a, b := AbsorbedOf(legacy, ms[..n], node), AbsorbedOf(legacy, ms, node);
      Cardinality(b, a + if ms[n] >= 0 && steps[n].nodeId == node then {ms[n]} else {});
    }
  }

  /** Nothing is lost: rows are the steps followed by the unabsorbed entries, untouched and in order. */
  lemma {:induction false} MergeConserves(trace: seq<Entry>, steps: seq<Step>, m: nat)
    requires steps != [] && m < |trace|
    requires m !in Used(Matches(NormalizeAll(trace), steps))
    ensures var legacy := NormalizeAll(trace);
            var used := Used(Matches(legacy, steps));
            var place := |steps| + |Leftovers(legacy[..m], used)|;
            && |Merge(trace, steps)| == |steps| + |legacy| - |used|
            && place < |Merge(trace, steps)|
            && Merge(trace, steps)[place] == legacy[m]
  {
    var legacy := NormalizeAll(trace);
    var ms := Matches(legacy, steps);
    MatchesValid(legacy, steps);
    assert forall u :: u in Used(ms) ==> 0 <= u < |legacy|;
    hide Matches, Leftovers, Used, ValidMatching, NormalizeAll, Normalized, Join;
    LeftoverAt(legacy, Used(ms), m);
    LeftoverCount(legacy, Used(ms));
    assert Merge(trace, steps) == Joined(legacy, steps, ms) + Leftovers(legacy, Used(ms));
  }

  lemma {:induction false} LeftoverAt(legacy: seq<Entry>, used: set<int>, m: nat)
    requires m < |legacy| && m !in used
    ensures |Leftovers(legacy[..m], used)| < |Leftovers(legacy, used)|
    ensures Leftovers(legacy, used)[|Leftovers(legacy[..m], used)|] == legacy[m]
  {
    var n := |legacy| - 1;
    if m < n {
      assert legacy[..n][..m] == legacy[..m];
      LeftoverAt(legacy[..n], used, m);
    }
  }

  lemma {:induction false} LeftoverCount(legacy: seq<Entry>, used: set<int>)
    requires forall m :: m in used ==> 0 <= m < |legacy|
    ensures |Leftovers(legacy, used)| == |legacy| - |used|
  {
    if legacy == [] {
      forall m ensures m !in used {}
      assert used == {};
    } else {
      var n := |legacy| - 1;
      LeftoverCount(legacy[..n], used - {n});
      SameLeftovers(legacy[..n], used, used - {n});
    }
  }

  lemma {:induction false} SameLeftovers(legacy: seq<Entry>, a: set<int>, b: set<int>)
    requires forall i :: 0 <= i < |legacy| ==> (i in a <==> i in b)
    ensures Leftovers(legacy, a) == Leftovers(legacy, b)
  {
    if legacy != [] { SameLeftovers(legacy[..|legacy| - 1], a, b); }
  }

  /** Where steps and entries agree position by position, each step absorbs its own entry. */
  lemma {:induction false} AlignedMatchesAreIdentity(legacy: seq<Entry>, steps: seq<Step>)
    requires |steps| <= |legacy| && forall i :: 0 <= i < |steps| ==> legacy[i].nodeId == steps[i].nodeId
    ensures forall i :: 0 <= i < |steps| ==> Matches(legacy, steps)[i] == i
  {
    if steps != [] {
      AlignedMatchesAreIdentity(legacy, steps[..|steps| - 1]);
    }
  }

  // ----- Merging again

  predicate AllSettled(trace: seq<Entry>) {
    forall i :: 0 <= i < |trace| ==> Settled(trace[i].startedAt) && Settled(trace[i].finishedAt)
  }

  predicate RealDates(trace: seq<Entry>, steps: seq<Step>) {
    && (forall i :: 0 <= i < |trace| ==> RealDate(trace[i].startedAt) && RealDate(trace[i].finishedAt))
    && (forall i :: 0 <= i < |steps| ==> RealDate(steps[i].startedAt) && RealDate(steps[i].finishedAt))
  }

  /** What `Date.parse` can return. */
  predicate RealDate(w: Wire) {
    w.Text? && w.millis.Some? ==> Abs(w.millis.value) <= LAST_DATE
  }

  /**
   What the caller hands in lies below the threshold once in seconds: every time of the
   legacy trace, and those times of a step that no legacy entry supplies.
   */
  predicate TimesSettle(trace: seq<Entry>, steps: seq<Step>) {
    var ms := Matches(NormalizeAll(trace), steps);
    && (forall m :: 0 <= m < |trace| ==> SettledEntry(trace[m]))
    && forall i :: 0 <= i < |steps| ==> SettledStep(trace, ms[i], steps[i])
  }

  predicate SettledEntry(e: Entry) {
    Settled(StartOf(e.startedAt)) && Settled(FinishOf(e.finishedAt))
  }

  predicate SettledStep(trace: seq<Entry>, m: int, step: Step) {
    var matched := 0 <= m < |trace|;
    && (!matched ==> Settled(StartOf(step.startedAt)))
    && (!matched || FinishOf(trace[m].finishedAt) == Missing ==> Settled(FinishOf(step.finishedAt)))
  }

  /** Merging the merged run again changes nothing exactly when the times that enter it settle. */
  lemma MergeIdempotentIff(trace: seq<Entry>, steps: seq<Step>)
    requires RealDates(trace, steps)
    ensures Merge(Merge(trace, steps), steps) == Merge(trace, steps) <==> TimesSettle(trace, steps)
  {
    hide Merge, TimesSettle;
    RemergeIff(trace, steps);
    if AllSettled(Merge(trace, steps)) { SettledBefore(trace, steps); }
    if TimesSettle(trace, steps) { SettledAfter(trace, steps); }
  }

  /** A time sent in milliseconds of a distant future is divided again by the second merge. */
  lemma DistantTimeMovesAgain(e: Entry)
    requires e.startedAt == Number(200_000_000_000_000.0)
    ensures Merge(Merge([e], []), []) != Merge([e], [])
  {
    var once, twice := NormalizeAll([e]), NormalizeAll(NormalizeAll([e]));
    assert once[0].startedAt == Number(200_000_000_000.0);
    assert twice[0].startedAt == Number(200_000_000.0);
  }

  lemma JoinedSettled(trace: seq<Entry>, m: int, step: Step)
    requires m < |trace|
    ensures var row := Join(Existing(NormalizeAll(trace), m), step);
            Settled(row.startedAt) && Settled(row.finishedAt) <==>
              SettledStep(trace, m, step) && (0 <= m ==> SettledEntry(trace[m]))
  {
  }

  lemma SettledAfter(trace: seq<Entry>, steps: seq<Step>)
    requires TimesSettle(trace, steps)
    ensures AllSettled(Merge(trace, steps))
  {
    hide Settled, Join, Matches, Leftovers, SettledStep;
    var legacy, merged := NormalizeAll(trace), Merge(trace, steps);
    if steps != [] {
      var ms := Matches(legacy, steps);
      MatchesValid(legacy, steps);
      LeftoversHave(legacy, Used(ms));
      forall i | 0 <= i < |merged| ensures Settled(merged[i].startedAt) && Settled(merged[i].finishedAt) {
        if i < |steps| {
          assert merged[i] == Join(Existing(legacy, ms[i]), steps[i]);
          JoinedSettled(trace, ms[i], steps[i]);
        } else {
          assert merged[i] in legacy;
        }
      }
    }
  }

  lemma SettledBefore(trace: seq<Entry>, steps: seq<Step>)
    requires AllSettled(Merge(trace, steps))
    ensures TimesSettle(trace, steps)
  {
    hide Settled, Join, Matches, Leftovers, SettledStep;
    var legacy, merged := NormalizeAll(trace), Merge(trace, steps);
    var ms := Matches(legacy, steps);
    MatchesValid(legacy, steps);
    forall i | 0 <= i < |steps|
      ensures SettledStep(trace, ms[i], steps[i]) && (0 <= ms[i] ==> SettledEntry(trace[ms[i]]))
    {
      assert merged[i] == Join(Existing(legacy, ms[i]), steps[i]);
      JoinedSettled(trace, ms[i], steps[i]);
    }
    forall m | 0 <= m < |trace| ensures SettledEntry(trace[m]) {
      if steps == [] {
        assert merged[m] == Normalized(trace[m]);
      } else if m !in Used(ms) {
        MergeConserves(trace, steps, m);
      }
    }
  }

  lemma StepsComeFirst(trace: seq<Entry>, steps: seq<Step>)
    ensures |steps| <= |Merge(trace, steps)| && forall i :: 0 <= i < |steps| ==>
      Merge(trace, steps)[i].nodeId == steps[i].nodeId
  {
    hide Matches, Leftovers, Used;
  }

  lemma {:induction false} RemergeIff(trace: seq<Entry>, steps: seq<Step>)
    requires RealDates(trace, steps)
    ensures Merge(Merge(trace, steps), steps) == Merge(trace, steps) <==> AllSettled(Merge(trace, steps))
  {
    var merged := Merge(trace, steps);
    MergedShape(trace, steps);
    StepsComeFirst(trace, steps);
    RemergeNormalizes(merged, steps);
    hide Merge, Seconds;
    forall i | 0 <= i < |merged|
      ensures Normalized(merged[i]) == merged[i] <==> Settled(merged[i].startedAt) && Settled(merged[i].finishedAt)
    {
      assert NormalRow(merged[i]);
      NormalTimes(merged[i]);
    }
    if AllSettled(merged) {
      assert NormalizeAll(merged) == merged;
      RemergeFixed(trace, steps);
    } else {
      var i :| 0 <= i < |merged| && !(Settled(merged[i].startedAt) && Settled(merged[i].finishedAt));
      assert Merge(merged, steps)[i].startedAt == Normalized(merged[i]).startedAt;
      assert merged[i].finishedAt.Number? ==> Merge(merged, steps)[i].finishedAt == Normalized(merged[i]).finishedAt;
    }
  }

  /** A caller's sufficient condition: every time on the wire lies below the threshold. */
  lemma SettledInputsMergeIdempotently(trace: seq<Entry>, steps: seq<Step>)
    requires RealDates(trace, steps)
    requires forall i :: 0 <= i < |trace| ==> SettledEntry(trace[i])
    requires forall i :: 0 <= i < |steps| ==>
      Settled(StartOf(steps[i].startedAt)) && Settled(FinishOf(steps[i].finishedAt))
    ensures Merge(Merge(trace, steps), steps) == Merge(trace, steps)
  {
    MergeIdempotentIff(trace, steps);
  }

  lemma {:induction false} LeftoversHave(legacy: seq<Entry>, used: set<int>)
    ensures forall i :: 0 <= i < |Leftovers(legacy, used)| ==> Leftovers(legacy, used)[i] in legacy
  {
    if legacy != [] { LeftoversHave(legacy[..|legacy| - 1], used); }
  }

  /** Rows of a merge carry times already in seconds. */
  predicate NormalRow(e: Entry) {
    && NormalTime(e.startedAt) && e.startedAt.Number?
    && NormalTime(e.finishedAt) && !e.finishedAt.Text?
  }

  predicate NormalTime(w: Wire) {
    w.Number? ==> Abs(w.x) <= LAST_DATE / 1000.0
  }

  lemma NormalTimes(e: Entry)
    requires NormalRow(e)
    ensures StartOf(e.startedAt) == e.startedAt <==> Settled(e.startedAt)
    ensures FinishOf(e.finishedAt) == e.finishedAt <==> Settled(e.finishedAt)
    ensures e.finishedAt.Number? ==> FinishOf(e.finishedAt).Number?
  {
    var x := e.startedAt.x;
    if Abs(x) >= THRESHOLD { assert x / 1000.0 != x; }
    if e.finishedAt.Number? && Abs(e.finishedAt.x) >= THRESHOLD { assert e.finishedAt.x / 1000.0 != e.finishedAt.x; }
  }

  lemma NormalizedRow(e: Entry)
    requires RealDate(e.startedAt) && RealDate(e.finishedAt)
    ensures NormalRow(Normalized(e))
  {
  }

  lemma JoinedRow(existing: Entry, step: Step)
    requires existing == BLANK || NormalRow(existing)
    requires RealDate(step.startedAt) && RealDate(step.finishedAt)
    ensures NormalRow(Join(existing, step))
  {
  }

  lemma MergedShape(trace: seq<Entry>, steps: seq<Step>)
    requires RealDates(trace, steps)
    ensures forall i :: 0 <= i < |Merge(trace, steps)| ==> NormalRow(Merge(trace, steps)[i])
  {
    var legacy := NormalizeAll(trace);
    forall i | 0 <= i < |legacy| ensures NormalRow(legacy[i]) { NormalizedRow(trace[i]); }
    if steps != [] {
      var ms := Matches(legacy, steps);
      forall i | 0 <= i < |steps| ensures NormalRow(Joined(legacy, steps, ms)[i]) {
        JoinedRow(Existing(legacy, ms[i]), steps[i]);
      }
      LeftoversHave(legacy, Used(ms));
    }
  }

  /** A second merge matches every step with the row the first one made for it. */
  lemma {:induction false} RemergeNormalizes(merged: seq<Entry>, steps: seq<Step>)
    requires |steps| <= |merged| && forall i :: 0 <= i < |steps| ==> merged[i].nodeId == steps[i].nodeId
    ensures |Merge(merged, steps)| == |merged|
    ensures forall i :: 0 <= i < |merged| ==>
      Merge(merged, steps)[i] == if i < |steps| then Join(Normalized(merged[i]), steps[i]) else Normalized(merged[i])
  {
    var legacy := NormalizeAll(merged);
    assert forall i :: 0 <= i < |merged| ==> legacy[i].nodeId == merged[i].nodeId;
    hide Join, Normalized, Matches, Leftovers, Used;
    if steps != [] {
      var ms := Matches(legacy, steps);
      AlignedMatchesAreIdentity(legacy, steps);
      UsedPrefix(ms);
      LeftoverTail(legacy, |steps|, Used(ms));
      JoinedInPlace(legacy, steps, ms);
    }
  }

  lemma {:induction false} JoinedInPlace(legacy: seq<Entry>, steps: seq<Step>, ms: seq<int>)
    requires |steps| == |ms| && |steps| <= |legacy| && forall i :: 0 <= i < |steps| ==> ms[i] == i
    ensures forall i :: 0 <= i < |legacy| ==>
      (Joined(legacy, steps, ms) + legacy[|steps|..])[i] == if i < |steps| then Join(legacy[i], steps[i]) else legacy[i]
  {
    hide Join;
  }

  lemma UsedPrefix(matches: seq<int>)
    requires forall i :: 0 <= i < |matches| ==> matches[i] == i
    ensures forall m :: m in Used(matches) <==> 0 <= m < |matches|
  {
    forall m ensures m in Used(matches) <==> 0 <= m < |matches| {
      if 0 <= m < |matches| { assert matches[m] == m; }
    }
  }

  lemma {:induction false} LeftoverTail(legacy: seq<Entry>, k: nat, used: set<int>)
    requires k <= |legacy| && forall i :: 0 <= i < |legacy| ==> (i in used <==> i < k)
    ensures Leftovers(legacy, used) == legacy[k..]
  {
    if legacy != [] {
      var n := |legacy| - 1;
      LeftoverTail(legacy[..n], if k <= n then k else n, used);
      assert k <= n ==> legacy[..n][k..] + [legacy[n]] == legacy[k..];
    }
  }

  lemma RemergeFixed(trace: seq<Entry>, steps: seq<Step>)
    requires NormalizeAll(Merge(trace, steps)) == Merge(trace, steps)
    requires |steps| <= |Merge(trace, steps)|
    ensures Merge(Merge(trace, steps), steps) == Merge(trace, steps)
  {
    var legacy, merged := NormalizeAll(trace), Merge(trace, steps);
    forall i | 0 <= i < |merged| ensures Normalized(merged[i]) == merged[i] {
      assert NormalizeAll(merged)[i] == merged[i];
    }
    RemergeNormalizes(merged, steps);
    forall i | 0 <= i < |steps| ensures Join(merged[i], steps[i]) == merged[i] {
      JoinTwice(Existing(legacy, Matches(legacy, steps)[i]), steps[i]);
    }
  }

  /** Joining a step with its own result reproduces it. */
  lemma JoinTwice(existing: Entry, step: Step)
    ensures Join(Join(existing, step), step) == Join(existing, step)
  {
    DedupTwice(existing.tools, step.tools);
  }

  lemma DedupTwice(a: seq<string>, b: seq<string>)
    ensures Dedup(Dedup(a + b) + b) == Dedup(a + b)
  {
    var d := Dedup(a + b);
    DedupMembers(a + b);
    DedupAbsorbs(a + b, b);
  }

  lemma {:induction false} DedupMembers(xs: seq<string>)
    ensures forall x :: x in Dedup(xs) <==> x in xs
  {
    if xs != [] {
      DedupMembers(xs[..|xs| - 1]);
      assert xs == xs[..|xs| - 1] + [xs[|xs| - 1]];
    }
  }

  lemma {:induction false} DedupAbsorbs(xs: seq<string>, b: seq<string>)
    requires forall i :: 0 <= i < |b| ==> b[i] in Dedup(xs)
    ensures Dedup(Dedup(xs) + b) == Dedup(xs)
  {
    if b == [] {
      assert Dedup(xs) + b == Dedup(xs);
      DedupFixed(xs);
    } else {
      var c := Dedup(xs) + b;
      assert c[..|c| - 1] == Dedup(xs) + b[..|b| - 1];
      DedupAbsorbs(xs, b[..|b| - 1]);
    }
  }

  lemma {:induction false} DedupFixed(xs: seq<string>)
    ensures Dedup(Dedup(xs)) == Dedup(xs)
  {
    if xs != [] {
      DedupFixed(xs[..|xs| - 1]);
      var d := Dedup(xs[..|xs| - 1]);
      assert (d + [xs[|xs| - 1]])[..|d|] == d;
    }
  }

  // ----- What the rows say

  /** Where x stands first; the length when it is absent. */
  function FirstPlace(xs: seq<string>, x: string): nat {
    if xs == [] || xs[0] == x then 0 else 1 + FirstPlace(xs[1..], x)
  }

  /** Each member of `all` once, in the order of first occurrence. */
  ghost predicate OnceInOrder(xs: seq<string>, all: seq<string>) {
    && (forall x :: x in xs <==> x in all)
    && forall i, j :: 0 <= i < j < |xs| ==> FirstPlace(all, xs[i]) < FirstPlace(all, xs[j])
  }

  /** Of two texts the first that is not empty. */
  predicate FirstSet(value: string, first: string, second: string) {
    if first != "" then value == first else value == second
  }

  predicate FirstPresent<T(==)>(value: Option<T>, first: Option<T>, second: Option<T>) {
    if first.Some? then value == first else value == second
  }

  /** Running, success and skipped are shown as they are, everything else as failed. */
  predicate ShownStatus(value: string, status: string) {
    if status == "running" || status == "success" || status == "skipped" then value == status else value == "failed"
  }

  /**
   The row of a step that absorbed an entry. The entry keeps its payload, kind, status,
   error and times; the step adds what is missing, and its id and child session win.
   */
  ghost predicate RowOfBoth(row: Entry, e: Entry, step: Step) {
    && row.nodeId == step.nodeId && row.payload == e.payload
    && FirstSet(row.kind, e.kind, step.kind)
    && (if e.status != "" then row.status == e.status else ShownStatus(row.status, step.status))
    && FirstPresent(row.error, e.error, step.errorSafe)
    && FirstPresent(row.childSession, step.childSession, e.childSession)
    && row.id == row.traceStepId
    && (step.id != "" ==> row.id == step.id)
    && (step.id == "" && step.traceStepId != "" ==> row.id == step.traceStepId)
    && (step.id == "" && step.traceStepId == "" ==> FirstSet(row.id, e.id, e.traceStepId))
    && OnceInOrder(row.tools, e.tools + step.tools)
    && row.startedAt == StartOf(e.startedAt)
    && row.finishedAt == (if Seconds(e.finishedAt).Some? then FinishOf(e.finishedAt) else FinishOf(step.finishedAt))
  }

  /** The row of a step without an entry. */
  ghost predicate RowOfStep(row: Entry, step: Step) {
    && row.nodeId == step.nodeId && row.payload == "" && row.kind == step.kind
    && ShownStatus(row.status, step.status)
    && row.error == step.errorSafe && row.childSession == step.childSession
    && row.id == row.traceStepId && FirstSet(row.id, step.id, step.traceStepId)
    && OnceInOrder(row.tools, step.tools)
    && row.startedAt == StartOf(step.startedAt) && row.finishedAt == FinishOf(step.finishedAt)
  }

  /** Every row of the merge is the row of its step, joined with the entry the step absorbed. */
  lemma MergedRows(trace: seq<Entry>, steps: seq<Step>, i: nat)
    requires i < |steps|
    ensures i < |Merge(trace, steps)|
    ensures var m := Matches(NormalizeAll(trace), steps)[i];
            if m >= 0 then m < |trace| && RowOfBoth(Merge(trace, steps)[i], trace[m], steps[i])
            else RowOfStep(Merge(trace, steps)[i], steps[i])
  {
    var legacy := NormalizeAll(trace);
    var ms := Matches(legacy, steps);
    MatchesValid(legacy, steps);
    MergeIs(trace, steps);
    hide Matches, Leftovers, Merge, Join;
    assert Merge(trace, steps)[i] == Join(Existing(legacy, ms[i]), steps[i]);
    if ms[i] >= 0 { JoinedWithEntry(trace[ms[i]], steps[i]); } else { JoinedAlone(steps[i]); }
  }

  lemma JoinedWithEntry(e: Entry, step: Step)
    ensures RowOfBoth(Join(Normalized(e), step), e, step)
  {
    DedupOnce(e.tools + step.tools);
    hide Dedup, OnceInOrder, Seconds;
  }

  lemma JoinedAlone(step: Step)
    ensures RowOfStep(Join(BLANK, step), step)
  {
    DedupOnce(step.tools);
    assert [] + step.tools == step.tools;
    hide Dedup, OnceInOrder, Seconds;
  }

  lemma {:induction false} FirstPlaceSnoc(front: seq<string>, last: string, x: string)
    ensures FirstPlace(front + [last], x)
         == if x in front then FirstPlace(front, x) else if x == last then |front| else |front| + 1
    ensures x in front <==> FirstPlace(front, x) < |front|
  {
    if front == [] {
      assert front + [last] == [last];
      assert [last][1..] == [];
    } else {
      assert (front + [last])[1..] == front[1..] + [last];
      FirstPlaceSnoc(front[1..], last, x);
      assert front == [front[0]] + front[1..];
    }
  }

  lemma {:induction false} DedupOnce(xs: seq<string>)
    ensures OnceInOrder(Dedup(xs), xs)
  {
    if xs != [] {
      var front, last := xs[..|xs| - 1], xs[|xs| - 1];
      var d := Dedup(front);
      DedupOnce(front);
      assert xs == front + [last];
      forall i, j | 0 <= i < j < |Dedup(xs)| ensures FirstPlace(xs, Dedup(xs)[i]) < FirstPlace(xs, Dedup(xs)[j]) {
        FirstPlaceSnoc(front, last, Dedup(xs)[i]);
        FirstPlaceSnoc(front, last, Dedup(xs)[j]);
        assert d[i] in front;
        if j < |d| { assert d[j] in front; }
      }
    }
  }

  /** One instant in seconds, in milliseconds and as a parsed date is one time. */
  lemma WireFormsAgree(x: real)
    requires Abs(x) < 100_000_000_000.0 && Abs(x * 1000.0) <= 8_640_000_000_000_000.0
    ensures Seconds(Number(x)) == Some(x) && Seconds(Text(Some(x * 1000.0))) == Some(x)
    ensures Abs(x * 1000.0) >= 100_000_000_000.0 ==> Seconds(Number(x * 1000.0)) == Some(x)
    ensures StartOf(Number(x)) == FinishOf(Number(x)) == Number(x)
    ensures StartOf(Missing) == StartOf(Text(None)) == Number(0.0)
    ensures FinishOf(Missing) == FinishOf(Text(None)) == Missing
  {
  }

  /** Free for step i: of its node and not absorbed by an earlier step. */
  predicate FreeFor(legacy: seq<Entry>, steps: seq<Step>, i: nat, m: int)
    requires i < |steps|
  {
    && 0 <= m < |legacy| && legacy[m].nodeId == steps[i].nodeId
    && forall j :: 0 <= j < i ==> Matches(legacy, steps)[j] != m
  }

  /** A step takes the free entry at its own position, else the first free one, else none. */
  lemma MatchRule(legacy: seq<Entry>, steps: seq<Step>, i: nat)
    requires i < |steps|
    ensures var m := Matches(legacy, steps)[i];
            && (FreeFor(legacy, steps, i, i) ==> m == i)
            && (!FreeFor(legacy, steps, i, i) && m >= 0 ==>
                  FreeFor(legacy, steps, i, m) && forall k :: 0 <= k < m ==> !FreeFor(legacy, steps, i, k))
            && (m < 0 ==> m == -1 && forall k :: 0 <= k < |legacy| ==> !FreeFor(legacy, steps, i, k))
  {
    var ms := Matches(legacy, steps);
    MatchesPrefix(legacy, steps, i);
    var used := Used(ms[..i]);
    hide Matches;
    forall k | 0 <= k < |legacy| ensures k in used <==> exists j :: 0 <= j < i && ms[j] == k {
      if k in used { var j :| 0 <= j < |ms[..i]| && ms[..i][j] == k; assert ms[j] == k; }
      if j :| 0 <= j < i && ms[j] == k { assert ms[..i][j] == k; }
    }
  }

  lemma {:induction false} MatchesPrefix(legacy: seq<Entry>, steps: seq<Step>, i: nat)
    requires i < |steps|
    ensures var ms := Matches(legacy, steps);
            ms[i] == Match(legacy, Used(ms[..i]), steps[i].nodeId, i) && ms[..i] == Matches(legacy, steps[..i])
  {
    var n := |steps| - 1;
    if i < n {
      MatchesPrefix(legacy, steps[..n], i);
      assert steps[..n][..i] == steps[..i];
      assert Matches(legacy, steps)[..i] == Matches(legacy, steps[..n])[..i];
    } else {
      assert Matches(legacy, steps)[..n] == Matches(legacy, steps[..n]);
    }
  }
}
