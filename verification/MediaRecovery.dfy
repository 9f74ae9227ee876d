/**
 Restart limiter of the remote desktop view, apps/app/common/desktop-media-recovery.ts.
 Times are whole milliseconds; a clock reading that is not finite is `None`.
 */
module MediaRecovery {
  import opened Options
  import opened StableSort

  const WINDOW: int := 30_000

  datatype State = State(fps: int, generation: int, restarts: seq<int>)

  predicate Overload(message: string) {
    message in {"Video decoder is too slow", "The desktop connection is too slow. Reopen the view."}
  }

  function Within(now: int): int -> bool {
    time => time <= now && now - time < WINDOW
  }

  function RecoverDesktopMedia(state: State, now: Option<int>, message: string): Option<State> {
    if now.None? || !Overload(message) then None
    else
      var recent := Filter(state.restarts, Within(now.value));
      if |recent| >= 3 then None
      else Some(State(Max(5, state.fps / 2), state.generation + 1, recent + [now.value]))
  }

  // ----- Whole runs

  datatype Call = Call(now: Option<int>, message: string)

  /** The state a view holds after these failures; refused ones change nothing. */
  function After(start: State, calls: seq<Call>): State {
    if calls == [] then start
    else
      var before, last := After(start, calls[..|calls| - 1]), calls[|calls| - 1];
      var next := RecoverDesktopMedia(before, last.now, last.message);
      if next.Some? then next.value else before
  }

  /** When restarts were granted, over the whole run. */
  function Granted(start: State, calls: seq<Call>): seq<int> {
    if calls == [] then []
    else
      var front, last := calls[..|calls| - 1], calls[|calls| - 1];
      var next := RecoverDesktopMedia(After(start, front), last.now, last.message);
      Granted(start, front) + if next.Some? then [last.now.value] else []
  }

  /** No clock reading lies before an earlier one. */
  predicate Monotone(calls: seq<Call>) {
    forall i, j :: 0 <= i < j < |calls| && calls[i].now.Some? && calls[j].now.Some? ==>
      calls[i].now.value <= calls[j].now.value
  }

  /** `t` is no earlier than any reading of the run. */
  predicate Latest(calls: seq<Call>, t: int) {
    forall i :: 0 <= i < |calls| && calls[i].now.Some? ==> calls[i].now.value <= t
  }

  /** The pruned list agrees with the full history on everything a later decision can see. */
  lemma {:induction false} PrunedListAgrees(start: State, calls: seq<Call>, now: int)
    requires start.restarts == [] && Monotone(calls) && Latest(calls, now)
    ensures Filter(After(start, calls).restarts, Within(now)) == Filter(Granted(start, calls), Within(now))
  {
    if calls != [] {
      var front, last := calls[..|calls| - 1], calls[|calls| - 1];
      PrunedListAgrees(start, front, now);
      var before := After(start, front);
      if RecoverDesktopMedia(before, last.now, last.message).Some? {
        var t := last.now.value;
        AtMost(start, front, t);
        FilterFilter(before.restarts, t, now);
        FilterSnoc(Filter(before.restarts, Within(t)), t, Within(now));
        FilterSnoc(Granted(start, front), t, Within(now));
      } else {
        assert Granted(start, calls) == Granted(start, front);
      }
    }
  }

  /** A restart is granted exactly on an overload with fewer than three grants in the window. */
  lemma GrantedIff(start: State, calls: seq<Call>, now: int, message: string)
    requires start.restarts == [] && Monotone(calls) && Latest(calls, now)
    ensures RecoverDesktopMedia(After(start, calls), Some(now), message).Some?
       <==> Overload(message) && |Filter(Granted(start, calls), Within(now))| < 3
  {
    PrunedListAgrees(start, calls, now);
  }

  lemma {:induction false} AtMost(start: State, calls: seq<Call>, t: int)
    requires start.restarts == [] && Latest(calls, t)
    ensures forall i :: 0 <= i < |After(start, calls).restarts| ==> After(start, calls).restarts[i] <= t
    ensures forall i :: 0 <= i < |Granted(start, calls)| ==> Granted(start, calls)[i] <= t
  {
    if calls != [] {
      var front, last := calls[..|calls| - 1], calls[|calls| - 1];
      AtMost(start, front, t);
      if last.now.Some? {
        FilterAtMost(After(start, front).restarts, Within(last.now.value), Same, t);
      }
    }
  }

  function Same(t: int): int { t }

  lemma {:induction false} FilterFilter(ts: seq<int>, t: int, now: int)
    requires t <= now && forall i :: 0 <= i < |ts| ==> ts[i] <= t
    ensures Filter(Filter(ts, Within(t)), Within(now)) == Filter(ts, Within(now))
  {
    if ts != [] {
      var front, last := ts[..|ts| - 1], ts[|ts| - 1];
      FilterFilter(front, t, now);
      assert ts == front + [last];
      FilterSnoc(front, last, Within(t));
      FilterSnoc(front, last, Within(now));
      FilterSnoc(Filter(front, Within(t)), last, Within(now));
    }
  }

  /** Of any four grants the first and the last are at least thirty seconds apart. */
  lemma {:induction false} FourGrantsSpread(start: State, calls: seq<Call>, i: nat)
    requires start.restarts == [] && Monotone(calls) && i + 3 < |Granted(start, calls)|
    ensures Granted(start, calls)[i + 3] - Granted(start, calls)[i] >= WINDOW
  {
    if calls != [] {
      var front, last := calls[..|calls| - 1], calls[|calls| - 1];
      var granted := Granted(start, front);
      if i + 3 < |granted| {
        FourGrantsSpread(start, front, i);
      } else {
        var now := last.now.value;
        GrantedIff(start, front, now, last.message);
        GrantsAscend(start, front);
        AtMost(start, front, now);
        if now - granted[i] < WINDOW {
          var head, three := granted[..i], granted[i..];
          assert granted == head + three;
          FilterAppend(head, three, Within(now));
          FilterAll(three, Within(now));
        }
      }
    }
  }

  lemma {:induction false} GrantsAscend(start: State, calls: seq<Call>)
    requires start.restarts == [] && Monotone(calls)
    ensures Sorted(Granted(start, calls), Same)
  {
    if calls != [] {
      var front, last := calls[..|calls| - 1], calls[|calls| - 1];
      GrantsAscend(start, front);
      if last.now.Some? { AtMost(start, front, last.now.value); }
    }
  }

  /** The generation counts grants; the frame rate never rises and never drops below five. */
  lemma {:induction false} GenerationCountsGrants(start: State, calls: seq<Call>)
    ensures After(start, calls).generation == start.generation + |Granted(start, calls)|
    ensures start.fps >= 5 ==> 5 <= After(start, calls).fps <= start.fps
  {
    if calls != [] { GenerationCountsGrants(start, calls[..|calls| - 1]); }
  }

  /**
   The clock must not step back: a reading before every recorded restart is granted however
   many restarts came before it, and the record of them is lost.
   */
  lemma BackwardClockForgets(state: State, now: int, message: string)
    requires Overload(message) && forall i :: 0 <= i < |state.restarts| ==> now < state.restarts[i]
    ensures RecoverDesktopMedia(state, Some(now), message).Some?
    ensures RecoverDesktopMedia(state, Some(now), message).value.restarts == [now]
  {
    FilterNone(state.restarts, Within(now));
  }

  /** k times halved, rounding down. */
  function Halved(x: int, k: nat): int {
    if k == 0 then x else Halved(x, k - 1) / 2
  }

  /** After k grants the frame rate is k times halved, but at least five. */
  lemma {:induction false} RateIsHalved(start: State, calls: seq<Call>)
    ensures After(start, calls).fps == if Granted(start, calls) == [] then start.fps
                                       else Max(5, Halved(start.fps, |Granted(start, calls)|))
  {
    if calls != [] { RateIsHalved(start, calls[..|calls| - 1]); }
  }

  /** The two overload messages are answered while the record is empty, no other message ever is. */
  lemma OnlyOverloadsRecover(state: State, now: Option<int>, message: string)
    ensures message !in {"Video decoder is too slow", "The desktop connection is too slow. Reopen the view."} ==>
            RecoverDesktopMedia(state, now, message).None?
    ensures RecoverDesktopMedia(state, None, message).None?
    ensures now.Some? && state.restarts == [] ==>
            && RecoverDesktopMedia(state, now, "Video decoder is too slow").Some?
            && RecoverDesktopMedia(state, now, "The desktop connection is too slow. Reopen the view.").Some?
  {
  }

  /** A restart counts from the moment it is granted until thirty seconds have passed. */
  lemma WithinIff(now: int, time: int)
    ensures Within(now)(time) <==> 0 <= now - time < 30_000
  {
  }
}
