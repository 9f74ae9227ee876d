/**
 Merging a shared-session snapshot into a chat transcript,
 apps/app/common/shared-transcript.ts. Absent optional strings are the empty string, which
 the source treats alike everywhere.
 */
module SharedTranscript {
  import opened StableSort

  datatype Role = User | Assistant | Tool

  datatype Message = Message(id: string, role: Role, text: string, timestamp: int,
                             sharedTurnId: string, providerRunId: string, streaming: bool, extra: string)

  datatype TurnMessage = TurnMessage(id: string, role: Role, text: string, timestamp: int, extra: string)
  datatype TurnTool = TurnTool(id: string, info: string, timestamp: int)

  /** `hasRun` tells whether `runId` is set; `finishedAt` is 0 while unset. */
  datatype Turn = Turn(id: string, hasRun: bool, providerRunId: string, active: bool,
                       startedAt: int, finishedAt: int, error: string,
                       messages: seq<TurnMessage>, tools: seq<TurnTool>)

  function Time(m: Message): int { m.timestamp }

  // ----- The rows one turn contributes

  function MessageRow(t: Turn, m: TurnMessage): Message {
    Message("shared:" + t.id + ":" + m.id, m.role, m.text, m.timestamp * 1000,
            t.id, t.providerRunId, t.active && m.role == Assistant, m.extra)
  }

  function ToolRow(t: Turn, w: TurnTool): Message {
    Message("shared:" + t.id + ":tool:" + w.id, Tool, "", w.timestamp * 1000,
            t.id, t.providerRunId, false, w.info)
  }

  function ErrorRow(t: Turn): Message {
    Message("shared:" + t.id + ":error", Assistant, t.error,
            (if t.finishedAt != 0 then t.finishedAt else t.startedAt) * 1000,
            t.id, "", false, "")
  }

  function Rows(t: Turn): (rows: seq<Message>)
    ensures forall i :: 0 <= i < |rows| ==> rows[i].sharedTurnId == t.id
  {
    seq(|t.messages|, i requires 0 <= i < |t.messages| => MessageRow(t, t.messages[i]))
    + seq(|t.tools|, i requires 0 <= i < |t.tools| => ToolRow(t, t.tools[i]))
    + if t.error != "" then [ErrorRow(t)] else []
  }

  // ----- The merge

  function TurnIds(turns: seq<Turn>): set<string> {
    set t | t in turns :: t.id
  }

  /** Runs that already have rows of their own, outside any shared turn. */
  function DurableRuns(previous: seq<Message>): set<string> {
    set m | m in previous && m.sharedTurnId == "" && m.providerRunId != "" :: m.providerRunId
  }

  function ReplacedRuns(turns: seq<Turn>): set<string> {
    set t | t in turns && t.active && t.providerRunId != "" :: t.providerRunId
  }

  function Survives(turns: seq<Turn>): Message -> bool {
    (m: Message) => m.sharedTurnId !in TurnIds(turns) && m.providerRunId !in ReplacedRuns(turns)
  }

  predicate Shown(t: Turn, durable: set<string>) {
    t.hasRun && !(!t.active && t.providerRunId != "" && t.providerRunId in durable)
  }

  function Pushed(turns: seq<Turn>, durable: set<string>): seq<Message> {
    if turns == [] then []
    else Pushed(turns[..|turns| - 1], durable)
         + if Shown(turns[|turns| - 1], durable) then Rows(turns[|turns| - 1]) else []
  }

  function Merge(previous: seq<Message>, turns: seq<Turn>): seq<Message> {
    Sort(Filter(previous, Survives(turns)) + Pushed(turns, DurableRuns(previous)), Time)
  }

  method PushRows(base: seq<Message>, turn: Turn) returns (grown: seq<Message>)
    ensures grown == base + Rows(turn)
  {
    grown := base;
    for j := 0 to |turn.messages|
      invariant grown == base + Rows(turn)[..j]
    {
      grown := grown + [MessageRow(turn, turn.messages[j])];
    }
    for j := 0 to |turn.tools|
      invariant grown == base + Rows(turn)[..|turn.messages| + j]
    {
      grown := grown + [ToolRow(turn, turn.tools[j])];
    }
    if turn.error != "" {
      grown := grown + [ErrorRow(turn)];
    }
    assert grown == base + Rows(turn);
  }

  method MergeSharedTranscript(previous: seq<Message>, turns: seq<Turn>) returns (result: seq<Message>)
    ensures result == Merge(previous, turns)
  {
    hide Filter, Pushed, Rows, Sort, TurnIds, DurableRuns, ReplacedRuns;
    var ids, durable, replaced := TurnIds(turns), DurableRuns(previous), ReplacedRuns(turns);
    var base: seq<Message> := [];
    FilterNone([], Survives(turns));
    NothingPushed(durable);
    for i := 0 to |previous|
      invariant base == Filter(previous[..i], Survives(turns))
    {
      assert previous[..i + 1] == previous[..i] + [previous[i]];
      FilterSnoc(previous[..i], previous[i], Survives(turns));
      if previous[i].sharedTurnId !in ids && previous[i].providerRunId !in replaced {
        base := base + [previous[i]];
      }
    }
    assert previous[..|previous|] == previous;
    ghost var kept := base;
    for i := 0 to |turns|
      invariant base == kept + Pushed(turns[..i], durable)
    {
      var turn := turns[i];
      PushedSnoc(turns, durable, i);
      if !turn.hasRun { continue; }
      if !turn.active && turn.providerRunId != "" && turn.providerRunId in durable { continue; }
      base := PushRows(base, turn);
    }
    assert turns[..|turns|] == turns;
    result := Sort(base, Time);
  }

  lemma NothingPushed(durable: set<string>)
    ensures Pushed([], durable) == []
  {
  }

  lemma {:induction false} PushedSnoc(turns: seq<Turn>, durable: set<string>, i: nat)
    requires i < |turns|
    ensures Pushed(turns[..i + 1], durable)
         == Pushed(turns[..i], durable) + if Shown(turns[i], durable) then Rows(turns[i]) else []
  {
    assert turns[..i + 1][..i] == turns[..i];
  }

  // ----- Merging the same snapshot again

  predicate NonEmptyIds(turns: seq<Turn>) {
    forall i :: 0 <= i < |turns| ==> turns[i].id != ""
  }

  predicate UniqueTurnIds(turns: seq<Turn>) {
    forall i, j :: 0 <= i < j < |turns| ==> turns[i].id != turns[j].id
  }

  /** No finished turn with rows claims the provider run of a turn that is still active. */
  predicate NoShadowedTurn(turns: seq<Turn>) {
    forall i :: 0 <= i < |turns| ==> !Shadowed(turns[i], turns)
  }

  predicate Shadowed(t: Turn, turns: seq<Turn>) {
    && t.hasRun && !t.active && (t.messages != [] || t.tools != [] || t.error != "") && t.providerRunId != ""
    && exists i :: 0 <= i < |turns| && turns[i].active && turns[i].providerRunId == t.providerRunId
  }

  lemma ShadowedMeans(t: Turn, turns: seq<Turn>)
    ensures Shadowed(t, turns) <==> t.hasRun && !t.active && Rows(t) != [] && t.providerRunId in ReplacedRuns(turns)
  {
    if t.providerRunId in ReplacedRuns(turns) {
      var u :| u in turns && u.active && u.providerRunId != "" && u.providerRunId == t.providerRunId;
      var i :| 0 <= i < |turns| && turns[i] == u;
      assert turns[i].active && turns[i].providerRunId == t.providerRunId;
    }
  }

  /** Replaying a snapshot is harmless for every transcript exactly when no turn is shadowed. */
  lemma MergeIdempotentIff(turns: seq<Turn>)
    requires NonEmptyIds(turns)
    ensures (forall previous :: Merge(Merge(previous, turns), turns) == Merge(previous, turns))
       <==> NoShadowedTurn(turns)
  {
    if NoShadowedTurn(turns) {
      forall previous ensures Merge(Merge(previous, turns), turns) == Merge(previous, turns) {
        MergeTwice(previous, turns);
      }
    } else {
      var i :| 0 <= i < |turns| && Shadowed(turns[i], turns);
      ShadowedTurnReappears(turns, i);
    }
  }

  lemma MergeTwice(previous: seq<Message>, turns: seq<Turn>)
    requires NonEmptyIds(turns) && NoShadowedTurn(turns)
    ensures Merge(Merge(previous, turns), turns) == Merge(previous, turns)
  {
    var kept, durable := Filter(previous, Survives(turns)), DurableRuns(previous);
    var pushed, merged := Pushed(turns, durable), Merge(previous, turns);
    calc {
      Filter(merged, Survives(turns));
      { FilterSort(kept + pushed, Time, Survives(turns)); }
      Sort(Filter(kept + pushed, Survives(turns)), Time);
      { FilterAppend(kept, pushed, Survives(turns)); }
      Sort(Filter(kept, Survives(turns)) + Filter(pushed, Survives(turns)), Time);
      {
        FilterHolds(previous, Survives(turns));
        FilterAll(kept, Survives(turns));
        PushedDropped(turns, durable, turns);
      }
      Sort(kept + [], Time);
      { assert kept + [] == kept; }
      Sort(kept, Time);
    }
    DurableAfterMerge(previous, turns);
    forall i | 0 <= i < |turns| && Rows(turns[i]) != []
      ensures Shown(turns[i], DurableRuns(merged)) <==> Shown(turns[i], durable)
    {
      assert !Shadowed(turns[i], turns);
      ShadowedMeans(turns[i], turns);
    }
    PushedAgree(turns, durable, DurableRuns(merged));
    SortPresorted(kept, pushed, Time);
  }

  /** After a merge the durable runs are the earlier ones that no active turn replaced. */
  lemma DurableAfterMerge(previous: seq<Message>, turns: seq<Turn>)
    requires NonEmptyIds(turns)
    ensures DurableRuns(Merge(previous, turns)) == DurableRuns(previous) - ReplacedRuns(turns)
  {
    var kept, pushed := Filter(previous, Survives(turns)), Pushed(turns, DurableRuns(previous));
    var merged := Merge(previous, turns);
    SortMembers(kept + pushed, Time);
    FilterMembers(previous, Survives(turns));
    PushedIds(turns, DurableRuns(previous));
    forall m: Message | m.sharedTurnId == ""
      ensures m in merged <==> m in previous && m.providerRunId !in ReplacedRuns(turns)
    {
      assert m in merged <==> m in kept || m in pushed;
    }
    forall r | r in DurableRuns(previous) - ReplacedRuns(turns) ensures r in DurableRuns(merged) {
      var m :| m in previous && m.sharedTurnId == "" && m.providerRunId != "" && m.providerRunId == r;
      assert m in merged;
    }
  }

  lemma {:induction false} PushedIds(turns: seq<Turn>, durable: set<string>)
    requires NonEmptyIds(turns)
    ensures forall m :: m in Pushed(turns, durable) ==> m.sharedTurnId != "" && m.sharedTurnId in TurnIds(turns)
  {
    if turns != [] {
      PushedIds(turns[..|turns| - 1], durable);
      assert forall t :: t in turns[..|turns| - 1] ==> t in turns;
      assert turns[|turns| - 1] in turns;
    }
  }

  lemma {:induction false} PushedDropped(turns: seq<Turn>, durable: set<string>, all: seq<Turn>)
    requires forall i :: 0 <= i < |turns| ==> turns[i] in all
    ensures Filter(Pushed(turns, durable), Survives(all)) == []
  {
    if turns != [] {
      var front, last := turns[..|turns| - 1], turns[|turns| - 1];
      PushedDropped(front, durable, all);
      FilterAppend(Pushed(front, durable), if Shown(last, durable) then Rows(last) else [], Survives(all));
      FilterNone(Rows(last), Survives(all));
    }
  }

  lemma {:induction false} PushedAgree(turns: seq<Turn>, a: set<string>, b: set<string>)
    requires forall i :: 0 <= i < |turns| && Rows(turns[i]) != [] ==> (Shown(turns[i], a) <==> Shown(turns[i], b))
    ensures Pushed(turns, a) == Pushed(turns, b)
  {
    if turns != [] {
      PushedAgree(turns[..|turns| - 1], a, b);
    }
  }

  /** A shadowed turn is skipped by the first merge and reappears with the second. */
  lemma ShadowedTurnReappears(turns: seq<Turn>, i: nat)
    requires NonEmptyIds(turns) && i < |turns| && Shadowed(turns[i], turns)
    ensures exists previous :: Merge(Merge(previous, turns), turns) != Merge(previous, turns)
  {
    ShadowedMeans(turns[i], turns);
    var p := turns[i].providerRunId;
    var row := Message("", User, "", 0, "", p, false, "");
    var previous := [row];
    assert DurableRuns(previous) == {p} by { assert row in previous; }
    FilterNone(previous, Survives(turns));
    var once := Merge(previous, turns);
    assert once == Sort(Pushed(turns, {p}), Time) by { assert [] + Pushed(turns, {p}) == Pushed(turns, {p}); }
    FilterSort(Pushed(turns, {p}), Time, Survives(turns));
    PushedDropped(turns, {p}, turns);
    DurableAfterMerge(previous, turns);
    assert DurableRuns(once) == {};
    assert Merge(once, turns) == Sort(Pushed(turns, {}), Time) by {
      assert [] + Pushed(turns, {}) == Pushed(turns, {});
    }
    FewerPushed(turns, p, i);
    SortPermutes(Pushed(turns, {}), Time);
    SortPermutes(Pushed(turns, {p}), Time);
  }

  lemma {:induction false} FewerPushed(turns: seq<Turn>, p: string, i: int)
    requires 0 <= i < |turns| ==>
      turns[i].hasRun && !turns[i].active && turns[i].providerRunId == p != "" && Rows(turns[i]) != []
    ensures |Pushed(turns, {p})| <= |Pushed(turns, {})|
    ensures 0 <= i < |turns| ==> |Pushed(turns, {p})| < |Pushed(turns, {})|
  {
    if turns != [] {
      FewerPushed(turns[..|turns| - 1], p, i);
    }
  }

  // ----- Every turn is shown once

  function OfTurn(id: string): Message -> bool {
    (m: Message) => m.sharedTurnId == id
  }

  /** What the merge shows of a turn: all its rows in time order, or none. */
  lemma TurnRows(previous: seq<Message>, turns: seq<Turn>, i: nat)
    requires NonEmptyIds(turns) && UniqueTurnIds(turns) && i < |turns|
    ensures Filter(Merge(previous, turns), OfTurn(turns[i].id))
         == if Shown(turns[i], DurableRuns(previous)) then Sort(Rows(turns[i]), Time) else []
  {
    var t, merged, durable := turns[i], Merge(previous, turns), DurableRuns(previous);
    var kept, pushed := Filter(previous, Survives(turns)), Pushed(turns, durable);
    calc {
      Filter(merged, OfTurn(t.id));
      { FilterSort(kept + pushed, Time, OfTurn(t.id)); }
      Sort(Filter(kept + pushed, OfTurn(t.id)), Time);
      { FilterAppend(kept, pushed, OfTurn(t.id)); }
      Sort(Filter(kept, OfTurn(t.id)) + Filter(pushed, OfTurn(t.id)), Time);
      { assert t in turns; FilterHolds(previous, Survives(turns)); FilterNone(kept, OfTurn(t.id)); }
      Sort([] + Filter(pushed, OfTurn(t.id)), Time);
      { assert [] + Filter(pushed, OfTurn(t.id)) == Filter(pushed, OfTurn(t.id)); }
      Sort(Filter(pushed, OfTurn(t.id)), Time);
      { PushedOfTurn(turns, durable, i); }
      Sort(if Shown(t, durable) then Rows(t) else [], Time);
    }
  }

  /** The turn's own rows are in the transcript. */
  predicate ByShared(transcript: seq<Message>, t: Turn) {
    Filter(transcript, OfTurn(t.id)) == Sort(Rows(t), Time) != []
  }

  /** Rows outside any shared turn show the turn's provider run. */
  predicate ByDurable(transcript: seq<Message>, t: Turn) {
    exists i :: 0 <= i < |transcript| && transcript[i].sharedTurnId == ""
             && transcript[i].providerRunId == t.providerRunId != ""
  }

  lemma DurableMeans(transcript: seq<Message>, t: Turn)
    ensures ByDurable(transcript, t) <==> t.providerRunId in DurableRuns(transcript)
  {
    if t.providerRunId in DurableRuns(transcript) {
      var m :| m in transcript && m.sharedTurnId == "" && m.providerRunId == t.providerRunId != "";
      var i :| 0 <= i < |transcript| && transcript[i] == m;
    }
  }

  /**
   A turn with a run and with rows is never shown twice, and it is shown, through all of
   its shared rows or through durable rows of its run, exactly unless it is shadowed and
   its run was durable: then the merge drops the durable rows and skips the turn.
   */
  lemma TurnShownOnceIff(previous: seq<Message>, turns: seq<Turn>, i: nat)
    requires NonEmptyIds(turns) && UniqueTurnIds(turns) && i < |turns| && turns[i].hasRun && Rows(turns[i]) != []
    ensures var merged, t := Merge(previous, turns), turns[i];
      && !(ByShared(merged, t) && ByDurable(merged, t))
      && (ByShared(merged, t) || ByDurable(merged, t) <==> !(Shadowed(t, turns) && ByDurable(previous, t)))
  {
    var t := turns[i];
    TurnRows(previous, turns, i);
    DurableAfterMerge(previous, turns);
    SortPermutes(Rows(t), Time);
    ShadowedMeans(t, turns);
    DurableMeans(previous, t);
    DurableMeans(Merge(previous, turns), t);
    assert t in turns;
    hide Merge, Rows, Sort, Filter, Shadowed, ByDurable;
  }

  /**
   Without shadowed turns a turn with a run appears through all of its shared rows or through
   durable rows of its provider run; a turn without a run contributes nothing.
   */
  lemma TurnShownOnce(previous: seq<Message>, turns: seq<Turn>, i: nat)
    requires NonEmptyIds(turns) && UniqueTurnIds(turns) && NoShadowedTurn(turns) && i < |turns|
    ensures Filter(Merge(previous, turns), OfTurn(turns[i].id))
         == if !turns[i].hasRun || turns[i].providerRunId in DurableRuns(Merge(previous, turns)) then []
            else Sort(Rows(turns[i]), Time)
  {
    TurnRows(previous, turns, i);
    DurableAfterMerge(previous, turns);
    assert !Shadowed(turns[i], turns);
    ShadowedMeans(turns[i], turns);
  }

  lemma {:induction false} PushedOfTurn(turns: seq<Turn>, durable: set<string>, i: nat)
    requires i < |turns| && forall j :: 0 <= j < |turns| && j != i ==> turns[j].id != turns[i].id
    ensures Filter(Pushed(turns, durable), OfTurn(turns[i].id))
         == if Shown(turns[i], durable) then Rows(turns[i]) else []
  {
    hide Filter, Pushed, Rows, Shown;
    var front, last, id := turns[..|turns| - 1], turns[|turns| - 1], turns[i].id;
    assert forall j :: 0 <= j < |front| ==> front[j] == turns[j];
    assert forall j :: 0 <= j < |front| && j != i ==> front[j].id != id;
    PushedOfLast(front, last, durable, id);
    assert turns == front + [last];
    if i == |turns| - 1 {
      PushedOfOthers(front, durable, id);
    } else {
      PushedOfTurn(front, durable, i);
    }
  }

  lemma PushedOfLast(front: seq<Turn>, last: Turn, durable: set<string>, id: string)
    ensures Filter(Pushed(front + [last], durable), OfTurn(id))
         == Filter(Pushed(front, durable), OfTurn(id))
            + if last.id == id && Shown(last, durable) then Rows(last) else []
  {
    var rows := if Shown(last, durable) then Rows(last) else [];
    assert (front + [last])[..|front|] == front;
    FilterAppend(Pushed(front, durable), rows, OfTurn(id));
    if last.id == id { FilterAll(rows, OfTurn(id)); } else { FilterNone(rows, OfTurn(id)); }
  }

  lemma {:induction false} PushedOfOthers(turns: seq<Turn>, durable: set<string>, id: string)
    requires forall i :: 0 <= i < |turns| ==> turns[i].id != id
    ensures Filter(Pushed(turns, durable), OfTurn(id)) == []
  {
    if turns != [] {
      var front, last := turns[..|turns| - 1], turns[|turns| - 1];
      PushedOfOthers(front, durable, id);
      PushedOfLast(front, last, durable, id);
      assert turns == front + [last];
    }
  }

  // ----- Rows outside the snapshot

  /** The row belongs to no turn of the snapshot. */
  predicate IsForeign(m: Message, turns: seq<Turn>) {
    forall i :: 0 <= i < |turns| ==> turns[i].id != m.sharedTurnId
  }

  /** The row's run is the run of an active turn. */
  predicate IsClaimed(m: Message, turns: seq<Turn>) {
    exists i :: 0 <= i < |turns| && turns[i].active && turns[i].providerRunId == m.providerRunId != ""
  }

  function Foreign(turns: seq<Turn>): Message -> bool {
    (m: Message) => IsForeign(m, turns)
  }

  function Untouched(turns: seq<Turn>): Message -> bool {
    (m: Message) => IsForeign(m, turns) && !IsClaimed(m, turns)
  }

  lemma ForeignMeans(turns: seq<Turn>, m: Message)
    ensures IsForeign(m, turns) <==> m.sharedTurnId !in TurnIds(turns)
  {
    if m.sharedTurnId in TurnIds(turns) {
      var t :| t in turns && t.id == m.sharedTurnId;
      var i :| 0 <= i < |turns| && turns[i] == t;
    }
    if !IsForeign(m, turns) {
      var i :| 0 <= i < |turns| && turns[i].id == m.sharedTurnId;
      assert turns[i] in turns;
    }
  }

  lemma ClaimedMeans(turns: seq<Turn>, m: Message)
    ensures IsClaimed(m, turns) <==> m.providerRunId in ReplacedRuns(turns)
  {
    if m.providerRunId in ReplacedRuns(turns) {
      var t :| t in turns && t.active && t.providerRunId != "" && t.providerRunId == m.providerRunId;
      var i :| 0 <= i < |turns| && turns[i] == t;
    }
    if IsClaimed(m, turns) {
      var i :| 0 <= i < |turns| && turns[i].active && turns[i].providerRunId == m.providerRunId != "";
      assert turns[i] in turns;
    }
  }

  lemma UntouchedSurvives(turns: seq<Turn>, m: Message)
    ensures Untouched(turns)(m) <==> Survives(turns)(m)
    ensures Foreign(turns)(m) <==> m.sharedTurnId !in TurnIds(turns)
  {
    ForeignMeans(turns, m);
    ClaimedMeans(turns, m);
    hide IsForeign, IsClaimed, TurnIds, ReplacedRuns;
  }

  lemma {:induction false} SameFilter(xs: seq<Message>, p: Message -> bool, q: Message -> bool)
    requires forall i :: 0 <= i < |xs| ==> (p(xs[i]) <==> q(xs[i]))
    ensures Filter(xs, p) == Filter(xs, q)
  {
    if xs != [] { SameFilter(xs[..|xs| - 1], p, q); }
  }

  /**
   Of the rows that belong to no turn of the snapshot the merge keeps exactly those whose
   run no active turn claims, as many as there were and in time order.
   */
  lemma ForeignRowsKept(previous: seq<Message>, turns: seq<Turn>)
    ensures Filter(Merge(previous, turns), Foreign(turns)) == Sort(Filter(previous, Untouched(turns)), Time)
    ensures Sorted(Merge(previous, turns), Time)
  {
    var kept, pushed := Filter(previous, Survives(turns)), Pushed(turns, DurableRuns(previous));
    forall m ensures (Untouched(turns)(m) <==> Survives(turns)(m)) && (Survives(turns)(m) ==> Foreign(turns)(m)) {
      UntouchedSurvives(turns, m);
    }
    SameFilter(previous, Untouched(turns), Survives(turns));
    FilterSort(kept + pushed, Time, Foreign(turns));
    FilterAppend(kept, pushed, Foreign(turns));
    FilterHolds(previous, Survives(turns));
    FilterAll(kept, Foreign(turns));
    PushedIsOwn(turns, DurableRuns(previous));
    forall i | 0 <= i < |pushed| ensures !Foreign(turns)(pushed[i]) {
      assert pushed[i] in pushed;
      UntouchedSurvives(turns, pushed[i]);
    }
    FilterNone(pushed, Foreign(turns));
    assert kept + [] == kept;
    SortSorted(kept + pushed, Time);
  }

  lemma {:induction false} PushedIsOwn(turns: seq<Turn>, durable: set<string>)
    ensures forall m :: m in Pushed(turns, durable) ==> m.sharedTurnId in TurnIds(turns)
  {
    if turns != [] {
      PushedIsOwn(turns[..|turns| - 1], durable);
      assert forall t :: t in turns[..|turns| - 1] ==> t in turns;
      assert turns[|turns| - 1] in turns;
    }
  }

  // ----- What the rows of a turn say

  predicate ShowsMessage(row: Message, t: Turn, m: TurnMessage) {
    && row.id == "shared:" + t.id + ":" + m.id && row.role == m.role && row.text == m.text && row.extra == m.extra
    && row.timestamp == 1000 * m.timestamp && row.sharedTurnId == t.id && row.providerRunId == t.providerRunId
    && (row.streaming <==> t.active && m.role == Assistant)
  }

  predicate ShowsTool(row: Message, t: Turn, w: TurnTool) {
    && row.id == "shared:" + t.id + ":tool:" + w.id && row.role == Tool && row.text == "" && row.extra == w.info
    && row.timestamp == 1000 * w.timestamp && row.sharedTurnId == t.id && row.providerRunId == t.providerRunId
    && !row.streaming
  }

  /** An error is an assistant row at the end of the turn, or at its start while it has no end. */
  predicate ShowsError(row: Message, t: Turn) {
    && row.id == "shared:" + t.id + ":error" && row.role == Assistant && row.text == t.error && row.extra == ""
    && row.timestamp == 1000 * (if t.finishedAt != 0 then t.finishedAt else t.startedAt)
    && row.sharedTurnId == t.id && row.providerRunId == "" && !row.streaming
  }

  /** A row for each message, then for each tool, then for an error. */
  predicate ShowsTurn(rows: seq<Message>, t: Turn) {
    var n, k := |t.messages|, |t.tools|;
    && |rows| == n + k + (if t.error != "" then 1 else 0)
    && (forall i :: 0 <= i < n ==> ShowsMessage(rows[i], t, t.messages[i]))
    && (forall i :: 0 <= i < k ==> ShowsTool(rows[n + i], t, t.tools[i]))
    && (t.error != "" ==> ShowsError(rows[n + k], t))
  }

  lemma MessageShown(t: Turn, m: TurnMessage)
    ensures ShowsMessage(MessageRow(t, m), t, m)
  {
  }

  lemma ToolShown(t: Turn, w: TurnTool)
    ensures ShowsTool(ToolRow(t, w), t, w)
  {
  }

  lemma ErrorShown(t: Turn)
    ensures ShowsError(ErrorRow(t), t)
  {
  }

  lemma RowsShow(t: Turn)
    ensures ShowsTurn(Rows(t), t)
  {
    hide MessageRow, ToolRow, ErrorRow, ShowsMessage, ShowsTool, ShowsError;
    var rows, n, k := Rows(t), |t.messages|, |t.tools|;
    forall i | 0 <= i < n ensures ShowsMessage(rows[i], t, t.messages[i]) {
      assert rows[i] == MessageRow(t, t.messages[i]);
      MessageShown(t, t.messages[i]);
    }
    forall i | 0 <= i < k ensures ShowsTool(rows[n + i], t, t.tools[i]) {
      assert rows[n + i] == ToolRow(t, t.tools[i]);
      ToolShown(t, t.tools[i]);
    }
    if t.error != "" { ErrorShown(t); }
  }

  /** The rows of a turn in the transcript are its messages, tools and error, in time order, or there are none. */
  lemma TurnIsShown(previous: seq<Message>, turns: seq<Turn>, i: nat) returns (rows: seq<Message>)
    requires NonEmptyIds(turns) && UniqueTurnIds(turns) && i < |turns|
    ensures ShowsTurn(rows, turns[i])
    ensures var t, shown := turns[i], Filter(Merge(previous, turns), OfTurn(turns[i].id));
            if t.hasRun && (t.active || !ByDurable(previous, t)) then shown == Sort(rows, Time) else shown == []
  {
    rows := Rows(turns[i]);
    RowsShow(turns[i]);
    hide Rows, ShowsTurn, Merge, Filter, Sort, ByDurable, DurableRuns;
    TurnRows(previous, turns, i);
    DurableMeans(previous, turns[i]);
  }
}
