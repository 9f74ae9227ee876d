/**
 Speaker headers and day dividers of a transcript window, apps/app/common/message-groups.ts.
 `fold` is `trim().toLowerCase()`; `day` names the local day of an instant.
 */
module MessageGroups {
  import opened Options

  datatype Role = Assistant | User | Tool | Compaction

  datatype Author = Author(isAgent: bool, handle: string, display: string)

  datatype Message = Message(role: Role, author: Option<Author>, timestamp: Option<int>)

  datatype Group = Agent | System | Mission | Human(name: string)

  datatype TimelineEntry = TimelineEntry(timestamp: Option<int>, showDayDivider: bool)

  function GroupKey(m: Message, fold: string -> string): Group {
    if m.role.Assistant? || m.role.Tool? then Agent
    else if m.role.Compaction? then System
    else if m.author.Some? && m.author.value.isAgent then Mission
    else if m.author.Some? && fold(m.author.value.handle) != "" then Human(fold(m.author.value.handle))
    else if m.author.Some? && fold(m.author.value.display) != "" then Human(fold(m.author.value.display))
    else Human("current-user")
  }

  predicate IsMission(m: Message) {
    m.role.User? && m.author.Some? && m.author.value.isAgent
  }

  predicate RendersHeader(m: Message) {
    m.role.Assistant? || (m.role.User? && !IsMission(m))
  }

  const MILLISECOND_THRESHOLD := 100_000_000_000
  const LAST_DATE := 8_640_000_000_000_000

  /** `messageTimestampMs`: seconds below the threshold, milliseconds above, `None` past the last date. */
  function TimestampMs(value: Option<int>): Option<int> {
    if value.None? || value.value <= 0 then None
    else
      var ms := if value.value < MILLISECOND_THRESHOLD then value.value * 1000 else value.value;
      if ms <= LAST_DATE then Some(ms) else None
  }

  // ----- Headers

  /** Messages j to i belong to one contiguous group. */
  predicate Together(ms: seq<Message>, j: nat, i: nat, fold: string -> string)
    requires j <= i < |ms|
  {
    forall k :: j <= k <= i ==> GroupKey(ms[k], fold) == GroupKey(ms[i], fold)
  }

  /** The group has shown its header by message i. */
  predicate Shown(ms: seq<Message>, i: nat, fold: string -> string)
    requires i < |ms|
  {
    exists j :: 0 <= j <= i && Together(ms, j, i, fold) && RendersHeader(ms[j])
  }

  /** The first header-bearing message of its group. */
  predicate HeaderAt(ms: seq<Message>, i: nat, fold: string -> string)
    requires i < |ms|
  {
    RendersHeader(ms[i]) && forall j :: 0 <= j < i && Together(ms, j, i, fold) ==> !RendersHeader(ms[j])
  }

  lemma TogetherStep(ms: seq<Message>, j: nat, i: nat, fold: string -> string)
    requires j < i < |ms|
    ensures Together(ms, j, i, fold) <==>
      Together(ms, j, i - 1, fold) && GroupKey(ms[i - 1], fold) == GroupKey(ms[i], fold)
  {
    hide GroupKey;
    if Together(ms, j, i - 1, fold) && GroupKey(ms[i - 1], fold) == GroupKey(ms[i], fold) {
      assert forall k :: j <= k <= i - 1 ==> GroupKey(ms[k], fold) == GroupKey(ms[i - 1], fold);
    }
    if Together(ms, j, i, fold) {
      assert GroupKey(ms[i - 1], fold) == GroupKey(ms[i], fold);
    }
  }

  /** One step of the scan: the flag of message i and what is known after it. */
  lemma ScanStep(ms: seq<Message>, i: nat, fold: string -> string)
    requires i < |ms|
    ensures var before := i > 0 && GroupKey(ms[i - 1], fold) == GroupKey(ms[i], fold) && Shown(ms, i - 1, fold);
      && (HeaderAt(ms, i, fold) <==> RendersHeader(ms[i]) && !before)
      && (Shown(ms, i, fold) <==> RendersHeader(ms[i]) || before)
  {
    hide GroupKey, RendersHeader;
    assert Together(ms, i, i, fold);
    forall j | 0 <= j < i
      ensures Together(ms, j, i, fold) <==>
        Together(ms, j, i - 1, fold) && GroupKey(ms[i - 1], fold) == GroupKey(ms[i], fold)
    {
      TogetherStep(ms, j, i, fold);
    }
    hide Together;
    if i > 0 && GroupKey(ms[i - 1], fold) == GroupKey(ms[i], fold) && Shown(ms, i - 1, fold) {
      var j :| 0 <= j <= i - 1 && Together(ms, j, i - 1, fold) && RendersHeader(ms[j]);
      assert Together(ms, j, i, fold);
    }
  }

  method MessageHeaderVisibility(ms: seq<Message>, fold: string -> string) returns (flags: seq<bool>)
    ensures |flags| == |ms| && forall i :: 0 <= i < |ms| ==> flags[i] == HeaderAt(ms, i, fold)
  {
    hide GroupKey, RendersHeader, HeaderAt, Shown;
    var activeGroup: Option<Group>, headerShown := None, false;
    flags := [];
    for n := 0 to |ms|
      invariant |flags| == n && forall i :: 0 <= i < n ==> flags[i] == HeaderAt(ms, i, fold)
      invariant activeGroup == if n == 0 then None else Some(GroupKey(ms[n - 1], fold))
      invariant headerShown == (n > 0 && Shown(ms, n - 1, fold))
    {
      ScanStep(ms, n, fold);
      var nextGroup := GroupKey(ms[n], fold);
      if Some(nextGroup) != activeGroup {
        activeGroup := Some(nextGroup);
        headerShown := false;
      }
      if !RendersHeader(ms[n]) || headerShown {
        flags := flags + [false];
      } else {
        headerShown := true;
        flags := flags + [true];
      }
    }
  }

  /** A group never shows two headers, and shows one as soon as a message of it can carry one. */
  lemma OneHeaderPerGroup(ms: seq<Message>, i: nat, fold: string -> string)
    requires i < |ms|
    ensures forall j :: 0 <= j < i && Together(ms, j, i, fold) ==> !(HeaderAt(ms, j, fold) && HeaderAt(ms, i, fold))
    ensures RendersHeader(ms[i]) ==> exists j :: 0 <= j <= i && Together(ms, j, i, fold) && HeaderAt(ms, j, fold)
  {
    if RendersHeader(ms[i]) { FirstHeader(ms, i, i, fold); }
  }

  lemma {:induction false} FirstHeader(ms: seq<Message>, i: nat, j: nat, fold: string -> string)
    requires j <= i < |ms| && Together(ms, j, i, fold) && RendersHeader(ms[j])
    ensures exists h :: 0 <= h <= i && Together(ms, h, i, fold) && HeaderAt(ms, h, fold)
  {
    hide GroupKey, RendersHeader;
    if !HeaderAt(ms, j, fold) {
      var h :| 0 <= h < j && Together(ms, h, j, fold) && RendersHeader(ms[h]);
      assert GroupKey(ms[j], fold) == GroupKey(ms[i], fold);
      assert Together(ms, h, i, fold);
      FirstHeader(ms, i, h, fold);
    }
  }

  /**
   Rendering only from message w on keeps every header of the whole transcript. A header
   the window adds belongs to the group that message w continues.
   */
  lemma WindowHeaders(ms: seq<Message>, w: nat, i: nat, fold: string -> string)
    requires w + i < |ms|
    ensures HeaderAt(ms, w + i, fold) ==> HeaderAt(ms[w..], i, fold)
    ensures HeaderAt(ms[w..], i, fold) && !HeaderAt(ms, w + i, fold) ==> w > 0 && Together(ms, w - 1, w + i, fold)
  {
    hide GroupKey, RendersHeader;
    var ws := ms[w..];
    assert forall k :: 0 <= k < |ws| ==> ws[k] == ms[w + k];
    forall j | 0 <= j <= i ensures Together(ws, j, i, fold) <==> Together(ms, w + j, w + i, fold) {
      WindowTogether(ms, w, j, i, fold);
    }
    if HeaderAt(ws, i, fold) && !HeaderAt(ms, w + i, fold) {
      var n := w + i;
      forall j | w <= j < n && Together(ms, j, n, fold) ensures !RendersHeader(ms[j]) {
        assert Together(ws, j - w, i, fold);
      }
      var j :| 0 <= j < n && Together(ms, j, n, fold) && RendersHeader(ms[j]);
      assert Together(ms, w - 1, w + i, fold);
    }
  }

  lemma WindowTogether(ms: seq<Message>, w: nat, j: nat, i: nat, fold: string -> string)
    requires j <= i && w + i < |ms|
    ensures Together(ms[w..], j, i, fold) <==> Together(ms, w + j, w + i, fold)
  {
    hide GroupKey;
    var ws := ms[w..];
    if Together(ws, j, i, fold) {
      forall k | w + j <= k <= w + i ensures GroupKey(ms[k], fold) == GroupKey(ms[w + i], fold) {
        assert ws[k - w] == ms[k] && ws[i] == ms[w + i];
      }
    }
    if Together(ms, w + j, w + i, fold) {
      forall k | j <= k <= i ensures GroupKey(ws[k], fold) == GroupKey(ws[i], fold) {
        assert ws[k] == ms[w + k] && ws[i] == ms[w + i];
      }
    }
  }

  // ----- Day dividers

  /** A speaker's message with a usable timestamp. */
  predicate Stamped(m: Message) {
    (m.role.Assistant? || m.role.User?) && TimestampMs(m.timestamp).Some?
  }

  function Day(m: Message, day: int -> string): string {
    if TimestampMs(m.timestamp).Some? then day(TimestampMs(m.timestamp).value) else ""
  }

  /** The last stamped message before i is j. */
  predicate Previous(ms: seq<Message>, j: nat, i: nat)
    requires j < i <= |ms|
  {
    Stamped(ms[j]) && forall k :: j < k < i ==> !Stamped(ms[k])
  }

  /** Stamped, with no stamped message before it or the last one of another day. */
  predicate DividerAt(ms: seq<Message>, i: nat, day: int -> string)
    requires i < |ms|
  {
    Stamped(ms[i]) && forall j :: 0 <= j < i && Previous(ms, j, i) ==> Day(ms[j], day) != Day(ms[i], day)
  }

  function EntryAt(ms: seq<Message>, i: nat, fold: string -> string, day: int -> string): TimelineEntry
    requires i < |ms|
  {
    if Stamped(ms[i]) && (HeaderAt(ms, i, fold) || IsMission(ms[i]) || DividerAt(ms, i, day))
    then TimelineEntry(TimestampMs(ms[i].timestamp), DividerAt(ms, i, day))
    else TimelineEntry(None, false)
  }

  /** The day of the last stamped message before n. */
  ghost predicate LastDay(ms: seq<Message>, n: nat, day: int -> string, previous: Option<string>)
    requires n <= |ms|
  {
    && (previous.None? <==> forall k :: 0 <= k < n ==> !Stamped(ms[k]))
    && forall j :: 0 <= j < n && Previous(ms, j, n) ==> previous == Some(Day(ms[j], day))
  }

  lemma {:induction false} PreviousExists(ms: seq<Message>, n: nat)
    requires n <= |ms|
    ensures (forall k :: 0 <= k < n ==> !Stamped(ms[k])) || exists j :: 0 <= j < n && Previous(ms, j, n)
  {
    hide Stamped;
    if n > 0 {
      if Stamped(ms[n - 1]) {
        assert Previous(ms, n - 1, n);
      } else {
        var m := n - 1;
        PreviousExists(ms, m);
        if j :| 0 <= j < m && Previous(ms, j, m) { assert Previous(ms, j, n); }
      }
    }
  }

  lemma PreviousStep(ms: seq<Message>, j: nat, n: nat)
    requires j <= n < |ms|
    ensures Previous(ms, j, n + 1) <==> if Stamped(ms[n]) then j == n else j < n && Previous(ms, j, n)
  {
    hide Stamped;
  }

  lemma PreviousUnique(ms: seq<Message>, i: nat, j: nat, n: nat)
    requires i < n <= |ms| && j < n && Previous(ms, i, n) && Previous(ms, j, n)
    ensures i == j
  {
    hide Stamped;
  }

  lemma DividerIff(ms: seq<Message>, n: nat, day: int -> string, previous: Option<string>)
    requires n < |ms| && LastDay(ms, n, day, previous) && Stamped(ms[n])
    ensures DividerAt(ms, n, day) <==> previous != Some(Day(ms[n], day))
  {
    hide Stamped, Day;
    PreviousExists(ms, n);
    hide Previous;
    if j :| 0 <= j < n && Previous(ms, j, n) {
      forall i | 0 <= i < n && Previous(ms, i, n) ensures i == j { PreviousUnique(ms, i, j, n); }
    }
  }

  lemma StampedStep(ms: seq<Message>, n: nat, day: int -> string)
    requires n < |ms| && Stamped(ms[n])
    ensures LastDay(ms, n + 1, day, Some(Day(ms[n], day)))
  {
    hide Stamped, Day, Previous;
    var m := n + 1;
    forall j | 0 <= j < m && Previous(ms, j, m) ensures j == n { PreviousStep(ms, j, n); }
  }

  lemma UnstampedStep(ms: seq<Message>, n: nat, day: int -> string, previous: Option<string>)
    requires n < |ms| && LastDay(ms, n, day, previous) && !Stamped(ms[n])
    ensures LastDay(ms, n + 1, day, previous)
  {
    hide Stamped, Day, Previous;
    var m := n + 1;
    forall j | 0 <= j < m && Previous(ms, j, m) ensures previous == Some(Day(ms[j], day)) {
      PreviousStep(ms, j, n);
    }
  }

  method MessageTurnTimeline(ms: seq<Message>, fold: string -> string,
                             day: int -> string) returns (entries: seq<TimelineEntry>)
    ensures |entries| == |ms| && forall i :: 0 <= i < |ms| ==> entries[i] == EntryAt(ms, i, fold, day)
  {
    hide HeaderAt, DividerAt, LastDay, TimestampMs;
    var headers := MessageHeaderVisibility(ms, fold);
    var previousDay: Option<string> := None;
    entries := [];
    NoDayYet(ms, day);
    for n := 0 to |ms|
      invariant |entries| == n && forall i :: 0 <= i < n ==> entries[i] == EntryAt(ms, i, fold, day)
      invariant LastDay(ms, n, day, previousDay)
    {
      var isSpeakerMessage := ms[n].role.Assistant? || ms[n].role.User?;
      var timestamp := TimestampMs(ms[n].timestamp);
      if !isSpeakerMessage || timestamp.None? {
        UnstampedStep(ms, n, day, previousDay);
        entries := entries + [TimelineEntry(None, false)];
      } else {
        DividerIff(ms, n, day, previousDay);
        StampedStep(ms, n, day);
        var today := day(timestamp.value);
        var showDayDivider := Some(today) != previousDay;
        previousDay := Some(today);
        if !headers[n] && !IsMission(ms[n]) && !showDayDivider {
          entries := entries + [TimelineEntry(None, false)];
        } else {
          entries := entries + [TimelineEntry(timestamp, showDayDivider)];
        }
      }
    }
  }

  lemma NoDayYet(ms: seq<Message>, day: int -> string)
    ensures LastDay(ms, 0, day, None)
  {
  }

  /**
   Rendering only from message w on keeps every divider of the whole transcript; the only
   divider a window can add stands at its first stamped message.
   */
  lemma WindowDividers(ms: seq<Message>, w: nat, i: nat, day: int -> string)
    requires w + i < |ms|
    ensures DividerAt(ms, w + i, day) ==> DividerAt(ms[w..], i, day)
    ensures DividerAt(ms[w..], i, day) && !DividerAt(ms, w + i, day) ==> forall k :: 0 <= k < i ==> !Stamped(ms[w..][k])
  {
    hide Stamped, Day;
    var ws := ms[w..];
    assert forall k :: 0 <= k < |ws| ==> ws[k] == ms[w + k];
    forall j | 0 <= j < i ensures Previous(ws, j, i) <==> Previous(ms, w + j, w + i) {
      WindowPrevious(ms, w, j, i);
    }
    PreviousExists(ws, i);
    if j :| 0 <= j < i && Previous(ws, j, i) {
      assert Previous(ms, w + j, w + i);
    }
  }

  lemma WindowPrevious(ms: seq<Message>, w: nat, j: nat, i: nat)
    requires j < i && w + i <= |ms|
    ensures Previous(ms[w..], j, i) <==> Previous(ms, w + j, w + i)
  {
    hide Stamped;
    var ws := ms[w..];
    if Previous(ws, j, i) {
      forall k | w + j < k < w + i ensures !Stamped(ms[k]) { assert ws[k - w] == ms[k]; }
    }
    if Previous(ms, w + j, w + i) {
      forall k | j < k < i ensures !Stamped(ws[k]) { assert ws[k] == ms[w + k]; }
    }
  }

  /** Stamped messages leave a day and come back to it. */
  predicate Returns(ms: seq<Message>, i: int, j: int, k: int, day: int -> string) {
    && 0 <= i < j < k < |ms| && Stamped(ms[i]) && Stamped(ms[j]) && Stamped(ms[k])
    && Day(ms[i], day) == Day(ms[k], day) && Day(ms[j], day) != Day(ms[i], day)
  }

  ghost predicate DaysContiguous(ms: seq<Message>, day: int -> string) {
    forall i, j, k :: !Returns(ms, i, j, k, day)
  }

  predicate OneDividerPerDay(ms: seq<Message>, day: int -> string) {
    forall i, k :: 0 <= i < k < |ms| && DividerAt(ms, i, day) && DividerAt(ms, k, day) ==>
      Day(ms[i], day) != Day(ms[k], day)
  }

  /** The divider that opens the run of days message i is in. */
  lemma {:induction false} Opening(ms: seq<Message>, lo: nat, i: nat, day: int -> string) returns (h: nat)
    requires lo <= i < |ms| && Stamped(ms[i])
    requires lo == 0 || (Stamped(ms[lo - 1]) && Day(ms[lo - 1], day) != Day(ms[i], day))
    ensures lo <= h <= i && DividerAt(ms, h, day) && Day(ms[h], day) == Day(ms[i], day)
  {
    hide Stamped, Day;
    if DividerAt(ms, i, day) { return i; }
    var j: nat :| j < i && Previous(ms, j, i) && Day(ms[j], day) == Day(ms[i], day);
    assert j >= lo;
    h := Opening(ms, lo, j, day);
  }

  lemma ReturnDivides(ms: seq<Message>, i: nat, j: nat, k: nat, day: int -> string)
    requires Returns(ms, i, j, k, day)
    ensures !OneDividerPerDay(ms, day)
  {
    hide Stamped, Day, DividerAt;
    var a := Opening(ms, 0, i, day);
    var b := Opening(ms, j + 1, k, day);
    assert a < b && DividerAt(ms, a, day) && DividerAt(ms, b, day);
  }

  lemma SecondDividerReturns(ms: seq<Message>, i: nat, k: nat, day: int -> string)
    requires i < k < |ms| && DividerAt(ms, i, day) && DividerAt(ms, k, day) && Day(ms[i], day) == Day(ms[k], day)
    ensures exists j :: Returns(ms, i, j, k, day)
  {
    hide Stamped, Day;
    PreviousExists(ms, k);
    var j :| 0 <= j < k && Previous(ms, j, k);
    assert Day(ms[j], day) != Day(ms[k], day);
    assert i <= j;
    assert Returns(ms, i, j, k, day);
  }

  /** Each day has one divider exactly when no stamped message returns to an earlier day. */
  lemma OneDividerPerDayIff(ms: seq<Message>, day: int -> string)
    ensures OneDividerPerDay(ms, day) <==> DaysContiguous(ms, day)
  {
    hide Day, DividerAt;
    if !DaysContiguous(ms, day) {
      var i, j, k :| Returns(ms, i, j, k, day);
      ReturnDivides(ms, i, j, k, day);
    }
    if !OneDividerPerDay(ms, day) {
      var i, k :| 0 <= i < k < |ms| && DividerAt(ms, i, day) && DividerAt(ms, k, day)
               && Day(ms[i], day) == Day(ms[k], day);
      SecondDividerReturns(ms, i, k, day);
    }
  }

  /** Three stamped messages of which only the middle one is from another day show its neighbours' day twice. */
  lemma DayComesBack(a: Message, b: Message, c: Message, day: int -> string)
    requires Stamped(a) && Stamped(b) && Stamped(c) && Day(a, day) == Day(c, day) != Day(b, day)
    ensures DividerAt([a, b, c], 0, day) && DividerAt([a, b, c], 2, day)
    ensures !OneDividerPerDay([a, b, c], day)
  {
    hide Stamped, Day;
    var ms := [a, b, c];
    assert Previous(ms, 1, 2);
    assert DividerAt(ms, 0, day) && DividerAt(ms, 2, day);
  }

  // ----- Who speaks

  /** A human goes by the folded handle, else by the folded display name, else as the current user. */
  predicate GoesBy(m: Message, name: string, fold: string -> string) {
    if m.author.Some? && fold(m.author.value.handle) != "" then name == fold(m.author.value.handle)
    else if m.author.Some? && fold(m.author.value.display) != "" then name == fold(m.author.value.display)
    else name == "current-user"
  }

  predicate ByHuman(m: Message) {
    m.role.User? && !(m.author.Some? && m.author.value.isAgent)
  }

  predicate ByAgent(m: Message) {
    m.role.Assistant? || m.role.Tool?
  }

  /**
   Assistant and tool rows are one speaker, different from every human and mission; two
   human messages are one speaker exactly when they go by the same name.
   */
  lemma SpeakersApart(m: Message, n: Message, fold: string -> string)
    ensures ByAgent(m) && ByAgent(n) ==> GroupKey(m, fold) == GroupKey(n, fold)
    ensures ByAgent(m) && !ByAgent(n) ==> GroupKey(m, fold) != GroupKey(n, fold)
    ensures ByHuman(m) && n.role.User? && !ByHuman(n) ==> GroupKey(m, fold) != GroupKey(n, fold)
    ensures m.role.Compaction? && !n.role.Compaction? ==> GroupKey(m, fold) != GroupKey(n, fold)
    ensures ByHuman(m) && ByHuman(n) ==>
      (GroupKey(m, fold) == GroupKey(n, fold) <==> exists name :: GoesBy(m, name, fold) && GoesBy(n, name, fold))
  {
    if ByHuman(m) && ByHuman(n) && GroupKey(m, fold) == GroupKey(n, fold) {
      var name := GroupKey(m, fold).name;
      assert GoesBy(m, name, fold) && GoesBy(n, name, fold);
    }
  }

  /** In a stretch of assistant and tool rows only its first assistant row can carry the header. */
  lemma AgentNamedOnce(ms: seq<Message>, i: nat, j: nat, fold: string -> string)
    requires i < j < |ms| && ms[i].role.Assistant? && forall k :: i <= k <= j ==> ByAgent(ms[k])
    ensures !HeaderAt(ms, j, fold)
  {
    forall k | i <= k <= j ensures GroupKey(ms[k], fold) == GroupKey(ms[j], fold) {
      SpeakersApart(ms[k], ms[j], fold);
    }
    assert Together(ms, i, j, fold);
  }

  /** An answer that flows through a tool call names the agent once, and again after a compaction. */
  lemma AnswerThroughTool(a: Message, between: Message, b: Message, fold: string -> string)
    requires a.role.Assistant? && b.role.Assistant? && (between.role.Tool? || between.role.Compaction?)
    ensures HeaderAt([a, between, b], 0, fold) && !HeaderAt([a, between, b], 1, fold)
    ensures HeaderAt([a, between, b], 2, fold) <==> between.role.Compaction?
  {
    var ms := [a, between, b];
    if between.role.Tool? {
      AgentNamedOnce(ms, 0, 2, fold);
    } else {
      SpeakersApart(between, b, fold);
      assert !Together(ms, 1, 2, fold) by { assert ms[1] == between && ms[2] == b; }
      assert !Together(ms, 0, 2, fold) by { assert ms[1] == between && ms[2] == b; }
    }
  }

  // ----- Times

  /** Seconds and milliseconds of one positive instant are one time; what is no date has none. */
  lemma StampForms(x: int)
    ensures 0 < x < 100_000_000_000 && 1000 * x <= 8_640_000_000_000_000 ==> TimestampMs(Some(x)) == Some(1000 * x)
    ensures 100_000_000_000 <= x <= 8_640_000_000_000_000 ==> TimestampMs(Some(x)) == Some(x)
    ensures x <= 0 || x > 8_640_000_000_000_000 ==> TimestampMs(Some(x)) == None
    ensures TimestampMs(None) == None
  {
  }

  /**
   A divider always comes with its time, and a time shown is the message's own. A stamped
   message without a time continues what an earlier message shows: its speaker has been
   named in the same group, and the last stamped message is of the same day.
   */
  lemma TimelineShows(ms: seq<Message>, i: nat, fold: string -> string, day: int -> string)
    requires i < |ms|
    ensures var e := EntryAt(ms, i, fold, day);
            && (e.showDayDivider <==> DividerAt(ms, i, day))
            && (e.showDayDivider ==> e.timestamp.Some?)
            && (e.timestamp.Some? ==> Stamped(ms[i]) && e.timestamp == TimestampMs(ms[i].timestamp))
            && (Stamped(ms[i]) && e.timestamp.None? ==>
                  && !IsMission(ms[i])
                  && (exists j :: 0 <= j < i && Together(ms, j, i, fold) && HeaderAt(ms, j, fold))
                  && (exists j :: 0 <= j < i && Previous(ms, j, i) && Day(ms[j], day) == Day(ms[i], day)))
  {
    if Stamped(ms[i]) && EntryAt(ms, i, fold, day).timestamp.None? {
      OneHeaderPerGroup(ms, i, fold);
    }
  }

  /** Only assistants and humans are named, and they are where their group begins. */
  lemma WhoIsNamed(ms: seq<Message>, i: nat, fold: string -> string)
    requires i < |ms|
    ensures HeaderAt(ms, i, fold) ==> ms[i].role.Assistant? || ByHuman(ms[i])
    ensures (i == 0 || GroupKey(ms[i - 1], fold) != GroupKey(ms[i], fold)) ==>
              ms[i].role.Assistant? || ByHuman(ms[i]) ==> HeaderAt(ms, i, fold)
  {
    forall j | 0 <= j < i && Together(ms, j, i, fold) ensures GroupKey(ms[i - 1], fold) == GroupKey(ms[i], fold) {
    }
  }
}
