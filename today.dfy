/** The Today screen: the seven-day completion window, the streak, the
    completion toggle for today, and the pure classifiers that pick a habit's
    icon and a calendar cell's colours. Days are integer indices; `today` is
    the index of the current calendar day. */
module Today {
  import opened Common
  import opened Store
  import opened JsNumber

  datatype Icon =
    | Dumbbell | BookOpenVariant | Laptop | Water | Spa | CheckboxMarkedCircleOutline

  datatype DayColor =
    | Background | Danger | Green100 | Green300 | Green500 | Green700 | Green900

  datatype TextColor = White | TextDark

  /** A habit as the screen holds it after loading the `habits` snapshot. */
  datatype Habit = Habit(
    key: HabitId,
    name: string,
    startTime: string,
    endTime: string,
    createdAt: Option<int>,
    icon: Icon)

  /** One cell of the week grid. Calendar labels are not modelled. */
  datatype DayAggregate = DayAggregate(
    date: int,
    doneCount: nat,
    totalCount: nat,
    isAllDone: bool,
    isToday: bool)

  /** A habit with today's completion flag. */
  datatype Task = Task(habit: Habit, isCompleted: bool)

  // ---------------------------------------------------------------------------
  // Week window and streak

  /** A day counts as all done when there is at least one habit and the
      number of completed ids equals the number of habits. */
  predicate IsAllDone(doneCount: nat, totalCount: nat)
  {
    totalCount > 0 && doneCount == totalCount
  }

  /** The number of all-done days at the end of `s`, stopping at the first
      (counting backwards) that is not all done. */
  function TrailingAllDone(s: seq<DayAggregate>): (n: nat)
    ensures n <= |s|
    ensures forall j :: |s| - n <= j < |s| ==> s[j].isAllDone
    ensures n < |s| ==> !s[|s| - 1 - n].isAllDone
  {
    if s == [] || !s[|s| - 1].isAllDone then 0
    else 1 + TrailingAllDone(s[..|s| - 1])
  }

  /** The streak of a seven-day window: one for today if today is all done,
      plus the run of all-done days going back from yesterday. */
  function Streak(week: seq<DayAggregate>): nat
    requires |week| == 7
  {
    (if week[6].isAllDone then 1 else 0) + TrailingAllDone(week[..6])
  }

  /** The run length is determined by where the run stops. */
  lemma TrailingAllDoneExact(s: seq<DayAggregate>, n: nat)
    requires n <= |s|
    requires forall j :: |s| - n <= j < |s| ==> s[j].isAllDone
    requires n == |s| || !s[|s| - 1 - n].isAllDone
    ensures TrailingAllDone(s) == n
  {
  }

  /** Builds the window for the six days before `today` and `today` itself,
      oldest first, and derives the streak by walking it newest first.
      Past days are read from `store`; today uses `todayCompletedOverride`
      when one is supplied (even an empty one) and a read otherwise. */
  method CalculateWeekAndStreak(
    currentHabits: seq<Habit>,
    today: int,
    todayCompletedOverride: Option<seq<HabitId>>,
    store: StatusStore)
    returns (days: seq<DayAggregate>, streak: nat)
    ensures |days| == 7
    ensures forall j :: 0 <= j < 7 ==> days[j].date == today - 6 + j
    ensures forall j :: 0 <= j < 7 ==> (days[j].isToday <==> j == 6)
    ensures forall j :: 0 <= j < 7 ==> days[j].totalCount == |currentHabits|
    ensures forall j :: 0 <= j < 7 ==>
      (days[j].isAllDone <==> IsAllDone(days[j].doneCount, days[j].totalCount))
    ensures forall j :: 0 <= j < 6 ==>
      days[j].doneCount == |CompletedOf(store.Read(today - 6 + j))|
    ensures days[6].doneCount ==
      if todayCompletedOverride.Some? then |todayCompletedOverride.value|
      else |CompletedOf(store.Read(today))|
    ensures streak == Streak(days)
    ensures streak <= 7
    ensures |currentHabits| == 0 ==> streak == 0
  {
    var totalHabitsCount := |currentHabits|;
    days := [];
    var i := -6;
    while i <= 0
      invariant -6 <= i <= 1
      invariant |days| == i + 6
      invariant forall j :: 0 <= j < |days| ==>
        && days[j].date == today - 6 + j
        && (days[j].isToday <==> j == 6)
        && days[j].totalCount == totalHabitsCount
        && (days[j].isAllDone <==> IsAllDone(days[j].doneCount, totalHabitsCount))
      invariant forall j :: 0 <= j < |days| && j < 6 ==>
        days[j].doneCount == |CompletedOf(store.Read(today - 6 + j))|
      invariant |days| == 7 ==> (days[6].doneCount ==
        if todayCompletedOverride.Some? then |todayCompletedOverride.value|
        else |CompletedOf(store.Read(today))|)
    {
      var date := today + i;
      var isToday := i == 0;
      var doneCount: nat;
      if isToday && todayCompletedOverride.Some? {
        doneCount := |todayCompletedOverride.value|;
      } else {
        var snap := store.Read(date);
        doneCount := |CompletedOf(snap)|;
      }
      var isAllDone := totalHabitsCount > 0 && doneCount == totalHabitsCount;
      days := days + [DayAggregate(date, doneCount, totalHabitsCount, isAllDone, isToday)];
      i := i + 1;
    }

    // Walk the window newest first: an all-done day extends the streak, an
    // unfinished past day ends the walk, an unfinished today is passed over.
    ghost var todayPoint := if days[6].isAllDone then 1 else 0;
    ghost var past := days[..6];
    streak := 0;
    var k := |days|;
    while k > 0
      invariant 0 <= k <= 7
      invariant k == 7 ==> streak == 0
      invariant k < 7 ==> streak == todayPoint + (6 - k)
      invariant forall j :: k <= j < 6 ==> days[j].isAllDone
    {
      var day := days[k - 1];
      if day.isAllDone {
        streak := streak + 1;
      } else if !day.isToday {
        TrailingAllDoneExact(past, 6 - k);
        break;
      }
      k := k - 1;
    }
    if k == 0 {
      TrailingAllDoneExact(past, 6);
    }
  }

  /** The streak never exceeds the window, and an unfinished today adds
      nothing but takes nothing away from the run of earlier days. */
  lemma StreakBounds(week: seq<DayAggregate>)
    requires |week| == 7
    ensures TrailingAllDone(week[..6]) <= Streak(week) <= 7
    ensures !week[6].isAllDone ==> Streak(week) == TrailingAllDone(week[..6])
    ensures week[6].isAllDone ==> Streak(week) == TrailingAllDone(week)
  {
    var s := week[..6];
    if week[6].isAllDone {
      assert week[..|week| - 1] == s;
    }
  }

  /** With no habits no day is all done, so the streak is 0. */
  lemma StreakWithoutHabits(week: seq<DayAggregate>)
    requires |week| == 7
    requires forall j :: 0 <= j < 7 ==> week[j].totalCount == 0
    requires forall j :: 0 <= j < 7 ==>
      (week[j].isAllDone <==> IsAllDone(week[j].doneCount, week[j].totalCount))
    ensures Streak(week) == 0
  {
    TrailingAllDoneExact(week[..6], 0);
  }

  /** Six finished past days and an unfinished today give a streak of 6. */
  lemma StreakPartialToday(week: seq<DayAggregate>)
    requires |week| == 7
    requires forall j :: 0 <= j < 6 ==> week[j].isAllDone
    requires !week[6].isAllDone
    ensures Streak(week) == 6
  {
    TrailingAllDoneExact(week[..6], 6);
  }

  /** An unfinished day two days back caps the streak at yesterday (if done)
      plus today (if done). */
  lemma StreakBrokenTwoDaysBack(week: seq<DayAggregate>)
    requires |week| == 7
    requires !week[4].isAllDone
    ensures Streak(week) ==
      (if week[6].isAllDone then 1 else 0) + (if week[5].isAllDone then 1 else 0)
  {
    TrailingAllDoneExact(week[..6], if week[5].isAllDone then 1 else 0);
  }

  // ---------------------------------------------------------------------------
  // Completion toggle

  /** The list of completed ids after toggling `x`: removed everywhere if
      present, appended once if absent. */
  function ToggledIds(s: seq<HabitId>, x: HabitId): (r: seq<HabitId>)
    ensures forall y :: y in r <==> (if y == x then x !in s else y in s)
    ensures NoDuplicates(s) ==> NoDuplicates(r)
  {
    if x in s then ArrayRemove(s, x) else ArrayUnion(s, x)
  }

  lemma {:induction false} ArrayRemoveAppended(s: seq<HabitId>, x: HabitId)
    requires x !in s
    ensures ArrayRemove(s + [x], x) == s
  {
    if s == [] {
      assert [] + [x] == [x];
      assert [x][1..] == [];
    } else {
      assert (s + [x])[1..] == s[1..] + [x];
      ArrayRemoveAppended(s[1..], x);
    }
  }

  /** Toggling the same id twice gives back the same set of ids; starting
      from an absent id it gives back the very same list. */
  lemma ToggleTwice(s: seq<HabitId>, x: HabitId)
    ensures forall y :: y in ToggledIds(ToggledIds(s, x), x) <==> y in s
    ensures x !in s ==> ToggledIds(ToggledIds(s, x), x) == s
  {
    if x !in s {
      ArrayRemoveAppended(s, x);
    }
  }

  /** `toggleTask`: with a signed-in user, removes `habitId` from today's
      record when the screen's `completedIds` holds it, and otherwise merges
      it into today's record (creating the record) and stamps `updatedAt`.
      A failed write, or a remove on a missing record, leaves the store as it
      was. */
  method ToggleTask(
    userId: Option<string>,
    today: int,
    completedIds: seq<HabitId>,
    habitId: HabitId,
    store: StatusStore,
    now: int,
    writeOk: bool)
    modifies store
    ensures !Truthy(userId) || !writeOk ==> store.days == old(store.days)
    ensures Truthy(userId) && writeOk && habitId in completedIds ==>
      store.days ==
        if today in old(store.days) then
          old(store.days)[today := old(store.days)[today].(
            completed := Some(ArrayRemove(CompletedOf(Some(old(store.days)[today])), habitId)))]
        else old(store.days)
    ensures Truthy(userId) && writeOk && habitId !in completedIds ==>
      store.days == old(store.days)[today := StatusDoc(
        Some(ArrayUnion(CompletedOf(old(store.Read(today))), habitId)), Some(now))]
    ensures forall d :: d != today ==> store.Read(d) == old(store.Read(d))
    ensures Truthy(userId) && writeOk && old(CompletedOf(store.Read(today))) == completedIds ==>
      CompletedOf(store.Read(today)) == ToggledIds(completedIds, habitId)
  {
    if !Truthy(userId) {
      return;
    }
    var isCompleted := habitId in completedIds;
    if !writeOk {
      // the write was rejected; the error is only logged
      return;
    }
    if isCompleted {
      // `update` fails on a document that does not exist
      if today in store.days {
        var doc := store.days[today];
        store.days := store.days[today := doc.(
          completed := Some(ArrayRemove(CompletedOf(Some(doc)), habitId)))];
      }
    } else {
      var current := CompletedOf(store.Read(today));
      store.days := store.days[today := StatusDoc(Some(ArrayUnion(current, habitId)), Some(now))];
    }
  }

  // ---------------------------------------------------------------------------
  // Icons

  datatype IconRule = IconRule(keywords: seq<string>, icon: Icon)

  /** The keyword rules in the order they are tried. */
  const IconRules: seq<IconRule> := [
    IconRule(["gym", "workout"], Dumbbell),
    IconRule(["read"], BookOpenVariant),
    IconRule(["code", "dev"], Laptop),
    IconRule(["water"], Water),
    IconRule(["meditat"], Spa)
  ]

  predicate RuleMatches(rule: IconRule, n: string)
  {
    exists k :: 0 <= k < |rule.keywords| && Includes(n, rule.keywords[k])
  }

  /** A rule of one or two keywords matches when one of them occurs. */
  lemma RuleMatchesSmall(rule: IconRule, n: string)
    requires 1 <= |rule.keywords| <= 2
    ensures RuleMatches(rule, n) <==>
      Includes(n, rule.keywords[0]) || (|rule.keywords| == 2 && Includes(n, rule.keywords[1]))
  {
    if Includes(n, rule.keywords[0]) {
      assert 0 < |rule.keywords|;
    }
  }

  /** The icon of the first rule that matches, or the default icon. */
  function FirstMatch(rules: seq<IconRule>, n: string): Icon
  {
    if rules == [] then CheckboxMarkedCircleOutline
    else if RuleMatches(rules[0], n) then rules[0].icon
    else FirstMatch(rules[1..], n)
  }

  lemma {:induction false} FirstMatchWins(rules: seq<IconRule>, n: string, k: nat)
    requires k < |rules|
    requires RuleMatches(rules[k], n)
    requires forall j :: 0 <= j < k ==> !RuleMatches(rules[j], n)
    ensures FirstMatch(rules, n) == rules[k].icon
  {
    if k > 0 {
      assert !RuleMatches(rules[0], n);
      assert rules[1..][k - 1] == rules[k];
      FirstMatchWins(rules[1..], n, k - 1);
    }
  }

  lemma {:induction false} FirstMatchNone(rules: seq<IconRule>, n: string)
    requires forall j :: 0 <= j < |rules| ==> !RuleMatches(rules[j], n)
    ensures FirstMatch(rules, n) == CheckboxMarkedCircleOutline
  {
    if rules != [] {
      assert !RuleMatches(rules[0], n);
      FirstMatchNone(rules[1..], n);
    }
  }

  /** The lower-cased name, or "" when the name is missing. */
  function LowerName(name: Option<string>): string
  {
    if name.Some? then ToLower(name.value) else ""
  }

  /** The keyword tests of `getIconForHabit` on an already lower-cased name. */
  function IconForLowered(n: string): Icon
  {
    if Includes(n, "gym") || Includes(n, "workout") then Dumbbell
    else if Includes(n, "read") then BookOpenVariant
    else if Includes(n, "code") || Includes(n, "dev") then Laptop
    else if Includes(n, "water") then Water
    else if Includes(n, "meditat") then Spa
    else CheckboxMarkedCircleOutline
  }

  /** The keywords of each rule of the table. */
  lemma IconRulesShape()
    ensures |IconRules| == 5
    ensures IconRules[0].keywords == ["gym", "workout"] && IconRules[1].keywords == ["read"]
    ensures IconRules[2].keywords == ["code", "dev"] && IconRules[3].keywords == ["water"]
    ensures IconRules[4].keywords == ["meditat"]
  {
  }

  /** The if-chain picks the icon of the first matching rule of the table. */
  lemma IconChainIsFirstMatch(n: string)
    ensures IconForLowered(n) == FirstMatch(IconRules, n)
  {
    IconRulesShape();
    RuleMatchesSmall(IconRules[0], n);
    if Includes(n, "gym") || Includes(n, "workout") {
      FirstMatchWins(IconRules, n, 0);
      return;
    }
    RuleMatchesSmall(IconRules[1], n);
    if Includes(n, "read") {
      FirstMatchWins(IconRules, n, 1);
      return;
    }
    RuleMatchesSmall(IconRules[2], n);
    if Includes(n, "code") || Includes(n, "dev") {
      FirstMatchWins(IconRules, n, 2);
      return;
    }
    RuleMatchesSmall(IconRules[3], n);
    if Includes(n, "water") {
      FirstMatchWins(IconRules, n, 3);
      return;
    }
    RuleMatchesSmall(IconRules[4], n);
    if Includes(n, "meditat") {
      FirstMatchWins(IconRules, n, 4);
    } else {
      FirstMatchNone(IconRules, n);
    }
  }

  /** `getIconForHabit`: the name lower-cased (a missing name reads as ""),
      then the first keyword rule that matches, or the default icon. */
  function IconForHabit(name: Option<string>): (icon: Icon)
    ensures icon == FirstMatch(IconRules, LowerName(name))
  {
    var n := LowerName(name);
    IconChainIsFirstMatch(n);
    IconForLowered(n)
  }

  /** Icon choice ignores letter case. */
  lemma IconIgnoresCase(name: string)
    ensures IconForHabit(Some(name)) == IconForHabit(Some(ToLower(name)))
  {
    ToLowerIdempotent(name);
  }

  // ---------------------------------------------------------------------------
  // Calendar cell colours

  /** `getColorForDay`, following the source's tests on `done / total`. */
  function ColorForDay(done: nat, total: nat): (c: DayColor)
    ensures c == Background <==> total == 0
    ensures c == Danger <==> total > 0 && done == 0
    ensures c == Green100 <==> total > 0 && 0 < done && 4 * done <= total
    ensures c == Green300 <==> total > 0 && total < 4 * done && 2 * done <= total
    ensures c == Green500 <==> total > 0 && total < 2 * done && 4 * done <= 3 * total
    ensures c == Green700 <==> total > 0 && 3 * total < 4 * done && done < total
    ensures c == Green900 <==> total > 0 && total <= done
  {
    if total == 0 then Background
    else if done == 0 then Danger
    else
      var ratio := Divide(done, total);
      if AtMost(ratio, 1, 4) then Green100
      else if AtMost(ratio, 1, 2) then Green300
      else if AtMost(ratio, 3, 4) then Green500
      else if Below(ratio, 1, 1) then Green700
      else Green900
  }

  /** The order of the buckets from "nothing done" to "all done". */
  function Shade(c: DayColor): nat
  {
    match c
    case Background => 0
    case Danger => 0
    case Green100 => 1
    case Green300 => 2
    case Green500 => 3
    case Green700 => 4
    case Green900 => 5
  }

  /** With the same number of habits, completing more never gives a lighter bucket. */
  lemma ColorMonotone(done1: nat, done2: nat, total: nat)
    requires done1 <= done2
    ensures Shade(ColorForDay(done1, total)) <= Shade(ColorForDay(done2, total))
  {
  }

  /** An all-done day is drawn in the darkest green. */
  lemma AllDoneIsDarkest(done: nat, total: nat)
    requires IsAllDone(done, total)
    ensures ColorForDay(done, total) == Green900
  {
  }

  /** `getTextColorForDay`: dark text exactly when 0 < done / total < 1/2;
      with `total` 0 and `done` > 0 the quotient is Infinity and the text is white. */
  function TextColorForDay(done: nat, total: nat): (c: TextColor)
    ensures c == TextDark <==> total > 0 && 0 < done && 2 * done < total
  {
    if done == 0 then White
    else
      var ratio := Divide(done, total);
      if Below(ratio, 1, 2) && Above(ratio, 0, 1) then TextDark else White
  }

  /** Dark text only ever sits on the two lightest green cells. */
  lemma DarkTextOnLightCells(done: nat, total: nat)
    requires TextColorForDay(done, total) == TextDark
    ensures ColorForDay(done, total) == Green100 || ColorForDay(done, total) == Green300
  {
  }

  // ---------------------------------------------------------------------------
  // Loaded habits, task list and the progress title

  /** The habits snapshot mapped to rows: one row per document in order, the
      icon derived from the name, and a `key` stored in the data taking
      precedence over the document id (the id is written first and the data
      spread over it). */
  function LoadHabits(snapshot: seq<HabitSnapshot>): (habits: seq<Habit>)
    ensures |habits| == |snapshot|
    ensures forall i :: 0 <= i < |snapshot| ==>
      habits[i].key == (if snapshot[i].data.storedKey.Some? then snapshot[i].data.storedKey.value
                        else snapshot[i].id)
    ensures forall i :: 0 <= i < |snapshot| ==>
      && habits[i].name == snapshot[i].data.name
      && habits[i].startTime == snapshot[i].data.startTime
      && habits[i].endTime == snapshot[i].data.endTime
      && habits[i].createdAt == snapshot[i].data.createdAt
      && habits[i].icon == IconForHabit(Some(snapshot[i].data.name))
  {
    if snapshot == [] then []
    else
      var doc := snapshot[0];
      var key := if doc.data.storedKey.Some? then doc.data.storedKey.value else doc.id;
      [Habit(key, doc.data.name, doc.data.startTime, doc.data.endTime, doc.data.createdAt,
             IconForHabit(Some(doc.data.name)))]
      + LoadHabits(snapshot[1..])
  }

  /** `tasks`: every habit, in order, flagged completed iff its key is in
      today's completed ids. */
  function Tasks(habits: seq<Habit>, completedIds: seq<HabitId>): (tasks: seq<Task>)
    ensures |tasks| == |habits|
    ensures forall i :: 0 <= i < |habits| ==>
      tasks[i].habit == habits[i] && (tasks[i].isCompleted <==> habits[i].key in completedIds)
  {
    if habits == [] then []
    else [Task(habits[0], habits[0].key in completedIds)] + Tasks(habits[1..], completedIds)
  }

  /** The progress card reads "All Clear!" exactly when today's cell would be
      all done for the same counts. */
  function AllClear(completedIds: seq<HabitId>, habits: seq<Habit>): (clear: bool)
    ensures clear <==> IsAllDone(|completedIds|, |habits|)
    ensures clear ==> ColorForDay(|completedIds|, |habits|) == Green900
  {
    |completedIds| == |habits| && |habits| > 0
  }
}
