/** Which day-tasks a new challenge gets: the loop of the challenge form's
    save handler, run once when the challenge is created (editing never
    regenerates tasks). */
module Schedule {
  import opened Wrappers
  import opened Text
  import Dates
  import opened AppTypes

  /** Whether day offset i (0-based) of a challenge starting on local day
      startDay gets a task. A custom interval of 0 makes `i % 0` NaN, which
      never equals 0. */
  predicate Included(frequency: Frequency, customDays: int, startDay: int, i: int) {
    match frequency
    case Daily => true
    case TwoDays => i % 2 == 0
    case ThreeDays => i % 3 == 0
    case Weekly => i % 7 == 0
    case Weekdays => var w := Dates.Weekday(startDay + i); w != 0 && w != 6
    case Custom => customDays != 0 && i % customDays == 0
  }

  /** The task generated for offset i. */
  function NewTask(i: nat): (t: DayTask)
    ensures t.dayNumber == i + 1 && CompletedBy(t) == [] && t.isCompleted == Some(false)
  {
    DayTask(i + 1, "Day " + NatToString(i + 1), Some("Complete your daily goal."), Some(false), Some([]))
  }

  /** The tasks for the offsets below n that `inc` picks, in offset order. */
  function Pick(inc: int -> bool, n: nat): seq<DayTask>
  {
    if n == 0 then []
    else Pick(inc, n - 1) + (if inc(n - 1) then [NewTask(n - 1)] else [])
  }

  /** Included, as the predicate on offsets that `Pick` takes. */
  function Inclusion(frequency: Frequency, customDays: int, startDay: int): int -> bool {
    i => Included(frequency, customDays, startDay, i)
  }

  /** The tasks for the first n offsets under a frequency. */
  function Scheduled(frequency: Frequency, customDays: int, startDay: int, n: nat): seq<DayTask>
  {
    Pick(Inclusion(frequency, customDays, startDay), n)
  }

  /** The list below n + 1 is the list below n, then the task for offset n
      when it is picked. */
  lemma PickStep(inc: int -> bool, n: nat)
    ensures Pick(inc, n + 1) == Pick(inc, n) + (if inc(n) then [NewTask(n)] else [])
    ensures forall j :: 0 <= j < |Pick(inc, n)| ==> Pick(inc, n + 1)[j] == Pick(inc, n)[j]
  {
  }

  /** Every picked task has its day number in 1..n and starts with nobody
      having completed it. */
  lemma {:induction false} PickFresh(inc: int -> bool, n: nat)
    ensures forall j :: 0 <= j < |Pick(inc, n)| ==>
      1 <= Pick(inc, n)[j].dayNumber <= n && CompletedBy(Pick(inc, n)[j]) == [] && Pick(inc, n)[j].isCompleted == Some(false)
  {
    if n > 0 {
      PickFresh(inc, n - 1);
      PickStep(inc, n - 1);
    }
  }

  /** Day numbers strictly increase along the list. */
  lemma {:induction false} PickIncreasing(inc: int -> bool, n: nat)
    ensures forall j, k :: 0 <= j < k < |Pick(inc, n)| ==> Pick(inc, n)[j].dayNumber < Pick(inc, n)[k].dayNumber
  {
    if n > 0 {
      var prev, ts := Pick(inc, n - 1), Pick(inc, n);
      PickIncreasing(inc, n - 1);
      PickFresh(inc, n - 1);
      PickStep(inc, n - 1);
      forall j, k | 0 <= j < k < |ts| ensures ts[j].dayNumber < ts[k].dayNumber {
        if k < |prev| {
          assert ts[j] == prev[j] && ts[k] == prev[k];
        } else {
          assert ts[j] == prev[j] && ts[k] == NewTask(n - 1);
        }
      }
    }
  }

  /** A listed task is for a picked offset. */
  lemma {:induction false} PickSound(inc: int -> bool, n: nat, j: nat)
    requires j < |Pick(inc, n)|
    ensures inc(Pick(inc, n)[j].dayNumber - 1)
  {
    PickStep(inc, n - 1);
    if j < |Pick(inc, n - 1)| {
      PickSound(inc, n - 1, j);
    }
  }

  /** A picked offset below n has its task in the list. */
  lemma {:induction false} PickComplete(inc: int -> bool, n: nat, i: nat)
    requires i < n && inc(i)
    ensures exists j :: 0 <= j < |Pick(inc, n)| && Pick(inc, n)[j].dayNumber == i + 1
  {
    PickStep(inc, n - 1);
    if i < n - 1 {
      PickComplete(inc, n - 1, i);
      var j :| 0 <= j < |Pick(inc, n - 1)| && Pick(inc, n - 1)[j].dayNumber == i + 1;
      assert Pick(inc, n)[j] == Pick(inc, n - 1)[j];
    } else {
      assert Pick(inc, n)[|Pick(inc, n - 1)|] == NewTask(n - 1);
    }
  }

  /** Offset i below n has a task exactly when it is picked. */
  lemma PickCoversAt(inc: int -> bool, n: nat, i: nat)
    requires i < n
    ensures inc(i) <==> exists j :: 0 <= j < |Pick(inc, n)| && Pick(inc, n)[j].dayNumber == i + 1
  {
    if inc(i) {
      PickComplete(inc, n, i);
    }
    if exists j :: 0 <= j < |Pick(inc, n)| && Pick(inc, n)[j].dayNumber == i + 1 {
      var j :| 0 <= j < |Pick(inc, n)| && Pick(inc, n)[j].dayNumber == i + 1;
      PickSound(inc, n, j);
    }
  }

  /** Every scheduled task: its day number is in 1..n, it starts with
      nobody having completed it, day numbers strictly increase along the
      list, and offset i has a task exactly when the frequency includes it. */
  lemma ScheduledShape(frequency: Frequency, customDays: int, startDay: int, n: nat)
    ensures var ts := Scheduled(frequency, customDays, startDay, n);
      (forall j :: 0 <= j < |ts| ==> 1 <= ts[j].dayNumber <= n && CompletedBy(ts[j]) == [] && ts[j].isCompleted == Some(false)) &&
      (forall j, k :: 0 <= j < k < |ts| ==> ts[j].dayNumber < ts[k].dayNumber) &&
      (forall i :: 0 <= i < n ==> (Included(frequency, customDays, startDay, i) <==> exists j :: 0 <= j < |ts| && ts[j].dayNumber == i + 1))
  {
    var inc := Inclusion(frequency, customDays, startDay);
    PickFresh(inc, n);
    PickIncreasing(inc, n);
    forall i | 0 <= i < n
      ensures inc(i) <==> exists j :: 0 <= j < |Pick(inc, n)| && Pick(inc, n)[j].dayNumber == i + 1
    {
      PickCoversAt(inc, n, i);
    }
    assert forall i :: inc(i) == Included(frequency, customDays, startDay, i);
  }

  /** 'daily' gives one task per day of the challenge. */
  lemma {:induction false} DailyTaskCount(customDays: int, startDay: int, n: nat)
    ensures |Scheduled(Daily, customDays, startDay, n)| == n
  {
    if n > 0 { DailyTaskCount(customDays, startDay, n - 1); }
  }

  /** 'weekly' gives ceil(n / 7) tasks. */
  lemma {:induction false} WeeklyTaskCount(customDays: int, startDay: int, n: nat)
    ensures |Scheduled(Weekly, customDays, startDay, n)| == (n + 6) / 7
  {
    if n > 0 { WeeklyTaskCount(customDays, startDay, n - 1); }
  }

  /** Offset 0 (day 1) always has a task, except under 'weekdays' when the
      start day is a Saturday or Sunday, and under a custom interval of 0. */
  lemma FirstDayIncluded(frequency: Frequency, customDays: int, startDay: int)
    ensures Included(frequency, customDays, startDay, 0) <==>
      match frequency
      case Weekdays => Dates.Weekday(startDay) != 0 && Dates.Weekday(startDay) != 6
      case Custom => customDays != 0
      case _ => true
  {
  }

  /** The "repeat every" field: `Math.max(1, parseInt(value) || 1)`, where
      `parsed` is what `parseInt` makes of the field (None for NaN). */
  function CustomIntervalFromInput(parsed: Option<int>): (k: int)
    ensures k >= 1
    ensures parsed.Some? && parsed.value >= 1 ==> k == parsed.value
  {
    var v := if parsed.None? || parsed.value == 0 then 1 else parsed.value;
    if v < 1 then 1 else v
  }

  /** An interval taken from the form always gives the challenge its first
      day. */
  lemma CustomIntervalIncludesFirstDay(parsed: Option<int>, startDay: int)
    ensures Included(Custom, CustomIntervalFromInput(parsed), startDay, 0)
  {
  }

  /** The loop of the save handler: for each offset i in [0, durationDays)
      push task i + 1 when the frequency includes i. */
  method GenerateTasks(frequency: Frequency, customDays: int, startDay: int, durationDays: int)
    returns (tasks: seq<DayTask>)
    ensures tasks == Scheduled(frequency, customDays, startDay, if durationDays < 0 then 0 else durationDays)
    ensures forall j :: 0 <= j < |tasks| ==> 1 <= tasks[j].dayNumber <= durationDays && CompletedBy(tasks[j]) == []
    ensures forall j, k :: 0 <= j < k < |tasks| ==> tasks[j].dayNumber < tasks[k].dayNumber
    ensures forall i :: 0 <= i < durationDays ==>
      (Included(frequency, customDays, startDay, i) <==> exists j :: 0 <= j < |tasks| && tasks[j].dayNumber == i + 1)
  {
    tasks := [];
    var i := 0;
    while i < durationDays
      invariant 0 <= i && (if durationDays < 0 then i == 0 else i <= durationDays)
      invariant tasks == Scheduled(frequency, customDays, startDay, i)
    {
      if Included(frequency, customDays, startDay, i) {
        tasks := tasks + [NewTask(i)];
      }
      i := i + 1;
    }
    ScheduledShape(frequency, customDays, startDay, i);
  }

  /** What the challenge form holds when it is saved. Start and end are the
      local days picked in the two date inputs. */
  datatype ChallengeForm = ChallengeForm(
    title: string,
    description: string,
    category: Category,
    deadline: string,
    startDay: int,
    endDay: int,
    frequency: Frequency,
    customFreqDays: int)

  /** The number of days from start to end inclusive:
      `Math.ceil(|end - start| / msPerDay) + 1`. */
  function DurationDays(startDay: int, endDay: int): (d: int)
    requires startDay <= endDay
    ensures d >= 1 && startDay + d - 1 == endDay
  {
    endDay - startDay + 1
  }

  /** `handleManualSave`: nothing is saved for a blank title or an end day
      before the start day. Editing keeps the challenge's tasks, id, group,
      colour, mode and status and replaces the form's fields; creating
      generates the tasks from the frequency and marks the new challenge
      active, solo, blue and without delete approvals. */
  method ManualSave(form: ChallengeForm, editing: Option<Challenge>, groupId: string, newId: string, now: int)
    returns (saved: Option<Challenge>)
    ensures saved.None? <==> IsBlank(form.title) || form.endDay < form.startDay
    ensures saved.Some? ==>
      var c := saved.value;
      && c.title == form.title && c.description == form.description && c.category == form.category
      && c.startDate == form.startDay * Dates.MsPerDay
      && c.durationDays == form.endDay - form.startDay + 1
      && c.deadlineTime == (if form.deadline == "" then None else Some(form.deadline))
      && c.frequency == Some(form.frequency)
      && c.customFrequencyDays == (if form.frequency == Custom then Some(form.customFreqDays) else None)
    ensures saved.Some? && editing.Some? ==>
      var c, e := saved.value, editing.value;
      && c.tasks == e.tasks && c.id == e.id && c.groupId == e.groupId && c.createdAt == e.createdAt
      && c.color == e.color && c.mode == e.mode && c.status == e.status
      && c.deleteApprovals == Some(e.deleteApprovals.GetOr([]))
    ensures saved.Some? && editing.None? ==>
      var c := saved.value;
      && c.tasks == Scheduled(form.frequency, form.customFreqDays, form.startDay, c.durationDays)
      && c.id == newId && c.groupId == groupId && c.createdAt == now
      && c.color == "blue" && c.mode == Solo && c.status == Some(Active) && c.deleteApprovals == Some([])
  {
    if IsBlank(form.title) || form.endDay < form.startDay {
      return None;
    }
    var duration := DurationDays(form.startDay, form.endDay);
    var deadline := if form.deadline == "" then None else Some(form.deadline);
    var custom := if form.frequency == Custom then Some(form.customFreqDays) else None;
    var startDate := form.startDay * Dates.MsPerDay;
    match editing {
      case Some(e) =>
        saved := Some(e.(title := form.title, description := form.description, category := form.category,
          deleteApprovals := Some(e.deleteApprovals.GetOr([])), deadlineTime := deadline,
          startDate := startDate, durationDays := duration, frequency := Some(form.frequency),
          customFrequencyDays := custom));
      case None =>
        var tasks := GenerateTasks(form.frequency, form.customFreqDays, form.startDay, duration);
        saved := Some(Challenge(newId, groupId, form.title, form.description, form.category, startDate,
          duration, tasks, "blue", now, Solo, Some(Active), Some([]), deadline, Some(form.frequency), custom));
    }
  }
}
