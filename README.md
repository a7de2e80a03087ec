# Habit challenges: a verified model

This is a model of a habit-tracking app. Members form **groups**. A group runs time-boxed
**challenges**, and each challenge is made of day-tasks. Members mark the day's task as done before
the challenge's daily deadline. Missed days turn into **strikes**, and every `threshold` strikes
cost a penalty. A group can be deleted only by consensus.

The app exists in two forms, and the model covers both:

- **The local-first single-page app.** All groups live in one client-side list, and each handler
  rebuilds that list.
  - `Dates`, `Schedule`, `GroupState`, `Penalties`, `ChallengeView` and `ActivityLog` model it.
  - It rests on `AppTypes`, `Lists`, `Text` and `Sorting`.
- **The server.** Express routes run over a relational store.
  - `Store` models the store: one table per model (a sequence of records), the
    `findUnique`/`findFirst`/`findMany` lookups, and the schema's uniqueness constraints.
  - The store is held in one `Db` object, which the writing routes change in place.
  - `AuthRoutes`, `GroupRoutes`, `ChallengeRoutes`, `TaskRoutes` and `AnalyticsRoutes` model one
    route file each.

Modelling conventions:

- **Time.** An instant is local wall-clock milliseconds, with the time zone folded in. So a
  calendar day is `instant / 86400000`, and a time of day is an (hour, minute) pair. The calendar
  fields of a day come from walking whole Gregorian years and then months from 1 January 1970.
- **Parameters.** "Now", "today", random draws and the ids the database generates are all explicit
  parameters.
- **Percentages.** `Math.round(a / b * 100)` is computed on integers as `(200a + b) / (2b)`, and is 0
  when `b` is 0 (`Arith.RoundPercent`).
- **Replies.** A route answers `Fail(status)` or `Ok(status, body)`.
- **Read-only routes** are functions of the tables.
- **Writing routes** are module-level methods that take the `Db` object and change it in place.
  Each one states the whole new table state in terms of the old one, and keeps the schema's
  constraints (`Db.Valid`).

## Model

| member | source | states |
|---|---|---|
| Dates.Midnight | Frontend/App.tsx:101-107 | local midnight lies at or before the instant, within one day, on the same calendar day |
| Dates.TaskDate | Frontend/App.tsx:101-107 | the date of day n is midnight of the start day plus n - 1 days |
| Dates.TaskDateFirstDay | Frontend/App.tsx:101-107 | day 1 of a challenge is its start day |
| Dates.TaskDateNextDay | Frontend/App.tsx:101-107 | each further day number is exactly one calendar day later |
| Dates.TodayAndPastExclusive | Frontend/App.tsx:109-121 | a task is never both due today and in the past; due today iff its day is today, in the past iff its day is before today |
| Dates.DueTodayIsUnique | Frontend/App.tsx:109-114 | at most one day number of a challenge is due on any day |
| Dates.DayNumberIsDayDifference | backend/src/utils/token.ts:20-25 | the day number is the number of calendar days since the start, plus one |
| Dates.DayNumberProperties | backend/src/utils/token.ts:20-25 | the start day is day 1; each later calendar day adds exactly one; days before the start have day numbers of at most 0 |
| Dates.DayNumberAgreesWithTaskDate | backend/src/utils/token.ts:20-25 | the server's day number of a task's date is its day number; a task is due today iff today's day number is its own |
| Dates.DeadlinePassedIffClockAtOrAfter | Frontend/App.tsx:123-134 | for an "HH:MM" deadline, the deadline has passed iff (hour, minute) is at or after it in lexicographic order, the deadline minute itself included |
| Dates.NoDeadlineNeverPassed | backend/src/utils/token.ts:27-38 | with no deadline (absent or empty), the deadline has never passed |
| Dates.ParseLocalDateString | backend/src/utils/token.ts:13-18 | reading back the `YYYY-MM-DD` text of a date gives the date |
| Dates.LocalDateStringShape | Frontend/App.tsx:94-99 | the date text is the year, '-', a two-digit month, '-', a two-digit day |
| Dates.DateKeyParses | src/components/ActivityLogModal.tsx:17-18 | the date key of a task's day, for years 0 and later, reads back as that day's calendar date |
| Dates.VerificationCode | backend/src/utils/token.ts:3-6 | the login code is six decimal digits whose value lies in [100000, 999999] |
| Schedule.NewTask | Frontend/App.tsx:759-764 | a task generated for offset i has day number i + 1 and nobody has completed it |
| Schedule.ScheduledShape | Frontend/App.tsx:759-764 | every generated task has a day number in 1..n, starts uncompleted, and day numbers strictly increase; offset i gets a task iff the frequency includes it |
| Schedule.GenerateTasks | Frontend/App.tsx:759-764 | the loop produces the scheduled tasks: increasing day numbers within the duration, none completed, and one for exactly the included offsets |
| Schedule.DailyTaskCount | Frontend/App.tsx:762 | 'daily' yields one task per day of the challenge |
| Schedule.WeeklyTaskCount | Frontend/App.tsx:762 | 'weekly' yields ceil(n / 7) tasks |
| Schedule.FirstDayIncluded | Frontend/App.tsx:762 | offset 0 always has a task under 'daily' and 'weekly'; under 'weekdays' iff the start day is a weekday; under a custom interval iff the interval is not 0 (the form never produces 0) |
| Schedule.CustomIntervalFromInput | Frontend/App.tsx:779 | the "repeat every" field is always at least 1, and a positive entry is taken as it is |
| Schedule.CustomIntervalIncludesFirstDay | Frontend/App.tsx:762 | a custom schedule always has a task on the first day, whatever was typed |
| Schedule.DurationDays | Frontend/App.tsx:770 | the duration counts the days from start to end inclusive, so it is at least 1 |
| Schedule.ManualSave | Frontend/App.tsx:748-776 | nothing is saved for a blank title or an end before the start; editing keeps the id and tasks of the challenge; a new challenge gets the generated tasks and is active, solo, blue and without delete approvals |
| GroupState.FindGroup | Frontend/App.tsx:945-964 | `find` by id succeeds iff some group has that id, and returns such a group |
| GroupState.ToggleCompletion | Frontend/App.tsx:1069-1085 | flips exactly the user's membership in the task's completers, leaves other users as they were, and sets `isCompleted` to "someone completed it" |
| GroupState.ToggleTask | Frontend/App.tsx:1048-1098 | without a selected group, a known challenge, a task due today and a deadline not yet passed, the state is unchanged; group ids and selection are kept |
| GroupState.ToggleTaskEffect | Frontend/App.tsx:1055-1085 | when the guards pass, only the tasks with that day number in that challenge of the selected group change, by `ToggleCompletion` |
| GroupState.ToggleTaskTwice | Frontend/App.tsx:1048-1098 | the guards still hold after a toggle; from a state where the user has not ticked the targeted tasks (and their flags match their completers), toggling twice restores that state exactly |
| GroupState.ToggleCompletionTwice | Frontend/App.tsx:1069-1085 | two ticks by the same user give back the same set of completers |
| GroupState.NewApprovals | Frontend/App.tsx:991-1007 | a vote toggles the current user's id in the approvals and leaves the other ids as they were |
| GroupState.VoteDeleteOutcome | Frontend/App.tsx:991-1014 | the selected group is removed iff the approvals reach the member count; otherwise only its approvals change; other groups are kept |
| GroupState.VoteDeleteRemoves | Frontend/App.tsx:1001-1011 | once the votes reach the member count, exactly the selected group is removed and the selection is cleared |
| GroupState.VoteDeleteKeeps | Frontend/App.tsx:993-1007 | below the member count only the selected group's approvals change |
| GroupState.VoteTwiceRestoresApprovals | Frontend/App.tsx:991-1007 | withdrawing a vote restores the set of approvals |
| GroupState.Upsert | Frontend/App.tsx:1016-1032 | a saved challenge replaces, in place, the first challenge with its id, or is appended when the id is new; no other challenge is lost |
| GroupState.UpsertKeepsIdsUnique | Frontend/App.tsx:1016-1032 | saving keeps the challenge ids of a group distinct |
| GroupState.SaveChallenge | Frontend/App.tsx:1016-1032 | afterwards the selected group's list finds the saved challenge by its id; every group with another id, the number of groups, the group ids and the current user are unchanged |
| GroupState.DeleteChallenge | Frontend/App.tsx:1034-1046 | afterwards the selected group keeps exactly its challenges with other ids; every group with another id, the number of groups and the current user are unchanged |
| GroupState.RemoveChallengeAbsent | Frontend/App.tsx:1034-1046 | deleting an id that is not there changes nothing |
| GroupState.RemoveChallengeSingle | Frontend/App.tsx:1040 | on one challenge, the filter drops it exactly when it has the id |
| GroupState.RemoveChallengeConcat | Frontend/App.tsx:1040 | the filter works piece by piece, so the challenges that stay keep their order |
| GroupState.SaveThenDelete | Frontend/App.tsx:1016-1046 | creating a challenge and deleting it gives back the original list |
| GroupState.UpdateMember | Frontend/App.tsx:1100-1112 | the selected group's members are patched by `PatchMembers` (only the members with that user id change); every group with another id, the number of groups and the current user are unchanged |
| GroupState.PatchMembersEffect | Frontend/App.tsx:1100-1112 | a member patch changes only the members with that id, and only the fields it carries |
| GroupState.UpdateProfileIsMemberPatch | Frontend/App.tsx:966-978 | the profile update is the member update of the current user with a new name and avatar |
| GroupState.UpdateGroup | Frontend/App.tsx:980-989 | the selected group gets the new name, icon, theme and penalty rule and keeps its id, members, challenges and approvals; every group with another id, the number of groups and the current user are unchanged |
| GroupState.CreateGroup | Frontend/App.tsx:945-964 | one group is appended, whose only member is the creator as admin, named 'Admin', with `AdminAvatar`: the four characters U+F8FF U+00FC U+00EB U+00EB that the source's literal holds (the crown emoji's UTF-8 bytes read as Mac Roman) |
| GroupState.CreatedGroupIsFound | Frontend/App.tsx:945-964 | with a fresh id, the new group is found by its id |
| GroupState.JoinGroup | Frontend/App.tsx:1305-1319 | a user who is already a member, or who has no group selected, changes nothing |
| GroupState.JoinGroupEffect | Frontend/App.tsx:1305-1319 | after joining, the user is a member of the selected group with the given name and avatar and role 'member' |
| Penalties.FloorDiv | Frontend/App.tsx:505 | `Math.floor(a / b)` for either sign of b |
| Penalties.StrikeDown | Frontend/App.tsx:516 | the "-" button lowers strikes by one but never below zero, and touches no other field |
| Penalties.PayReducesPending | Frontend/App.tsx:503-523 | paying settles exactly one pending penalty, and when pay was offered the pending count stays non-negative |
| Penalties.StrikeUpPending | Frontend/App.tsx:503-518 | a new strike never lowers what is owed |
| Penalties.ThresholdFromInput | Frontend/App.tsx:590 | the threshold is the entry when that is a non-zero number, otherwise 3, so it is never 0 |
| Penalties.RuleFromForm | Frontend/App.tsx:590 | there is no penalty rule iff the description is blank; a rule's threshold is never 0 |
| ChallengeView.CompletedCountAppend | Frontend/App.tsx:411-416 | a member's completed count is additive over the task list |
| ChallengeView.ToggleMovesCountByOne | Frontend/App.tsx:1069-1085 | ticking one day's task moves the user's count (as the stats at lines 411-416 compute it) by exactly one and leaves the other members' counts unchanged |
| ChallengeView.StatsAreFor | Frontend/App.tsx:411-416 | each row holds a member's completed count, the task total and the rounded share, which lies in [0, 100] |
| ChallengeView.Leaderboard | Frontend/App.tsx:411-416 | the rows are a permutation of the members' rows, sorted non-increasingly by count, with tied members kept in member order |
| ChallengeView.CardStatusOf | Frontend/App.tsx:1114-1150 | a card is upcoming before day 1, running while the day number lies within the duration (and then its day is due today), and finished after that |
| Arith.RoundPercentBounds | Frontend/App.tsx:411-416 | a share of at most the whole rounds to [0, 100], the whole to 100 and nothing to 0 |
| ActivityLog.CompleterEntries | src/components/ActivityLogModal.tsx:19-22 | the innermost loop yields one entry per completer who is a member, stamped with the given date, in completer order |
| ActivityLog.TaskActivities | src/components/ActivityLogModal.tsx:16-23 | a task nobody completed yields nothing; otherwise its date is computed once and each completer who is a member gets an entry on that date |
| ActivityLog.ChallengeActivities | src/components/ActivityLogModal.tsx:15-24 | the loop over a challenge's tasks yields the entries of each task in turn |
| ActivityLog.Flatten | src/components/ActivityLogModal.tsx:11-25 | the nested loops build the group's entries in challenge, task and completer order |
| ActivityLog.UserEntriesExact | src/components/ActivityLogModal.tsx:19-22 | the entries' member ids are exactly the completers who are members; unknown ids are dropped |
| ActivityLog.EntriesSoundAndComplete | src/components/ActivityLogModal.tsx:11-25 | every entry comes from a completion by a member on that task's date, and every completion by a member has an entry |
| ActivityLog.HasFiltersIff | src/components/ActivityLogModal.tsx:44-45 | some filter is set iff the filters differ from the defaults; cleared filters have none set |
| ActivityLog.KeepKeep | src/components/ActivityLogModal.tsx:27-29 | filtering twice keeps what both conditions keep |
| ActivityLog.KeepCommutes | src/components/ActivityLogModal.tsx:27-29 | the filters can be applied in either order |
| ActivityLog.ApplyFiltersSpec | src/components/ActivityLogModal.tsx:27-29 | the filters keep, in order, exactly the entries matching all three; 'all' or '' is no constraint |
| ActivityLog.FilteredActivities | src/components/ActivityLogModal.tsx:11-32 | the result is a permutation of the filtered entries, sorted newest first, stable on ties, and each one is an entry of the group |
| ActivityLog.GroupByDate | src/components/ActivityLogModal.tsx:34-42 | one bucket per date string present, holding that date's entries in their order |
| ActivityLog.BucketSizesSum | src/components/ActivityLogModal.tsx:34-42 | the bucket sizes add up to the number of entries |
| Sorting.SortDesc | src/components/ActivityLogModal.tsx:31 | the sorted list is a permutation of the input, ordered non-increasingly by key |
| Sorting.SortStable | src/components/ActivityLogModal.tsx:31 | elements with equal keys keep their relative order |
| Store.FindBy | backend/src/routes/tasks.ts:22-28 | a lookup succeeds iff some record has the key, and returns such a record |
| Store.Where | backend/src/routes/tasks.ts:146-154 | `findMany` returns records of the table that satisfy the condition, and all of them; table order is kept, as `Store.WhereAppend`, `Store.WhereNone`, `Store.WhereKeepsAll` and `Store.WhereDropsOne` state |
| Store.WhereAppend | backend/src/routes/tasks.ts:146-154 | `findMany` over a concatenation is the concatenation of the parts' results, so table order is kept |
| Store.WhereNone | backend/src/routes/tasks.ts:146-154 | when no record satisfies the condition, nothing is returned |
| Store.WhereKeepsAll | backend/src/routes/tasks.ts:146-154 | when every record satisfies the condition, the whole table is returned in order |
| Store.WhereDropsOne | backend/src/routes/tasks.ts:146-154 | when exactly one record fails the condition, the table without that record is returned |
| Store.Membership | backend/src/routes/tasks.ts:30-42 | the compound-key lookup finds a membership iff the user belongs to the group |
| Store.OrKeep | backend/src/routes/challenges.ts:214-217 | `v \|\| undefined` keeps the stored field when v is absent or empty, and takes v otherwise |
| AuthRoutes.VerifyCheck | backend/src/routes/auth.ts:12-46 | the code is accepted only when it has six characters, belongs to a user with that telegram id and is at most five minutes old; every failure is 400 |
| AuthRoutes.ExpiryBoundary | backend/src/routes/auth.ts:34-37 | a code exactly five minutes old is accepted and one a millisecond older is not; a code with no sent-at time is expired |
| AuthRoutes.VerifyAccepts | backend/src/routes/auth.ts:22-46 | conversely, the holder of a fresh six-character code is accepted |
| AuthRoutes.VerifyCode | backend/src/routes/auth.ts:18-76 | on success only that user changes: verified, code cleared; on failure nothing changes |
| AuthRoutes.CodeIsSingleUse | backend/src/routes/auth.ts:40-46 | after a successful verification the same code is refused |
| AuthRoutes.PatchProfile | backend/src/routes/auth.ts:128-134 | a falsy field leaves the stored value, any other replaces it; identity and login fields never change |
| AuthRoutes.PatchProfileIdempotent | backend/src/routes/auth.ts:128-134 | an empty patch changes nothing, and applying a patch twice equals applying it once |
| AuthRoutes.UpdateProfile | backend/src/routes/auth.ts:124-150 | the caller's record gets the patch; a missing record gives 500 and no change |
| GroupRoutes.CreateGroup | backend/src/routes/groups.ts:39-85 | invalid input gives 400; otherwise the group, its creator as the only admin member and a penalty rule (only when one was sent) are added, with memberCount 1. A missing icon gives `DefaultIcon`, the three characters U+00E2 U+0153 U+00A8 that the source's literal holds (the sparkles emoji's UTF-8 bytes read as Windows-1252), and a missing theme 'indigo' |
| GroupRoutes.OnlyMemberOfNewGroup | backend/src/routes/groups.ts:49-62 | a freshly created group has exactly one member, the creator |
| GroupRoutes.ListGroups | backend/src/routes/groups.ts:88-123 | one summary per membership of the caller, in membership order |
| GroupRoutes.ListedRows | backend/src/routes/groups.ts:105-116 | each summary is a group of the caller, with its member count (at least 1), its number of active challenges and the caller's role |
| GroupRoutes.ListedOnce | backend/src/routes/groups.ts:105-116 | no group is listed twice, and every group the caller belongs to is listed |
| GroupRoutes.GroupDetails | backend/src/routes/groups.ts:126-172 | a non-member gets 403; a member gets 404 for a missing group; otherwise the group, its members, and its penalty rule, which is absent iff no rule belongs to the group |
| GroupRoutes.MemberSeesDetails | backend/src/routes/groups.ts:140-164 | with the tables consistent, a member always gets the details |
| GroupRoutes.GroupMembers | backend/src/routes/groups.ts:289-325 | a non-member gets 403; a member gets the members of the group |
| GroupRoutes.UpsertPenaltyEffect | backend/src/routes/groups.ts:202-210 | the group's rule is replaced, or added when it had none; other groups' rules stay |
| GroupRoutes.PenaltiesReferAfterUpsert | backend/src/routes/groups.ts:202-210 | after the upsert every rule still belongs to an existing group |
| GroupRoutes.UpdateGroup | backend/src/routes/groups.ts:175-222 | invalid input gives 400, a non-admin 403, a missing group 500; otherwise the patched group and the upserted rule |
| GroupRoutes.AddMemberStatus | backend/src/routes/groups.ts:240-275 | 400 for a bad display name, 403 for a non-member caller, 404 for an unknown user, 400 for an existing member, else 201 |
| GroupRoutes.AddMember | backend/src/routes/groups.ts:225-286 | on 201 exactly one membership is appended; (group, user) stays unique |
| GroupRoutes.AddMemberTwiceRefused | backend/src/routes/groups.ts:255-261 | adding the same user again is refused with 400 |
| ChallengeRoutes.NewChallenge | backend/src/routes/challenges.ts:50-63 | a stored challenge is 'active', with color 'indigo', mode 'solo' and frequency 'daily' defaulted |
| ChallengeRoutes.NewTasks | backend/src/routes/challenges.ts:64-70 | one stored task per task of the request, carrying its day number, title and description |
| ChallengeRoutes.CreateChallenge | backend/src/routes/challenges.ts:11-91 | invalid input gives 400 and a non-member 403; otherwise the challenge and exactly its tasks are added, with taskCount = number of tasks sent |
| ChallengeRoutes.ListChallenges | backend/src/routes/challenges.ts:94-134 | a non-member gets 403; otherwise a permutation of the group's challenges, newest first |
| ChallengeRoutes.ChallengeGate | backend/src/routes/challenges.ts:141-173 | a missing challenge gives 404; passing needs membership of the challenge's group |
| ChallengeRoutes.ChallengeGateIff | backend/src/routes/challenges.ts:141-173 | with unique ids, a caller passes iff they are a member of the challenge's group |
| ChallengeRoutes.ChallengeDetails | backend/src/routes/challenges.ts:137-181 | a gated caller gets the challenge and exactly its tasks |
| ChallengeRoutes.PatchChallenge | backend/src/routes/challenges.ts:211-219 | a falsy title, description, status or deadline leaves that field; start date, duration, frequency and the rest never change |
| ChallengeRoutes.FalsyPatchIsIdentity | backend/src/routes/challenges.ts:211-219 | an update with only falsy fields changes nothing |
| ChallengeRoutes.UpdateChallenge | backend/src/routes/challenges.ts:184-227 | the 404 and 403 gates, then only that challenge is patched; tasks are not touched |
| ChallengeRoutes.DeleteChallenge | backend/src/routes/challenges.ts:230-266 | the 404 and 403 gates, then exactly that challenge is removed |
| TaskRoutes.CompleteCheckAsWritten | backend/src/routes/tasks.ts:22-65 | the checks as written: 404, 403, 404, 400 in that order |
| TaskRoutes.AsWrittenAcceptsForeignTask | backend/src/routes/tasks.ts:44-51 | the checks as written accept a task of a challenge in another group |
| TaskRoutes.CompleteCheck | backend/src/routes/tasks.ts:22-65 | a passing check names the challenge, the caller's membership of its group, a task of that challenge, and no earlier completion by that member |
| TaskRoutes.CompleteCheckAccepts | backend/src/routes/tasks.ts:22-65 | conversely, a member's first completion of a task of the challenge passes |
| TaskRoutes.CompletionStaysInCallersGroup | backend/src/routes/tasks.ts:44-51 | a completion is always of a task in a group the caller belongs to |
| TaskRoutes.RecipientsAreOthers | backend/src/routes/tasks.ts:96-107 | the users to notify are exactly the group's members other than the completer |
| TaskRoutes.Announce | backend/src/routes/tasks.ts:96-107 | the notification loop collects, in member order, every group member's user id but the completer's |
| TaskRoutes.CompletionKeepsConsistent | backend/src/routes/tasks.ts:68-91 | adding the accepted completion and its log entry under fresh ids keeps ids and (task, member) pairs unique |
| TaskRoutes.CompleteTask | backend/src/routes/tasks.ts:18-118 | runs the corrected check (`CompleteCheck`): on the input of the first Findings row it answers 404 where the code as written answers 201. On failure nothing changes; on success exactly one completion and one 'task_completed' log entry are added, and every other member is to be notified |
| TaskRoutes.SecondCompletionRefused | backend/src/routes/tasks.ts:54-65 | a second completion of the same task by the same member is refused with 400 |
| TaskRoutes.MyCompletions | backend/src/routes/tasks.ts:121-162 | 200 iff the challenge exists and the caller is a member of its group, then the caller's completions in that challenge and no others; 404 for a missing challenge |
| TaskRoutes.MyCompletionsAccepts | backend/src/routes/tasks.ts:121-162 | with consistent tables, a member of the challenge's group gets 200 with exactly their completions in that challenge |
| TaskRoutes.TaskCompletions | backend/src/routes/tasks.ts:165-209 | a member of the task's group gets exactly the task's completions; 500 exactly when the task exists but its challenge row does not; every failure is 403, 404 or 500 |
| TaskRoutes.TaskCompletionsAccepts | backend/src/routes/tasks.ts:165-209 | with consistent tables, a member of the task's group gets 200 with exactly the task's completions |
| TaskRoutes.TaskCompletionsMissingChallenge | backend/src/routes/tasks.ts:165-209 | a task whose challenge row is missing gives 500 |
| TaskRoutes.UndoCheck | backend/src/routes/tasks.ts:228-241 | 404 for a missing completion; passing holds iff the completion's member row exists and belongs to the caller |
| TaskRoutes.UndoAcceptsOwner | backend/src/routes/tasks.ts:228-241 | with consistent tables, the owner of a completion passes the checks and gets that completion |
| TaskRoutes.UndoIsOwnerOnly | backend/src/routes/tasks.ts:235-237 | another member's completion is never removed |
| TaskRoutes.UndoCompletion | backend/src/routes/tasks.ts:212-247 | after the checks, exactly that completion is removed |
| AnalyticsRoutes.DoneCountExtremes | backend/src/routes/analytics.ts:58-66 | a member who completed every task, or none, is counted so |
| AnalyticsRoutes.DoneCountAppend | backend/src/routes/analytics.ts:58-66 | the completed count is additive over the task list |
| AnalyticsRoutes.ChallengeTasks | backend/src/routes/analytics.ts:58-59 | the tasks walked through are exactly the tasks of the group's challenges |
| AnalyticsRoutes.CountTasks | backend/src/routes/analytics.ts:59-65 | the innermost loop counts every task, and the tasks the member completed |
| AnalyticsRoutes.CountChallenges | backend/src/routes/analytics.ts:58-66 | across the challenges: all of the group's tasks, and the ones the member completed |
| AnalyticsRoutes.CountMembers | backend/src/routes/analytics.ts:52-77 | the `totalTasks` accumulator is members × tasks, `completedTasks` is the sum of the members' counts, one row per member |
| AnalyticsRoutes.SumDoneBounded | backend/src/routes/analytics.ts:52-66 | the completions counted never exceed members × tasks |
| AnalyticsRoutes.GroupStats | backend/src/routes/analytics.ts:9-98 | 403 for a non-member, then 404 for a missing group; the reported task count is the group's tasks; the rate lies in [0, 100] and is 0 with no tasks; the leaderboard is sorted by tasks completed and is a permutation of the members' rows, each at most the task count |
| AnalyticsRoutes.MemberRateBounded | backend/src/routes/analytics.ts:75 | a member's rate stays within 100 while the tasks number at most seven per challenge |
| AnalyticsRoutes.MemberRateCanExceed100 | backend/src/routes/analytics.ts:75 | beyond that the rate exceeds 100: eight tasks completed in one challenge give 114 |
| AnalyticsRoutes.Window | backend/src/routes/analytics.ts:184-185 | skip `offset` and take at most `limit`: the entries from position offset on |
| AnalyticsRoutes.WindowsConcat | backend/src/routes/analytics.ts:184-185 | consecutive pages fit together without gap or overlap |
| AnalyticsRoutes.ActivityPage | backend/src/routes/analytics.ts:160-205 | 403 for a non-member; otherwise at most `limit` entries of the group's log, newest first, from position `offset`, and the size of the whole log; without query values the first 50 entries |
| AnalyticsRoutes.ProgressOf | backend/src/routes/analytics.ts:252-261 | a task's entry counts its completions and lists each completer |
| AnalyticsRoutes.ChallengeProgress | backend/src/routes/analytics.ts:208-289 | corrected definition, which counts the group's members: the 404 and 403 gates; the completions summed over the tasks; the possible count tasks × members; the percentage 0 with no tasks |
| AnalyticsRoutes.CompletionsPerTask | backend/src/routes/analytics.ts:259 | a task has no more completions than the group has members, when its completers are members |
| AnalyticsRoutes.ProgressAtMost100 | backend/src/routes/analytics.ts:263-266 | for the corrected route: when the completers are current members, the percentage lies in [0, 100] |
| AnalyticsRoutes.ChallengeProgressAsWritten | backend/src/routes/analytics.ts:208-289 | the route as written: the 404 and 403 gates, and after them always 500 |
| AnalyticsRoutes.AsWrittenProgressFailsMembers | backend/src/routes/analytics.ts:212-287 | with consistent tables, a member of the challenge's group gets 200 from the corrected route and 500 from the route as written |

## Left out

- Telegram bot, server start-up, webhook, the auth middleware and the JWT issued on verification: network and crypto glue. `AuthRoutes.VerifyCode` returns the verified user in place of the token.
- Error formatting: Zod validation failures are modelled as the 400 they produce.
- Browser side effects: localStorage, cross-tab sync, timers, the browser notifications and their per-day de-duplication, and confetti. The motivational-message fetch fired by the toggle is left out as well.
- Sending the Telegram notifications: `TaskRoutes.CompleteTask` returns the list of users to notify. A failed notification cannot fail the request, so leaving the sending out loses nothing.
- Random ids and the random draw of the login code are parameters. The code is modelled from the drawn integer on (`Dates.VerificationCode`).
- Locale texts, time zones and daylight saving time: every day is 86 400 000 ms. This also hides the difference between `setDate` in `getTaskDate` and the `i * 86400000` step of task generation.
- Floating point: percentages are integer rounding. The JavaScript `NaN || 0` case is modelled as 0 when the denominator is 0.
- Cascading deletes are not modelled: the schema is not part of this model. `ChallengeRoutes.DeleteChallenge` removes the challenge row only.
- Dangling relations. The records that the routes join through are looked up in the tables:
  - a completion whose member row is missing is treated as not the caller's (403 in undo);
  - a task whose challenge row is missing gives 500 in task completions.
- `GroupRoutes.AddedMember`: the role of an added member is taken to be "member". That is the schema's default, and the schema is not part of this model.
- Numbers in request bodies are integers in the model. Zod's `z.number()` also admits fractions, and a fractional value is not modelled for the penalty threshold (groups.ts), nor for a challenge's `durationDays`, `customFrequencyDays` and task `dayNumber` (challenges.ts:17, 22 and 24).
- `ChallengeRoutes.CreateChallenge`: the start date arrives as an instant. The `z.string().datetime()` check at challenges.ts:16, and the 400 it gives for malformed date text, is not modelled.
- String lengths: Zod's `.min` and `.max` count UTF-16 code units, and the model counts characters (groups.ts:11, 22 and 34; challenges.ts:13). A name of 50 characters that need two code units each passes here and is refused there.
- Nested `include`s: the routes answer with their own rows only. The joined records are not modelled:
  - the challenge list's tasks with their completions' member ids and times (challenges.ts:111-126);
  - the challenge details' group, and the member of each task completion (challenges.ts:141-155); the tasks themselves are modelled;
  - the users' username, first name and photo beside the members in group details and the member list (groups.ts:146-159 and 306-317);
  - the task beside each of the caller's completions (tasks.ts:151-153), and the member's display name and avatar beside a task's completions (tasks.ts:191-201);
  - the challenge beside each activity entry (analytics.ts:178-182).
- Untyped request bodies: PUT /challenges/:id and PUT /profile read `req.body` fields without a schema. The model takes them to be strings; a value of another type, and the database error (500) it causes, is not modelled.
- `ActivityLog.GroupByDate` returns a map from date string to bucket. The insertion order of the buckets (the object's key order) is not kept.
- `GroupState.ToggleTaskTwice`: the state is restored exactly only from a state where the user had not ticked the targeted tasks. From a ticked state, the completers come back only as the same set: [u, v] becomes [v, u] after u unticks and ticks again (`GroupState.ToggleCompletionTwice`).
- `GroupState.RemoveChallenge`: that the removed id is gone is stated by `GroupState.RemoveChallengeDropsId`, not by the function's own contract.
- `AnalyticsRoutes.ActivityPage`: a missing `limit` or `offset` takes the defaults 50 and 0, and a given one is taken as the natural that `parseInt` produced. Non-numeric or negative query values, and the 500 they lead to, are not modelled.
- `AnalyticsRoutes.ProgressOf`: completers are given by member id. The join to their display names is not modelled.
- `AnalyticsRoutes.GroupStats`: the database's order of members and of challenges is taken to be table order.
- The user statistics and `/me` routes of the analytics and auth files are not part of this model.
- UI shells, the HTTP client, the AI service calls and the configuration are not part of this model.

## Findings

| source | as written | input that shows it | evidently intended | confidence | as-written member | corrected member |
|---|---|---|---|---|---|---|
| backend/src/routes/tasks.ts:44-51 | the task is looked up by id only; it is never checked to belong to the challenge named in the request, whose group gave the membership | caller u1 is a member of g1 only; `challengeId` is c1 (group g1); `taskId` is t2, a task of c2 in group g2. The request is accepted and records a completion of g2's task | the task must belong to the named challenge (404 otherwise), so a completion stays within a group of the caller | not executed | TaskRoutes.AsWrittenAcceptsForeignTask | TaskRoutes.CompletionStaysInCallersGroup |
| backend/src/routes/analytics.ts:212-287 | the challenge is loaded with `include: { group: true }`, which carries no members, so reading `challenge.group.members.length` (lines 265 and 279) throws after the 404 and 403 gates, and the catch answers 500 | any member of the challenge's group asks for the challenge's progress, with consistent tables | load the group's members (`include: { group: { include: { members: true } } }`) and answer 200 with the progress, whose percentage lies in [0, 100] | not executed | AnalyticsRoutes.AsWrittenProgressFailsMembers | AnalyticsRoutes.ChallengeProgress |
