/** The task routes: completing a task, listing one's completions, listing a
    task's completions and undoing a completion. */
module TaskRoutes {
  import opened Wrappers
  import opened Dates
  import opened Store

  /** What a completion request has found once its checks have passed. */
  datatype Completing = Completing(challenge: ChallengeRow, membership: MemberRow, task: TaskRow)

  /** The checks of the complete route as they are written: the challenge
      (404), the caller's membership of its group (403), the task (404), and
      no earlier completion of the task by that membership (400). */
  function CompleteCheckAsWritten(t: Tables, callerId: Id, taskId: Id, challengeId: Id): (r: Reply<Completing>)
    ensures r.Ok? ==> (r.status == 201 && r.body.challenge.id == challengeId && r.body.task.id == taskId &&
      r.body.membership.groupId == r.body.challenge.groupId && r.body.membership.userId == callerId)
  {
    match FindBy(t.challenges, ChallengeKey, challengeId)
    case None => Fail(404)
    case Some(c) =>
      match Membership(t.members, c.groupId, callerId)
      case None => Fail(403)
      case Some(m) =>
        match FindBy(t.tasks, TaskKey, taskId)
        case None => Fail(404)
        case Some(task) =>
          if FindBy(t.completions, CompletionPairKey, (taskId, m.id)).Some? then Fail(400)
          else Ok(201, Completing(c, m, task))
  }

  /** The as-written checks accept a task of another group's challenge: the
      caller is a member of the group of the challenge named in the request
      only, and the task's own challenge lies in a group the caller is not in. */
  lemma AsWrittenAcceptsForeignTask()
    ensures var t := ForeignTaskTables();
      CompleteCheckAsWritten(t, "u1", "t2", "c1").Ok? &&
      !IsMemberOf(t.members, t.challenges[1].groupId, "u1") && t.tasks[0].challengeId == t.challenges[1].id
  {
    var t := ForeignTaskTables();
    assert t.challenges[0].id == "c1" && t.members[0].groupId == "g1";
    assert MembershipKey(t.members[0]) == ("g1", "u1");
    assert t.tasks[0].id == "t2";
  }

  /** Two groups with one challenge each; the only member, u1, belongs to g1;
      the only task, t2, belongs to g2's challenge c2. */
  function ForeignTaskTables(): (t: Tables)
    ensures Consistent(t)
  {
    var g1 := GroupRow("g1", "one", None, "*", "indigo", "u1", 0);
    var g2 := GroupRow("g2", "two", None, "*", "indigo", "u2", 0);
    var c1 := ChallengeRow("c1", "g1", "c", None, "OTHER", 0, 7, "indigo", "solo", None, "daily", None, "active", 0);
    var c2 := ChallengeRow("c2", "g2", "c", None, "OTHER", 0, 7, "indigo", "solo", None, "daily", None, "active", 0);
    var m1 := MemberRow("m1", "g1", "u1", "You", None, "admin", 0, 0, 0);
    var task := TaskRow("t2", "c2", 1, "Day 1", None);
    assert GroupKey([g1, g2][0]) in Keys([g1, g2], GroupKey);
    Tables([], [g1, g2], [], [m1], [c1, c2], [task], [], [])
  }

  /** The checks with the task also required to belong to the challenge named
      in the request (404 otherwise); this is what the model of the route
      uses. */
  function CompleteCheck(t: Tables, callerId: Id, taskId: Id, challengeId: Id): (r: Reply<Completing>)
    ensures r.Fail? ==> r.status in {400, 403, 404}
    ensures FindBy(t.challenges, ChallengeKey, challengeId).None? ==> r == Fail(404)
    ensures r.Ok? ==> (r.status == 201 && r.body.challenge in t.challenges && r.body.challenge.id == challengeId &&
      IsMemberOf(t.members, r.body.challenge.groupId, callerId) &&
      r.body.membership == Membership(t.members, r.body.challenge.groupId, callerId).value &&
      r.body.task in t.tasks && r.body.task.id == taskId && r.body.task.challengeId == challengeId &&
      FindBy(t.completions, CompletionPairKey, (taskId, r.body.membership.id)).None?)
  {
    match FindBy(t.challenges, ChallengeKey, challengeId)
    case None => Fail(404)
    case Some(c) =>
      match Membership(t.members, c.groupId, callerId)
      case None => Fail(403)
      case Some(m) =>
        match FindBy(t.tasks, TaskKey, taskId)
        case None => Fail(404)
        case Some(task) =>
          if task.challengeId != challengeId then Fail(404)
          else if FindBy(t.completions, CompletionPairKey, (taskId, m.id)).Some? then Fail(400)
          else Ok(201, Completing(c, m, task))
  }

  /** Conversely, in a consistent store a member who has not yet completed a
      task of a challenge of the group is let through. */
  lemma CompleteCheckAccepts(t: Tables, callerId: Id, c: ChallengeRow, task: TaskRow, m: MemberRow)
    requires Consistent(t)
    requires c in t.challenges && task in t.tasks && task.challengeId == c.id
    requires m in t.members && m.groupId == c.groupId && m.userId == callerId
    requires (task.id, m.id) !in Keys(t.completions, CompletionPairKey)
    ensures CompleteCheck(t, callerId, task.id, c.id) == Ok(201, Completing(c, m, task))
  {
    var i :| 0 <= i < |t.challenges| && t.challenges[i] == c;
    FindUniqueBy(t.challenges, ChallengeKey, i);
    assert FindBy(t.challenges, ChallengeKey, c.id) == Some(c);
    var j :| 0 <= j < |t.members| && t.members[j] == m;
    FindUniqueBy(t.members, MembershipKey, j);
    assert Membership(t.members, c.groupId, callerId) == Some(m);
    var k :| 0 <= k < |t.tasks| && t.tasks[k] == task;
    FindUniqueBy(t.tasks, TaskKey, k);
    assert FindBy(t.tasks, TaskKey, task.id) == Some(task);
    forall l | 0 <= l < |t.completions| ensures CompletionPairKey(t.completions[l]) != (task.id, m.id) {
      assert CompletionPairKey(t.completions[l]) in Keys(t.completions, CompletionPairKey);
    }
    assert FindBy(t.completions, CompletionPairKey, (task.id, m.id)) == None;
  }

  /** With the check in place a completion always stays within a group the
      completer belongs to. */
  lemma CompletionStaysInCallersGroup(t: Tables, callerId: Id, taskId: Id, challengeId: Id)
    requires CompleteCheck(t, callerId, taskId, challengeId).Ok?
    ensures var b := CompleteCheck(t, callerId, taskId, challengeId).body;
      exists c :: c in t.challenges && c.id == b.task.challengeId && IsMemberOf(t.members, c.groupId, callerId)
  {
    var b := CompleteCheck(t, callerId, taskId, challengeId).body;
    assert b.challenge in t.challenges && IsMemberOf(t.members, b.challenge.groupId, callerId);
  }

  function NewCompletion(b: Completing, callerId: Id, proofUrl: Option<string>, notes: Option<string>, id: Id, now: Instant): CompletionRow {
    CompletionRow(id, b.task.id, b.challenge.id, b.membership.id, callerId, proofUrl, notes, now)
  }

  function CompletedLog(b: Completing, id: Id, now: Instant): LogRow {
    LogRow(id, b.challenge.groupId, b.challenge.id, b.membership.id, "task_completed",
      b.membership.displayName + " completed: " + b.task.title, now)
  }

  /** The user ids a completion is announced to: every member of the list
      but the completer, in list order. */
  function Recipients(members: seq<MemberRow>, callerId: Id): seq<Id>
    decreases |members|
  {
    if members == [] then []
    else
      var last := members[|members| - 1];
      Recipients(members[..|members| - 1], callerId) + (if last.userId != callerId then [last.userId] else [])
  }

  function UserIds(members: seq<MemberRow>): set<Id> {
    set m | m in members :: m.userId
  }

  lemma {:induction false} RecipientsAreOthers(members: seq<MemberRow>, callerId: Id)
    ensures forall u :: u in Recipients(members, callerId) <==> u != callerId && u in UserIds(members)
    decreases |members|
  {
    if members != [] {
      var init, last := members[..|members| - 1], members[|members| - 1];
      RecipientsAreOthers(init, callerId);
      assert members == init + [last];
      assert UserIds(members) == UserIds(init) + {last.userId};
    }
  }

  /** POST /complete. The completion and its activity entry are written, and
      each other group member is to be notified (the notifications
      themselves, which cannot fail the request, are left to the caller). */
  method CompleteTask(db: Db, callerId: Id, taskId: Id, challengeId: Id, proofUrl: Option<string>, notes: Option<string>,
                      completionId: Id, logId: Id, now: Instant) returns (status: int, notified: seq<Id>)
    requires db.Valid()
    requires completionId !in Keys(db.tables.completions, CompletionKey) && logId !in Keys(db.tables.logs, LogKey)
    modifies db
    ensures db.Valid()
    ensures var r := CompleteCheck(old(db.tables), callerId, taskId, challengeId);
      status == r.status &&
      (r.Fail? ==> db.tables == old(db.tables) && notified == []) &&
      (r.Ok? ==>
        db.tables == old(db.tables).(
          completions := old(db.tables.completions) + [NewCompletion(r.body, callerId, proofUrl, notes, completionId, now)],
          logs := old(db.tables.logs) + [CompletedLog(r.body, logId, now)]) &&
        notified == Recipients(MembersOf(old(db.tables.members), r.body.challenge.groupId), callerId))
  {
    var check := CompleteCheck(db.tables, callerId, taskId, challengeId);
    if check.Fail? {
      return check.status, [];
    }
    var b := check.body;
    CompletionKeepsConsistent(db.tables, callerId, taskId, challengeId, proofUrl, notes, completionId, logId, now);
    db.tables := db.tables.(completions := db.tables.completions + [NewCompletion(b, callerId, proofUrl, notes, completionId, now)],
                            logs := db.tables.logs + [CompletedLog(b, logId, now)]);
    notified := Announce(MembersOf(db.tables.members, b.challenge.groupId), callerId);
    status := 201;
  }

  /** Adding the accepted completion and its log entry, under fresh ids,
      keeps the schema's constraints. */
  lemma CompletionKeepsConsistent(t: Tables, callerId: Id, taskId: Id, challengeId: Id, proofUrl: Option<string>,
                                  notes: Option<string>, completionId: Id, logId: Id, now: Instant)
    requires Consistent(t) && CompleteCheck(t, callerId, taskId, challengeId).Ok?
    requires completionId !in Keys(t.completions, CompletionKey) && logId !in Keys(t.logs, LogKey)
    ensures var b := CompleteCheck(t, callerId, taskId, challengeId).body;
      Consistent(t.(completions := t.completions + [NewCompletion(b, callerId, proofUrl, notes, completionId, now)],
                    logs := t.logs + [CompletedLog(b, logId, now)]))
  {
    var b := CompleteCheck(t, callerId, taskId, challengeId).body;
    var completion := NewCompletion(b, callerId, proofUrl, notes, completionId, now);
    assert CompletionPairKey(completion) !in Keys(t.completions, CompletionPairKey);
    UniqueAppend(t.completions, CompletionKey, completion);
    UniqueAppend(t.completions, CompletionPairKey, completion);
    UniqueAppend(t.logs, LogKey, CompletedLog(b, logId, now));
  }

  /** The notification loop: walk the group's members and collect every user
      id but the completer's. */
  method Announce(members: seq<MemberRow>, callerId: Id) returns (notified: seq<Id>)
    ensures notified == Recipients(members, callerId)
    ensures forall u :: u in notified <==> u != callerId && u in UserIds(members)
  {
    notified := [];
    var i := 0;
    while i < |members|
      invariant 0 <= i <= |members|
      invariant notified == Recipients(members[..i], callerId)
    {
      if members[i].userId != callerId {
        notified := notified + [members[i].userId];
      }
      assert members[..i + 1][..i] == members[..i];
      i := i + 1;
    }
    assert members[..i] == members;
    RecipientsAreOthers(members, callerId);
  }

  /** A repeated completion of the same task by the same member is refused
      with 400. */
  lemma SecondCompletionRefused(t: Tables, callerId: Id, taskId: Id, challengeId: Id, proofUrl: Option<string>,
                                notes: Option<string>, id: Id, now: Instant)
    requires CompleteCheck(t, callerId, taskId, challengeId).Ok?
    ensures var b := CompleteCheck(t, callerId, taskId, challengeId).body;
      var t' := t.(completions := t.completions + [NewCompletion(b, callerId, proofUrl, notes, id, now)]);
      CompleteCheck(t', callerId, taskId, challengeId) == Fail(400)
  {
    var b := CompleteCheck(t, callerId, taskId, challengeId).body;
    var c := NewCompletion(b, callerId, proofUrl, notes, id, now);
    var t' := t.(completions := t.completions + [c]);
    assert t'.completions[|t.completions|] == c;
  }

  // ------------------------------------------------------------ read routes

  /** GET /challenge/:challengeId/my-completions: the caller's completions in
      that challenge. */
  function MyCompletions(t: Tables, callerId: Id, challengeId: Id): (r: Reply<seq<CompletionRow>>)
    ensures FindBy(t.challenges, ChallengeKey, challengeId).None? <==> r == Fail(404)
    ensures r.Ok? ==> r.status == 200
    ensures r.Ok? ==> var c := FindBy(t.challenges, ChallengeKey, challengeId).value;
      IsMemberOf(t.members, c.groupId, callerId) &&
      forall x :: x in r.body <==>
        x in t.completions && x.challengeId == challengeId && x.memberId == Membership(t.members, c.groupId, callerId).value.id
    ensures r.Fail? ==> r.status in {403, 404}
    ensures r.Ok? <==> (FindBy(t.challenges, ChallengeKey, challengeId).Some? &&
      IsMemberOf(t.members, FindBy(t.challenges, ChallengeKey, challengeId).value.groupId, callerId))
  {
    match FindBy(t.challenges, ChallengeKey, challengeId)
    case None => Fail(404)
    case Some(c) =>
      match Membership(t.members, c.groupId, callerId)
      case None => Fail(403)
      case Some(m) => Ok(200, Where(t.completions, (x: CompletionRow) => x.challengeId == challengeId && x.memberId == m.id))
  }

  /** GET /task/:taskId/completions: every completion of the task, for
      members of the group of the task's challenge. A task whose challenge
      record is missing makes the relation lookup fail (500). */
  function TaskCompletions(t: Tables, callerId: Id, taskId: Id): (r: Reply<seq<CompletionRow>>)
    ensures FindBy(t.tasks, TaskKey, taskId).None? <==> r == Fail(404)
    ensures r.Ok? ==> r.status == 200 && forall x :: x in r.body <==> x in t.completions && x.taskId == taskId
    ensures r.Ok? ==> exists c :: (c in t.challenges && c.id == FindBy(t.tasks, TaskKey, taskId).value.challengeId &&
      IsMemberOf(t.members, c.groupId, callerId))
    ensures r == Fail(500) <==> (FindBy(t.tasks, TaskKey, taskId).Some? &&
      FindBy(t.challenges, ChallengeKey, FindBy(t.tasks, TaskKey, taskId).value.challengeId).None?)
    ensures r.Fail? ==> r.status in {403, 404, 500}
  {
    match FindBy(t.tasks, TaskKey, taskId)
    case None => Fail(404)
    case Some(task) =>
      match FindBy(t.challenges, ChallengeKey, task.challengeId)
      case None => Fail(500)
      case Some(c) =>
        if !IsMemberOf(t.members, c.groupId, callerId) then Fail(403)
        else Ok(200, CompletionsOf(t.completions, taskId))
  }

  // -------------------------------------------------------------------- undo

  /** The checks of DELETE /completions/:completionId: the completion (404)
      and that its member is the caller (403). */
  function UndoCheck(t: Tables, callerId: Id, completionId: Id): (r: Reply<CompletionRow>)
    ensures FindBy(t.completions, CompletionKey, completionId).None? <==> r == Fail(404)
    ensures r.Ok? ==> (r.status == 200 && r.body in t.completions && r.body.id == completionId &&
      exists m :: m in t.members && m.id == r.body.memberId && m.userId == callerId)
    ensures r.Fail? ==> r.status in {403, 404}
    ensures r.Ok? <==> (FindBy(t.completions, CompletionKey, completionId).Some? &&
      var owner := FindBy(t.members, MemberKey, FindBy(t.completions, CompletionKey, completionId).value.memberId);
      owner.Some? && owner.value.userId == callerId)
  {
    match FindBy(t.completions, CompletionKey, completionId)
    case None => Fail(404)
    case Some(c) =>
      match FindBy(t.members, MemberKey, c.memberId)
      case None => Fail(403)
      case Some(m) => if m.userId != callerId then Fail(403) else Ok(200, c)
  }

  /** Another member's completion is never removed. */
  lemma UndoIsOwnerOnly(t: Tables, callerId: Id, c: CompletionRow, m: MemberRow)
    requires Consistent(t) && c in t.completions && m in t.members && m.id == c.memberId && m.userId != callerId
    ensures UndoCheck(t, callerId, c.id) == Fail(403)
  {
    var i :| 0 <= i < |t.completions| && t.completions[i] == c;
    FindUniqueBy(t.completions, CompletionKey, i);
    var j :| 0 <= j < |t.members| && t.members[j] == m;
    FindUniqueBy(t.members, MemberKey, j);
  }

  /** The owner of a completion may remove it. */
  lemma UndoAcceptsOwner(t: Tables, callerId: Id, c: CompletionRow, m: MemberRow)
    requires Consistent(t) && c in t.completions && m in t.members && m.id == c.memberId && m.userId == callerId
    ensures UndoCheck(t, callerId, c.id) == Ok(200, c)
  {
    var i :| 0 <= i < |t.completions| && t.completions[i] == c;
    FindUniqueBy(t.completions, CompletionKey, i);
    assert FindBy(t.completions, CompletionKey, c.id) == Some(c);
    var j :| 0 <= j < |t.members| && t.members[j] == m;
    FindUniqueBy(t.members, MemberKey, j);
    assert FindBy(t.members, MemberKey, m.id) == Some(m);
  }

  /** A member of the challenge's group gets their own completions in it. */
  lemma MyCompletionsAccepts(t: Tables, callerId: Id, c: ChallengeRow, m: MemberRow)
    requires Consistent(t) && c in t.challenges && m in t.members && m.groupId == c.groupId && m.userId == callerId
    ensures var r := MyCompletions(t, callerId, c.id);
      r.Ok? && r.status == 200 &&
      forall x :: x in r.body <==> x in t.completions && x.challengeId == c.id && x.memberId == m.id
  {
    var i :| 0 <= i < |t.challenges| && t.challenges[i] == c;
    FindUniqueBy(t.challenges, ChallengeKey, i);
    assert FindBy(t.challenges, ChallengeKey, c.id) == Some(c);
    var j :| 0 <= j < |t.members| && t.members[j] == m;
    FindUniqueBy(t.members, MembershipKey, j);
    assert Membership(t.members, c.groupId, callerId) == Some(m);
  }

  /** A member of the group of the task's challenge gets every completion of
      the task. */
  lemma TaskCompletionsAccepts(t: Tables, callerId: Id, task: TaskRow, c: ChallengeRow, m: MemberRow)
    requires Consistent(t) && task in t.tasks && c in t.challenges && c.id == task.challengeId
    requires m in t.members && m.groupId == c.groupId && m.userId == callerId
    ensures var r := TaskCompletions(t, callerId, task.id);
      r.Ok? && r.status == 200 && forall x :: x in r.body <==> x in t.completions && x.taskId == task.id
  {
    var k :| 0 <= k < |t.tasks| && t.tasks[k] == task;
    FindUniqueBy(t.tasks, TaskKey, k);
    assert FindBy(t.tasks, TaskKey, task.id) == Some(task);
    var i :| 0 <= i < |t.challenges| && t.challenges[i] == c;
    FindUniqueBy(t.challenges, ChallengeKey, i);
    assert FindBy(t.challenges, ChallengeKey, c.id) == Some(c);
    var j :| 0 <= j < |t.members| && t.members[j] == m;
    FindUniqueBy(t.members, MembershipKey, j);
    assert Membership(t.members, c.groupId, callerId) == Some(m);
  }

  /** A task whose challenge record is gone answers 500. */
  lemma TaskCompletionsMissingChallenge(t: Tables, callerId: Id, task: TaskRow)
    requires Consistent(t) && task in t.tasks && task.challengeId !in Keys(t.challenges, ChallengeKey)
    ensures TaskCompletions(t, callerId, task.id) == Fail(500)
  {
    var k :| 0 <= k < |t.tasks| && t.tasks[k] == task;
    FindUniqueBy(t.tasks, TaskKey, k);
    assert FindBy(t.tasks, TaskKey, task.id) == Some(task);
    forall l | 0 <= l < |t.challenges| ensures ChallengeKey(t.challenges[l]) != task.challengeId {
      assert ChallengeKey(t.challenges[l]) in Keys(t.challenges, ChallengeKey);
    }
  }

  /** DELETE /completions/:completionId: the caller's own completion is
      removed, and nothing else. */
  method UndoCompletion(db: Db, callerId: Id, completionId: Id) returns (status: int)
    requires db.Valid()
    modifies db
    ensures db.Valid()
    ensures var r := UndoCheck(old(db.tables), callerId, completionId);
      status == r.status &&
      (r.Fail? ==> db.tables == old(db.tables)) &&
      (r.Ok? ==> exists i :: (0 <= i < |old(db.tables.completions)| && old(db.tables.completions)[i] == r.body &&
        db.tables == old(db.tables).(completions := old(db.tables.completions)[..i] + old(db.tables.completions)[i + 1..])))
  {
    var check := UndoCheck(db.tables, callerId, completionId);
    if check.Fail? {
      return check.status;
    }
    var cs := db.tables.completions;
    var i := IndexOf(cs, CompletionKey, completionId);
    forall j | 0 <= j < |cs| && j != i ensures cs[j].id != completionId {
      if j < i {
      } else {
        assert CompletionKey(cs[i]) != CompletionKey(cs[j]);
      }
    }
    var remaining := Where(cs, (x: CompletionRow) => x.id != completionId);
    WhereDropsOne(cs, (x: CompletionRow) => x.id != completionId, i);
    UniqueDropOne(cs, CompletionKey, i);
    UniqueDropOne(cs, CompletionPairKey, i);
    db.tables := db.tables.(completions := remaining);
    status := 200;
  }
}
