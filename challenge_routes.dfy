/** The challenge routes: creating a challenge with its tasks, listing a
    group's challenges, a challenge's details, updating and deleting one. */
module ChallengeRoutes {
  import opened Wrappers
  import opened Dates
  import opened Sorting
  import opened Store

  datatype TaskInput = TaskInput(dayNumber: int, title: string, description: Option<string>)

  datatype ChallengeInput = ChallengeInput(
    groupId: Id, title: string, description: Option<string>, category: string, startDate: Instant,
    durationDays: int, color: Option<string>, mode: Option<string>, deadlineTime: Option<string>,
    frequency: Option<string>, customFrequencyDays: Option<int>, tasks: seq<TaskInput>)

  predicate IsCategory(c: string) {
    c in {"FITNESS", "LEARNING", "MINDFULNESS", "PRODUCTIVITY", "HEALTH", "OTHER"}
  }

  predicate IsFrequency(f: string) {
    f in {"daily", "2days", "3days", "weekly", "weekdays", "custom"}
  }

  predicate IsMode(m: string) {
    m in {"solo", "duo"}
  }

  /** The request schema: a title of 1 to 100 characters, a known category,
      a duration of 1 to 365 days, and a known mode and frequency when they
      are sent. */
  predicate ValidChallenge(b: ChallengeInput) {
    1 <= |b.title| <= 100 && IsCategory(b.category) && 1 <= b.durationDays <= 365 &&
    (b.mode.None? || IsMode(b.mode.value)) && (b.frequency.None? || IsFrequency(b.frequency.value))
  }

  /** The stored challenge: defaults filled in and the status "active". */
  function NewChallenge(id: Id, b: ChallengeInput, now: Instant): (c: ChallengeRow)
    ensures c.status == "active" && c.id == id && c.groupId == b.groupId
    ensures c.frequency == b.frequency.GetOr("daily") && c.mode == b.mode.GetOr("solo") && c.color == b.color.GetOr("indigo")
    ensures ValidChallenge(b) ==> IsFrequency(c.frequency) && IsMode(c.mode) && 1 <= c.durationDays <= 365
  {
    ChallengeRow(id, b.groupId, b.title, b.description, b.category, b.startDate, b.durationDays,
      b.color.GetOr("indigo"), b.mode.GetOr("solo"), b.deadlineTime, b.frequency.GetOr("daily"),
      b.customFrequencyDays, "active", now)
  }

  /** `body.tasks.map(...)`: one stored task per task of the request. */
  function NewTasks(ids: seq<Id>, challengeId: Id, inputs: seq<TaskInput>): (r: seq<TaskRow>)
    requires |ids| == |inputs|
    ensures |r| == |inputs|
    ensures forall i :: 0 <= i < |r| ==> (r[i].id == ids[i] && r[i].challengeId == challengeId &&
      r[i].dayNumber == inputs[i].dayNumber && r[i].title == inputs[i].title && r[i].description == inputs[i].description)
  {
    seq(|inputs|, i requires 0 <= i < |inputs| => TaskRow(ids[i], challengeId, inputs[i].dayNumber, inputs[i].title, inputs[i].description))
  }

  /** POST /challenges: membership is required, and the challenge is stored
      with status "active" together with exactly the tasks of the request. */
  method CreateChallenge(db: Db, callerId: Id, b: ChallengeInput, challengeId: Id, taskIds: seq<Id>, now: Instant)
    returns (status: int, taskCount: int)
    requires db.Valid()
    requires |taskIds| == |b.tasks|
    requires challengeId !in Keys(db.tables.challenges, ChallengeKey)
    requires forall i, j :: 0 <= i < j < |taskIds| ==> taskIds[i] != taskIds[j]
    requires forall i :: 0 <= i < |taskIds| ==> taskIds[i] !in Keys(db.tables.tasks, TaskKey)
    modifies db
    ensures db.Valid()
    ensures !ValidChallenge(b) ==> status == 400 && db.tables == old(db.tables)
    ensures ValidChallenge(b) && !IsMemberOf(old(db.tables.members), b.groupId, callerId) ==>
      status == 403 && db.tables == old(db.tables)
    ensures ValidChallenge(b) && IsMemberOf(old(db.tables.members), b.groupId, callerId) ==>
      status == 201 && taskCount == |b.tasks| &&
      db.tables == old(db.tables).(
        challenges := old(db.tables.challenges) + [NewChallenge(challengeId, b, now)],
        tasks := old(db.tables.tasks) + NewTasks(taskIds, challengeId, b.tasks))
  {
    if !ValidChallenge(b) {
      return 400, 0;
    }
    if !IsMemberOf(db.tables.members, b.groupId, callerId) {
      return 403, 0;
    }
    var t := db.tables;
    var c := NewChallenge(challengeId, b, now);
    var created := NewTasks(taskIds, challengeId, b.tasks);
    UniqueAppend(t.challenges, ChallengeKey, c);
    UniqueAppendMany(t.tasks, TaskKey, created);
    db.tables := t.(challenges := t.challenges + [c], tasks := t.tasks + created);
    return 201, |created|;
  }

  function CreatedAt(c: ChallengeRow): int {
    c.createdAt
  }

  /** GET /challenges/group/:groupId: the group's challenges, newest first. */
  function ListChallenges(t: Tables, callerId: Id, groupId: Id): (r: Reply<seq<ChallengeRow>>)
    ensures !IsMemberOf(t.members, groupId, callerId) <==> r == Fail(403)
    ensures r.Ok? ==> (r.status == 200 && SortedDesc(r.body, CreatedAt) &&
      multiset(r.body) == multiset(ChallengesOf(t.challenges, groupId)) &&
      forall c :: c in r.body <==> c in t.challenges && c.groupId == groupId)
  {
    if !IsMemberOf(t.members, groupId, callerId) then Fail(403)
    else
      var mine := ChallengesOf(t.challenges, groupId);
      var sorted := SortDesc(mine, CreatedAt);
      assert forall c :: c in sorted <==> c in multiset(mine);
      Ok(200, sorted)
  }

  /** The lookups every single-challenge route starts with: the challenge
      (404), then the caller's membership of its group (403). */
  function ChallengeGate(t: Tables, callerId: Id, challengeId: Id): (r: Reply<int>)
    ensures FindBy(t.challenges, ChallengeKey, challengeId).None? <==> r == Fail(404)
    ensures r.Ok? ==> (r.status == 200 && 0 <= r.body < |t.challenges| && t.challenges[r.body].id == challengeId &&
      IsMemberOf(t.members, t.challenges[r.body].groupId, callerId))
    ensures r.Fail? ==> r.status in {403, 404}
  {
    var i := IndexOf(t.challenges, ChallengeKey, challengeId);
    if i < 0 then Fail(404)
    else if !IsMemberOf(t.members, t.challenges[i].groupId, callerId) then Fail(403)
    else Ok(200, i)
  }

  /** A member of the challenge's group passes the gate; nobody else does. */
  lemma ChallengeGateIff(t: Tables, callerId: Id, i: int)
    requires Unique(t.challenges, ChallengeKey) && 0 <= i < |t.challenges|
    ensures ChallengeGate(t, callerId, t.challenges[i].id).Ok? <==> IsMemberOf(t.members, t.challenges[i].groupId, callerId)
    ensures ChallengeGate(t, callerId, t.challenges[i].id).Ok? ==> ChallengeGate(t, callerId, t.challenges[i].id).body == i
  {
    FindUniqueBy(t.challenges, ChallengeKey, i);
  }

  /** GET /challenges/:challengeId. */
  function ChallengeDetails(t: Tables, callerId: Id, challengeId: Id): (r: Reply<(ChallengeRow, seq<TaskRow>)>)
    ensures FindBy(t.challenges, ChallengeKey, challengeId).None? <==> r == Fail(404)
    ensures r.Ok? ==> (r.status == 200 && r.body.0 in t.challenges && r.body.0.id == challengeId &&
      IsMemberOf(t.members, r.body.0.groupId, callerId) &&
      forall k :: k in r.body.1 <==> k in t.tasks && k.challengeId == challengeId)
  {
    match ChallengeGate(t, callerId, challengeId)
    case Fail(s) => Fail(s)
    case Ok(_, i) => Ok(200, (t.challenges[i], TasksOf(t.tasks, challengeId)))
  }

  /** `field || undefined` for the four editable fields; nothing else of
      the challenge changes. */
  function PatchChallenge(c: ChallengeRow, title: Option<string>, description: Option<string>, status: Option<string>,
                          deadlineTime: Option<string>): (r: ChallengeRow)
    ensures r.id == c.id && r.groupId == c.groupId && r.startDate == c.startDate && r.durationDays == c.durationDays
    ensures r.frequency == c.frequency && r.customFrequencyDays == c.customFrequencyDays && r.createdAt == c.createdAt
    ensures r.category == c.category && r.color == c.color && r.mode == c.mode
    ensures r.title == OrKeep(c.title, title) && r.status == OrKeep(c.status, status)
    ensures r.description == OrKeepOpt(c.description, description) && r.deadlineTime == OrKeepOpt(c.deadlineTime, deadlineTime)
  {
    c.(title := OrKeep(c.title, title), description := OrKeepOpt(c.description, description),
       status := OrKeep(c.status, status), deadlineTime := OrKeepOpt(c.deadlineTime, deadlineTime))
  }

  /** An update with only falsy fields is no change at all. */
  lemma FalsyPatchIsIdentity(c: ChallengeRow, title: Option<string>, description: Option<string>, status: Option<string>,
                             deadlineTime: Option<string>)
    requires Falsy(title) && Falsy(description) && Falsy(status) && Falsy(deadlineTime)
    ensures PatchChallenge(c, title, description, status, deadlineTime) == c
  {
  }

  /** PUT /challenges/:challengeId. The tasks are never touched. */
  method UpdateChallenge(db: Db, callerId: Id, challengeId: Id, title: Option<string>, description: Option<string>,
                         status: Option<string>, deadlineTime: Option<string>) returns (code: int)
    requires db.Valid()
    modifies db
    ensures db.Valid()
    ensures var g := ChallengeGate(old(db.tables), callerId, challengeId);
      code == g.status &&
      (g.Fail? ==> db.tables == old(db.tables)) &&
      (g.Ok? ==> db.tables == old(db.tables).(challenges := old(db.tables.challenges)[g.body :=
        PatchChallenge(old(db.tables.challenges)[g.body], title, description, status, deadlineTime)]))
  {
    var gate := ChallengeGate(db.tables, callerId, challengeId);
    if gate.Fail? {
      return gate.status;
    }
    var i := gate.body;
    var t := db.tables;
    var c := PatchChallenge(t.challenges[i], title, description, status, deadlineTime);
    UniqueUpdate(t.challenges, ChallengeKey, i, c);
    db.tables := t.(challenges := t.challenges[i := c]);
    return 200;
  }

  /** DELETE /challenges/:challengeId: exactly that challenge is removed. */
  method DeleteChallenge(db: Db, callerId: Id, challengeId: Id) returns (code: int)
    requires db.Valid()
    modifies db
    ensures db.Valid()
    ensures var g := ChallengeGate(old(db.tables), callerId, challengeId);
      code == g.status &&
      (g.Fail? ==> db.tables == old(db.tables)) &&
      (g.Ok? ==> db.tables == old(db.tables).(challenges :=
        old(db.tables.challenges)[..g.body] + old(db.tables.challenges)[g.body + 1..]))
    ensures code == 200 ==> (challengeId !in Keys(db.tables.challenges, ChallengeKey) &&
      |db.tables.challenges| == |old(db.tables.challenges)| - 1)
  {
    var gate := ChallengeGate(db.tables, callerId, challengeId);
    if gate.Fail? {
      return gate.status;
    }
    var i := gate.body;
    var t := db.tables;
    var rest := t.challenges[..i] + t.challenges[i + 1..];
    forall j | 0 <= j < |rest| ensures rest[j].id != challengeId {
      var j' := if j < i then j else j + 1;
      assert rest[j] == t.challenges[j'];
      assert ChallengeKey(t.challenges[i]) != ChallengeKey(t.challenges[j']) || j' == i;
    }
    UniqueDropOne(t.challenges, ChallengeKey, i);
    db.tables := t.(challenges := rest);
    return 200;
  }
}
