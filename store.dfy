/** The backend's relational store, seen through the queries the route
    handlers make of it: one table (a sequence of records) per model, the
    lookups `findUnique`/`findFirst`/`findMany`, and the uniqueness and
    reference constraints of the schema. */
module Store {
  import opened Wrappers
  import opened Dates

  type Id = string

  datatype User = User(
    id: Id, telegramId: string, verificationToken: Option<string>, verificationSentAt: Option<Instant>,
    isVerified: bool, email: Option<string>, firstName: Option<string>, lastName: Option<string>)

  datatype GroupRow = GroupRow(
    id: Id, name: string, description: Option<string>, icon: string, theme: string, createdById: Id, createdAt: Instant)

  datatype PenaltyRow = PenaltyRow(groupId: Id, threshold: int, description: string)

  datatype MemberRow = MemberRow(
    id: Id, groupId: Id, userId: Id, displayName: string, avatar: Option<string>, role: string,
    strikes: int, penaltiesPaid: int, joinedAt: Instant)

  datatype ChallengeRow = ChallengeRow(
    id: Id, groupId: Id, title: string, description: Option<string>, category: string, startDate: Instant,
    durationDays: int, color: string, mode: string, deadlineTime: Option<string>, frequency: string,
    customFrequencyDays: Option<int>, status: string, createdAt: Instant)

  datatype TaskRow = TaskRow(id: Id, challengeId: Id, dayNumber: int, title: string, description: Option<string>)

  datatype CompletionRow = CompletionRow(
    id: Id, taskId: Id, challengeId: Id, memberId: Id, userId: Id, proofUrl: Option<string>, notes: Option<string>,
    completedAt: Instant)

  datatype LogRow = LogRow(
    id: Id, groupId: Id, challengeId: Id, memberId: Id, action: string, description: string, createdAt: Instant)

  datatype Tables = Tables(
    users: seq<User>, groups: seq<GroupRow>, penalties: seq<PenaltyRow>, members: seq<MemberRow>,
    challenges: seq<ChallengeRow>, tasks: seq<TaskRow>, completions: seq<CompletionRow>, logs: seq<LogRow>)

  // ----------------------------------------------------------- generic queries

  /** Position of the first record whose key is k, or -1. */
  function IndexOf<T, K(==)>(s: seq<T>, key: T -> K, k: K): (i: int)
    ensures -1 <= i < |s|
    ensures i == -1 <==> forall j :: 0 <= j < |s| ==> key(s[j]) != k
    ensures 0 <= i ==> key(s[i]) == k && forall j :: 0 <= j < i ==> key(s[j]) != k
  {
    if s == [] then -1
    else if key(s[0]) == k then 0
    else
      var i := IndexOf(s[1..], key, k);
      assert forall j :: 0 < j < |s| ==> s[j] == s[1..][j - 1];
      if i < 0 then -1 else i + 1
  }

  /** `findUnique`/`findFirst` on one key. */
  function FindBy<T, K(==)>(s: seq<T>, key: T -> K, k: K): (r: Option<T>)
    ensures r.Some? <==> exists j :: 0 <= j < |s| && key(s[j]) == k
    ensures r.Some? ==> r.value in s && key(r.value) == k
  {
    var i := IndexOf(s, key, k);
    if i < 0 then None else Some(s[i])
  }

  /** `findMany({ where })`: the records satisfying p, in table order. */
  function Where<T>(s: seq<T>, p: T -> bool): (r: seq<T>)
    ensures |r| <= |s|
    ensures forall j :: 0 <= j < |r| ==> p(r[j])
    ensures forall j :: 0 <= j < |s| && p(s[j]) ==> s[j] in r
    ensures forall x :: x in r ==> x in s
    decreases |s|
  {
    if s == [] then []
    else
      var rest := Where(s[1..], p);
      assert forall j :: 0 < j < |s| ==> s[j] == s[1..][j - 1];
      if p(s[0]) then [s[0]] + rest else rest
  }

  /** The query works record by record: filtering a concatenation is
      concatenating the filtered parts, so the table's order is kept. */
  lemma {:induction false} WhereAppend<T>(a: seq<T>, b: seq<T>, p: T -> bool)
    ensures Where(a + b, p) == Where(a, p) + Where(b, p)
    decreases |a|
  {
    if a == [] {
      assert a + b == b;
    } else {
      assert (a + b)[1..] == a[1..] + b;
      WhereAppend(a[1..], b, p);
    }
  }

  /** No record satisfies the condition: nothing is returned. */
  lemma {:induction false} WhereNone<T>(s: seq<T>, p: T -> bool)
    requires forall i :: 0 <= i < |s| ==> !p(s[i])
    ensures Where(s, p) == []
    decreases |s|
  {
    if s != [] {
      WhereNone(s[1..], p);
    }
  }

  /** Exactly one record fails the condition: the table without it. */
  lemma {:induction false} WhereDropsOne<T>(s: seq<T>, p: T -> bool, i: int)
    requires 0 <= i < |s| && !p(s[i]) && forall j :: 0 <= j < |s| && j != i ==> p(s[j])
    ensures Where(s, p) == s[..i] + s[i + 1..]
    decreases |s|
  {
    var tail := s[1..];
    assert forall j :: 0 <= j < |tail| ==> tail[j] == s[j + 1];
    if i == 0 {
      WhereKeepsAll(tail, p);
      assert Where(s, p) == Where(tail, p);
    } else {
      WhereDropsOne(tail, p, i - 1);
      assert Where(s, p) == [s[0]] + Where(tail, p);
      assert s[..i] == [s[0]] + s[1..][..i - 1];
      assert s[i + 1..] == s[1..][i..];
    }
  }

  /** Every record satisfies the condition: the whole table, in order. */
  lemma {:induction false} WhereKeepsAll<T>(s: seq<T>, p: T -> bool)
    requires forall j :: 0 <= j < |s| ==> p(s[j])
    ensures Where(s, p) == s
    decreases |s|
  {
    if s != [] {
      WhereKeepsAll(s[1..], p);
      assert [s[0]] + s[1..] == s;
    }
  }

  /** No two records share a key: a primary key or a unique constraint. */
  predicate Unique<T, K(==)>(s: seq<T>, key: T -> K) {
    forall i, j :: 0 <= i < j < |s| ==> key(s[i]) != key(s[j])
  }

  function Keys<T, K>(s: seq<T>, key: T -> K): set<K> {
    set i | 0 <= i < |s| :: key(s[i])
  }

  /** Under a unique key the first match is the only one. */
  lemma FindUniqueBy<T, K>(s: seq<T>, key: T -> K, j: int)
    requires Unique(s, key) && 0 <= j < |s|
    ensures IndexOf(s, key, key(s[j])) == j
  {
    var i := IndexOf(s, key, key(s[j]));
    assert 0 <= i && key(s[i]) == key(s[j]);
  }

  /** Appending a record with a new key keeps the key unique. */
  lemma UniqueAppend<T, K>(s: seq<T>, key: T -> K, x: T)
    requires Unique(s, key) && key(x) !in Keys(s, key)
    ensures Unique(s + [x], key)
  {
    var s' := s + [x];
    forall i, j | 0 <= i < j < |s'| ensures key(s'[i]) != key(s'[j]) {
      if j == |s| {
        assert key(s'[i]) in Keys(s, key);
      }
    }
  }

  /** Rewriting one record without touching its key keeps the key unique. */
  lemma UniqueUpdate<T, K>(s: seq<T>, key: T -> K, i: int, x: T)
    requires Unique(s, key) && 0 <= i < |s| && key(x) == key(s[i])
    ensures Unique(s[i := x], key)
  {
  }

  lemma UniqueWhere<T, K>(s: seq<T>, key: T -> K, p: T -> bool)
    requires Unique(s, key)
    ensures Unique(Where(s, p), key)
    decreases |s|
  {
    if s != [] {
      UniqueWhere(s[1..], key, p);
      var rest := Where(s[1..], p);
      if p(s[0]) {
        forall j | 0 <= j < |rest| ensures key(s[0]) != key(rest[j]) {
          assert rest[j] in rest;
          assert rest[j] in s[1..];
          var k :| 0 <= k < |s[1..]| && s[1..][k] == rest[j];
          assert s[1..][k] == s[k + 1];
        }
      }
    }
  }

  /** Removing one record keeps a key unique. */
  lemma UniqueDropOne<T, K>(s: seq<T>, key: T -> K, i: int)
    requires Unique(s, key) && 0 <= i < |s|
    ensures Unique(s[..i] + s[i + 1..], key)
  {
    var r := s[..i] + s[i + 1..];
    forall a, b | 0 <= a < b < |r| ensures key(r[a]) != key(r[b]) {
      var a' := if a < i then a else a + 1;
      var b' := if b < i then b else b + 1;
      assert r[a] == s[a'] && r[b] == s[b'];
    }
  }

  /** Appending records with new, distinct keys keeps the key unique. */
  lemma UniqueAppendMany<T, K>(s: seq<T>, key: T -> K, xs: seq<T>)
    requires Unique(s, key) && Unique(xs, key)
    requires forall i :: 0 <= i < |xs| ==> key(xs[i]) !in Keys(s, key)
    ensures Unique(s + xs, key)
  {
    var r := s + xs;
    forall i, j | 0 <= i < j < |r| ensures key(r[i]) != key(r[j]) {
      if i < |s| && |s| <= j {
        assert r[j] == xs[j - |s|];
        assert key(r[i]) in Keys(s, key);
      } else if |s| <= i {
        assert r[i] == xs[i - |s|] && r[j] == xs[j - |s|];
      }
    }
  }

  // ---------------------------------------------------------- keys of tables

  function UserKey(u: User): Id { u.id }
  function TelegramKey(u: User): string { u.telegramId }
  function GroupKey(g: GroupRow): Id { g.id }
  function PenaltyKey(p: PenaltyRow): Id { p.groupId }
  function MemberKey(m: MemberRow): Id { m.id }
  /** The `groupId_userId` compound key. */
  function MembershipKey(m: MemberRow): (Id, Id) { (m.groupId, m.userId) }
  function ChallengeKey(c: ChallengeRow): Id { c.id }
  function TaskKey(t: TaskRow): Id { t.id }
  function CompletionKey(c: CompletionRow): Id { c.id }
  /** The `taskId_memberId` compound key. */
  function CompletionPairKey(c: CompletionRow): (Id, Id) { (c.taskId, c.memberId) }
  function LogKey(l: LogRow): Id { l.id }

  /** The schema's constraints: primary keys, the unique telegram id, one
      penalty rule per group, one membership per (group, user), one
      completion per (task, member), and memberships and penalty rules that
      refer to existing groups. */
  predicate Consistent(t: Tables) {
    Unique(t.users, UserKey) && Unique(t.users, TelegramKey) &&
    Unique(t.groups, GroupKey) && Unique(t.penalties, PenaltyKey) &&
    Unique(t.members, MemberKey) && Unique(t.members, MembershipKey) &&
    Unique(t.challenges, ChallengeKey) && Unique(t.tasks, TaskKey) &&
    Unique(t.completions, CompletionKey) && Unique(t.completions, CompletionPairKey) &&
    Unique(t.logs, LogKey) &&
    (forall i :: 0 <= i < |t.members| ==> t.members[i].groupId in Keys(t.groups, GroupKey)) &&
    (forall i :: 0 <= i < |t.penalties| ==> t.penalties[i].groupId in Keys(t.groups, GroupKey))
  }

  /** The database the handlers share. */
  class Db {
    var tables: Tables

    constructor ()
      ensures tables == Tables([], [], [], [], [], [], [], [])
      ensures Valid()
    {
      tables := Tables([], [], [], [], [], [], [], []);
    }

    predicate Valid()
      reads this
    {
      Consistent(tables)
    }
  }

  // ------------------------------------------------------------ common guards

  /** `groupMember.findUnique({ groupId_userId })`. */
  function Membership(members: seq<MemberRow>, groupId: Id, userId: Id): (r: Option<MemberRow>)
    ensures r.Some? <==> exists j :: 0 <= j < |members| && members[j].groupId == groupId && members[j].userId == userId
    ensures r.Some? ==> r.value in members && r.value.groupId == groupId && r.value.userId == userId
  {
    FindBy(members, MembershipKey, (groupId, userId))
  }

  predicate IsMemberOf(members: seq<MemberRow>, groupId: Id, userId: Id) {
    Membership(members, groupId, userId).Some?
  }

  function MembersOf(members: seq<MemberRow>, groupId: Id): (r: seq<MemberRow>)
    ensures forall m :: m in r <==> m in members && m.groupId == groupId
  {
    Where(members, (m: MemberRow) => m.groupId == groupId)
  }

  function ChallengesOf(challenges: seq<ChallengeRow>, groupId: Id): (r: seq<ChallengeRow>)
    ensures forall c :: c in r <==> c in challenges && c.groupId == groupId
  {
    Where(challenges, (c: ChallengeRow) => c.groupId == groupId)
  }

  /** `challenge.tasks`. */
  function TasksOf(tasks: seq<TaskRow>, challengeId: Id): (r: seq<TaskRow>)
    ensures forall t :: t in r <==> t in tasks && t.challengeId == challengeId
  {
    Where(tasks, (t: TaskRow) => t.challengeId == challengeId)
  }

  /** `task.completions`. */
  function CompletionsOf(completions: seq<CompletionRow>, taskId: Id): (r: seq<CompletionRow>)
    ensures forall c :: c in r <==> c in completions && c.taskId == taskId
  {
    Where(completions, (c: CompletionRow) => c.taskId == taskId)
  }

  /** The JavaScript falsiness of an optional string field of a request
      body: absent or empty. */
  predicate Falsy(v: Option<string>) {
    v.None? || v.value == ""
  }

  /** `value || undefined` handed to an update: a falsy value leaves the
      stored field as it is. */
  function OrKeep(stored: string, v: Option<string>): (r: string)
    ensures Falsy(v) ==> r == stored
    ensures !Falsy(v) ==> r == v.value
  {
    if Falsy(v) then stored else v.value
  }

  function OrKeepOpt(stored: Option<string>, v: Option<string>): (r: Option<string>)
    ensures Falsy(v) ==> r == stored
    ensures !Falsy(v) ==> r == v
  {
    if Falsy(v) then stored else v
  }

  /** A response: the status code and, on success, the body. */
  datatype Reply<T> = Fail(status: int) | Ok(status: int, body: T)
}
