/** The group's activity log: every completion of every task becomes an
    entry, the entries are filtered, ordered newest first and bucketed by
    date for the timeline. */
module ActivityLog {
  import opened Wrappers
  import opened Lists
  import opened Dates
  import opened AppTypes
  import opened Sorting

  datatype Activity = Activity(member: GroupMember, challenge: Challenge, task: DayTask, date: Instant, dateString: string)

  /** The entry for one completer of one task, when the completer is a
      member of the group; `date` and `dateString` are the task's day. */
  function EntryFor(members: seq<GroupMember>, c: Challenge, t: DayTask, date: Instant, dateString: string,
                    userId: UserId): seq<Activity> {
    match FindMember(members, userId)
    case None => []
    case Some(m) => [Activity(m, c, t, date, dateString)]
  }

  function UserEntries(members: seq<GroupMember>, c: Challenge, t: DayTask, date: Instant, dateString: string,
                       ids: seq<UserId>): seq<Activity>
    decreases |ids|
  {
    if ids == [] then []
    else UserEntries(members, c, t, date, dateString, ids[..|ids| - 1]) + EntryFor(members, c, t, date, dateString, ids[|ids| - 1])
  }

  /** The entries of one task, stamped with the task's date. */
  function EntriesOfTask(members: seq<GroupMember>, c: Challenge, t: DayTask): seq<Activity> {
    var date := TaskDate(c.startDate, t.dayNumber);
    UserEntries(members, c, t, date, DateKey(date), CompletedBy(t))
  }

  function TaskEntries(members: seq<GroupMember>, c: Challenge, ts: seq<DayTask>): seq<Activity>
    decreases |ts|
  {
    if ts == [] then []
    else TaskEntries(members, c, ts[..|ts| - 1]) + EntriesOfTask(members, c, ts[|ts| - 1])
  }

  function ChallengeEntries(members: seq<GroupMember>, cs: seq<Challenge>): seq<Activity>
    decreases |cs|
  {
    if cs == [] then []
    else ChallengeEntries(members, cs[..|cs| - 1]) + TaskEntries(members, cs[|cs| - 1], cs[|cs| - 1].tasks)
  }

  /** The entries of a group, in challenge, task and completer order. */
  function Entries(g: Group): seq<Activity> {
    ChallengeEntries(g.members, g.challenges)
  }

  /** The innermost loop: one entry per completer found among the members. */
  method CompleterEntries(members: seq<GroupMember>, c: Challenge, t: DayTask, date: Instant, dateString: string)
    returns (entries: seq<Activity>)
    ensures entries == UserEntries(members, c, t, date, dateString, CompletedBy(t))
  {
    entries := [];
    var ids := CompletedBy(t);
    var u := 0;
    while u < |ids|
      invariant 0 <= u <= |ids|
      invariant entries == UserEntries(members, c, t, date, dateString, ids[..u])
    {
      assert ids[..u + 1][..u] == ids[..u];
      var member := FindMember(members, ids[u]);
      if member.Some? {
        entries := entries + [Activity(member.value, c, t, date, dateString)];
      }
      u := u + 1;
    }
    assert ids[..u] == ids;
  }

  /** One task: a task someone completed is dated once, then its completers
      are walked. */
  method TaskActivities(members: seq<GroupMember>, c: Challenge, t: DayTask) returns (entries: seq<Activity>)
    ensures entries == EntriesOfTask(members, c, t)
  {
    entries := [];
    if t.completedBy.Some? && |t.completedBy.value| > 0 {
      var date := TaskDate(c.startDate, t.dayNumber);
      var dateString := DateKey(date);
      entries := CompleterEntries(members, c, t, date, dateString);
    }
  }

  lemma TaskEntriesStep(members: seq<GroupMember>, c: Challenge, ts: seq<DayTask>, k: int)
    requires 0 <= k < |ts|
    ensures TaskEntries(members, c, ts[..k + 1]) == TaskEntries(members, c, ts[..k]) + EntriesOfTask(members, c, ts[k])
  {
    assert ts[..k + 1][..k] == ts[..k];
  }

  /** The loop over one challenge's tasks. */
  method ChallengeActivities(members: seq<GroupMember>, c: Challenge) returns (entries: seq<Activity>)
    ensures entries == TaskEntries(members, c, c.tasks)
  {
    entries := [];
    var k := 0;
    while k < |c.tasks|
      invariant 0 <= k <= |c.tasks|
      invariant entries == TaskEntries(members, c, c.tasks[..k])
    {
      var forTask := TaskActivities(members, c, c.tasks[k]);
      TaskEntriesStep(members, c, c.tasks, k);
      entries := entries + forTask;
      k := k + 1;
    }
    assert c.tasks[..k] == c.tasks;
  }

  lemma ChallengeEntriesStep(members: seq<GroupMember>, cs: seq<Challenge>, j: int)
    requires 0 <= j < |cs|
    ensures ChallengeEntries(members, cs[..j + 1]) == ChallengeEntries(members, cs[..j]) + TaskEntries(members, cs[j], cs[j].tasks)
  {
    assert cs[..j + 1][..j] == cs[..j];
  }

  /** `allActivities`: the nested `forEach` loops that build the list. */
  method Flatten(g: Group) returns (activities: seq<Activity>)
    ensures activities == Entries(g)
  {
    activities := [];
    var j := 0;
    while j < |g.challenges|
      invariant 0 <= j <= |g.challenges|
      invariant activities == ChallengeEntries(g.members, g.challenges[..j])
    {
      var forChallenge := ChallengeActivities(g.members, g.challenges[j]);
      ChallengeEntriesStep(g.members, g.challenges, j);
      activities := activities + forChallenge;
      j := j + 1;
    }
    assert g.challenges[..j] == g.challenges;
  }

  /** The ids, among `ids`, of members of the group, in order. */
  function KnownIds(members: seq<GroupMember>, ids: seq<UserId>): seq<UserId>
    decreases |ids|
  {
    if ids == [] then []
    else KnownIds(members, ids[..|ids| - 1]) + (if IsMember(members, ids[|ids| - 1]) then [ids[|ids| - 1]] else [])
  }

  function MemberIds(acts: seq<Activity>): seq<UserId> {
    seq(|acts|, i requires 0 <= i < |acts| => acts[i].member.userId)
  }

  /** One entry per completer who is a member, in completer order; ids of
      non-members are dropped. */
  lemma {:induction false} UserEntriesExact(members: seq<GroupMember>, c: Challenge, t: DayTask, date: Instant,
                                            dateString: string, ids: seq<UserId>)
    ensures MemberIds(UserEntries(members, c, t, date, dateString, ids)) == KnownIds(members, ids)
    decreases |ids|
  {
    if ids != [] {
      var init := ids[..|ids| - 1];
      UserEntriesExact(members, c, t, date, dateString, init);
      var e := EntryFor(members, c, t, date, dateString, ids[|ids| - 1]);
      var before := UserEntries(members, c, t, date, dateString, init);
      assert MemberIds(before + e) == MemberIds(before) + MemberIds(e);
    }
  }

  /** What makes an entry part of a group's log. */
  predicate EntryOf(g: Group, a: Activity) {
    a.challenge in g.challenges && a.task in a.challenge.tasks && a.member in g.members &&
    a.member.userId in CompletedBy(a.task) &&
    a.date == TaskDate(a.challenge.startDate, a.task.dayNumber) && a.dateString == DateKey(a.date)
  }

  lemma {:induction false} UserEntriesSound(g: Group, c: Challenge, t: DayTask, ids: seq<UserId>)
    requires c in g.challenges && t in c.tasks && forall u :: u in ids ==> u in CompletedBy(t)
    ensures var date := TaskDate(c.startDate, t.dayNumber);
      forall a :: a in UserEntries(g.members, c, t, date, DateKey(date), ids) ==> EntryOf(g, a)
    decreases |ids|
  {
    if ids != [] {
      UserEntriesSound(g, c, t, ids[..|ids| - 1]);
    }
  }

  lemma {:induction false} TaskEntriesSound(g: Group, c: Challenge, ts: seq<DayTask>)
    requires c in g.challenges && forall t :: t in ts ==> t in c.tasks
    ensures forall a :: a in TaskEntries(g.members, c, ts) ==> EntryOf(g, a)
    decreases |ts|
  {
    if ts != [] {
      TaskEntriesSound(g, c, ts[..|ts| - 1]);
      UserEntriesSound(g, c, ts[|ts| - 1], CompletedBy(ts[|ts| - 1]));
    }
  }

  lemma {:induction false} ChallengeEntriesSound(g: Group, cs: seq<Challenge>)
    requires forall c :: c in cs ==> c in g.challenges
    ensures forall a :: a in ChallengeEntries(g.members, cs) ==> EntryOf(g, a)
    decreases |cs|
  {
    if cs != [] {
      ChallengeEntriesSound(g, cs[..|cs| - 1]);
      TaskEntriesSound(g, cs[|cs| - 1], cs[|cs| - 1].tasks);
    }
  }

  lemma {:induction false} UserEntriesComplete(members: seq<GroupMember>, c: Challenge, t: DayTask, ids: seq<UserId>, u: UserId)
    requires u in ids && FindMember(members, u).Some?
    ensures var date := TaskDate(c.startDate, t.dayNumber);
      Activity(FindMember(members, u).value, c, t, date, DateKey(date)) in UserEntries(members, c, t, date, DateKey(date), ids)
    decreases |ids|
  {
    if ids[|ids| - 1] != u {
      assert ids == ids[..|ids| - 1] + [ids[|ids| - 1]];
      UserEntriesComplete(members, c, t, ids[..|ids| - 1], u);
    }
  }

  lemma {:induction false} TaskEntriesComplete(members: seq<GroupMember>, c: Challenge, ts: seq<DayTask>, t: DayTask, u: UserId)
    requires t in ts && u in CompletedBy(t) && FindMember(members, u).Some?
    ensures var date := TaskDate(c.startDate, t.dayNumber);
      Activity(FindMember(members, u).value, c, t, date, DateKey(date)) in TaskEntries(members, c, ts)
    decreases |ts|
  {
    if ts[|ts| - 1] == t {
      UserEntriesComplete(members, c, t, CompletedBy(t), u);
    } else {
      assert ts == ts[..|ts| - 1] + [ts[|ts| - 1]];
      TaskEntriesComplete(members, c, ts[..|ts| - 1], t, u);
    }
  }

  lemma {:induction false} ChallengeEntriesComplete(members: seq<GroupMember>, cs: seq<Challenge>, c: Challenge, t: DayTask, u: UserId)
    requires c in cs && t in c.tasks && u in CompletedBy(t) && FindMember(members, u).Some?
    ensures var date := TaskDate(c.startDate, t.dayNumber);
      Activity(FindMember(members, u).value, c, t, date, DateKey(date)) in ChallengeEntries(members, cs)
    decreases |cs|
  {
    if cs[|cs| - 1] == c {
      TaskEntriesComplete(members, c, c.tasks, t, u);
    } else {
      assert cs == cs[..|cs| - 1] + [cs[|cs| - 1]];
      ChallengeEntriesComplete(members, cs[..|cs| - 1], c, t, u);
    }
  }

  /** Every entry comes from a completion by a member, and every completion
      of a task of the group by a member has its entry. */
  lemma EntriesSoundAndComplete(g: Group)
    ensures forall a :: a in Entries(g) ==> EntryOf(g, a)
    ensures forall c, t, u :: c in g.challenges && t in c.tasks && u in CompletedBy(t) && IsMember(g.members, u) ==>
      var date := TaskDate(c.startDate, t.dayNumber);
      Activity(FindMember(g.members, u).value, c, t, date, DateKey(date)) in Entries(g)
  {
    ChallengeEntriesSound(g, g.challenges);
    forall c, t, u | c in g.challenges && t in c.tasks && u in CompletedBy(t) && IsMember(g.members, u)
      ensures var date := TaskDate(c.startDate, t.dayNumber);
        Activity(FindMember(g.members, u).value, c, t, date, DateKey(date)) in Entries(g)
    {
      ChallengeEntriesComplete(g.members, g.challenges, c, t, u);
    }
  }

  // -------------------------------------------------------------- filters

  datatype Filters = Filters(member: string, challenge: string, date: string)

  const DefaultFilters := Filters("all", "all", "")

  /** `clearFilters`. */
  function ClearFilters(f: Filters): Filters {
    DefaultFilters
  }

  /** `hasFilters`: some filter is away from its default. */
  predicate HasFilters(f: Filters) {
    f.member != "all" || f.challenge != "all" || f.date != ""
  }

  lemma HasFiltersIff(f: Filters)
    ensures HasFilters(f) <==> f != DefaultFilters
    ensures !HasFilters(ClearFilters(f))
  {
  }

  function Keep(acts: seq<Activity>, p: Activity -> bool): (r: seq<Activity>)
    ensures forall a :: a in r <==> a in acts && p(a)
    decreases |acts|
  {
    if acts == [] then []
    else
      assert acts == [acts[0]] + acts[1..];
      (if p(acts[0]) then [acts[0]] else []) + Keep(acts[1..], p)
  }

  lemma {:induction false} KeepAppend(a: seq<Activity>, b: seq<Activity>, p: Activity -> bool)
    ensures Keep(a + b, p) == Keep(a, p) + Keep(b, p)
    decreases |a|
  {
    if a == [] {
      assert a + b == b;
    } else {
      assert (a + b)[1..] == a[1..] + b;
      KeepAppend(a[1..], b, p);
    }
  }

  /** Filtering by p and then by q keeps what both conditions keep. */
  lemma {:induction false} KeepKeep(acts: seq<Activity>, p: Activity -> bool, q: Activity -> bool)
    ensures Keep(Keep(acts, p), q) == Keep(acts, (a: Activity) => p(a) && q(a))
    decreases |acts|
  {
    if acts != [] {
      KeepKeep(acts[1..], p, q);
      var a := acts[0];
      var head := if p(a) then [a] else [];
      KeepAppend(head, Keep(acts[1..], p), q);
      assert Keep(head, q) == if p(a) && q(a) then [a] else [] by {
        if p(a) {
          assert head[1..] == [];
        }
      }
    }
  }

  /** So two filters can be applied in either order. */
  lemma KeepCommutes(acts: seq<Activity>, p: Activity -> bool, q: Activity -> bool)
    ensures Keep(Keep(acts, p), q) == Keep(Keep(acts, q), p)
  {
    KeepKeep(acts, p, q);
    KeepKeep(acts, q, p);
    KeepSame(acts, (a: Activity) => p(a) && q(a), (a: Activity) => q(a) && p(a));
  }

  predicate MemberMatches(f: Filters, a: Activity) {
    f.member == "all" || a.member.userId == f.member
  }

  predicate ChallengeMatches(f: Filters, a: Activity) {
    f.challenge == "all" || a.challenge.id == f.challenge
  }

  predicate DateMatches(f: Filters, a: Activity) {
    f.date == "" || a.dateString == f.date
  }

  /** The three filters, applied in the order of the source. */
  function ApplyFilters(acts: seq<Activity>, f: Filters): seq<Activity> {
    var byMember := if f.member != "all" then Keep(acts, (a: Activity) => a.member.userId == f.member) else acts;
    var byChallenge := if f.challenge != "all" then Keep(byMember, (a: Activity) => a.challenge.id == f.challenge) else byMember;
    if f.date != "" then Keep(byChallenge, (a: Activity) => a.dateString == f.date) else byChallenge
  }

  lemma {:induction false} KeepAll(acts: seq<Activity>, p: Activity -> bool)
    requires forall a :: p(a)
    ensures Keep(acts, p) == acts
    decreases |acts|
  {
    if acts != [] {
      KeepAll(acts[1..], p);
      assert [acts[0]] + acts[1..] == acts;
    }
  }

  lemma {:induction false} KeepSame(acts: seq<Activity>, p: Activity -> bool, q: Activity -> bool)
    requires forall a :: p(a) == q(a)
    ensures Keep(acts, p) == Keep(acts, q)
    decreases |acts|
  {
    if acts != [] {
      KeepSame(acts[1..], p, q);
    }
  }

  /** An entry passes all three filters. */
  function Matching(f: Filters): Activity -> bool {
    a => MemberMatches(f, a) && ChallengeMatches(f, a) && DateMatches(f, a)
  }

  /** A filter that is switched on keeps what p keeps, one that is off keeps
      everything: either way it keeps what q keeps. */
  lemma KeepWhen(acts: seq<Activity>, on: bool, p: Activity -> bool, q: Activity -> bool)
    requires forall a :: q(a) == (!on || p(a))
    ensures (if on then Keep(acts, p) else acts) == Keep(acts, q)
  {
    if on {
      KeepSame(acts, p, q);
    } else {
      KeepAll(acts, q);
    }
  }

  /** The three filters in a row are one filter by their conjunction. */
  lemma ApplyFiltersKeep(acts: seq<Activity>, f: Filters)
    ensures ApplyFilters(acts, f) == Keep(acts, Matching(f))
  {
    var m := (a: Activity) => MemberMatches(f, a);
    var c := (a: Activity) => ChallengeMatches(f, a);
    var d := (a: Activity) => DateMatches(f, a);
    var mc := (a: Activity) => m(a) && c(a);
    KeepWhen(acts, f.member != "all", (a: Activity) => a.member.userId == f.member, m);
    var byMember := Keep(acts, m);
    KeepWhen(byMember, f.challenge != "all", (a: Activity) => a.challenge.id == f.challenge, c);
    KeepKeep(acts, m, c);
    var byChallenge := Keep(acts, mc);
    KeepWhen(byChallenge, f.date != "", (a: Activity) => a.dateString == f.date, d);
    KeepKeep(acts, mc, d);
    KeepSame(acts, (a: Activity) => mc(a) && d(a), Matching(f));
  }

  /** The filters keep exactly the entries matching all three, in order, so
      the order in which they are applied does not matter; the default
      filters keep everything. */
  lemma ApplyFiltersSpec(acts: seq<Activity>, f: Filters)
    ensures ApplyFilters(acts, f) == Keep(acts, Matching(f))
    ensures forall a :: a in ApplyFilters(acts, f) <==> a in acts && MemberMatches(f, a) && ChallengeMatches(f, a) && DateMatches(f, a)
    ensures ApplyFilters(acts, DefaultFilters) == acts
  {
    ApplyFiltersKeep(acts, f);
    KeepAll(acts, Matching(DefaultFilters));
    ApplyFiltersKeep(acts, DefaultFilters);
  }

  // ------------------------------------------------------ order and buckets

  function DateOf(a: Activity): int {
    a.date
  }

  /** `filteredActivities`: the group's entries that pass the filters,
      newest task date first (entries of the same date keep their order). */
  method FilteredActivities(g: Group, f: Filters) returns (r: seq<Activity>)
    ensures multiset(r) == multiset(ApplyFilters(Entries(g), f))
    ensures SortedDesc(r, DateOf)
    ensures forall a :: a in r <==> a in Entries(g) && MemberMatches(f, a) && ChallengeMatches(f, a) && DateMatches(f, a)
    ensures forall a :: a in r ==> EntryOf(g, a)
    ensures forall v :: WithKey(r, DateOf, v) == WithKey(ApplyFilters(Entries(g), f), DateOf, v)
  {
    var all := Flatten(g);
    var filtered := ApplyFilters(all, f);
    r := SortDesc(filtered, DateOf);
    ApplyFiltersSpec(all, f);
    EntriesSoundAndComplete(g);
    forall v ensures WithKey(r, DateOf, v) == WithKey(filtered, DateOf, v) {
      SortStable(filtered, DateOf, v);
    }
    assert forall a :: a in r <==> a in multiset(filtered);
  }

  /** The entries, in order, whose date string is k. */
  function OnDate(acts: seq<Activity>, k: string): (r: seq<Activity>)
    ensures forall a :: a in r <==> a in acts && a.dateString == k
    decreases |acts|
  {
    if acts == [] then []
    else
      var init := acts[..|acts| - 1];
      assert acts == init + [acts[|acts| - 1]];
      OnDate(init, k) + (if acts[|acts| - 1].dateString == k then [acts[|acts| - 1]] else [])
  }

  function DateStrings(acts: seq<Activity>): set<string> {
    set a | a in acts :: a.dateString
  }

  lemma OnDateAbsent(acts: seq<Activity>, k: string)
    requires k !in DateStrings(acts)
    ensures OnDate(acts, k) == []
  {
    var r := OnDate(acts, k);
    assert forall a :: a !in r;
  }

  /** One more entry adds its date string and joins that date's bucket only. */
  lemma OnDateStep(acts: seq<Activity>, i: int)
    requires 0 <= i < |acts|
    ensures DateStrings(acts[..i + 1]) == DateStrings(acts[..i]) + {acts[i].dateString}
    ensures forall k :: OnDate(acts[..i + 1], k) == OnDate(acts[..i], k) + (if acts[i].dateString == k then [acts[i]] else [])
  {
    var s := acts[..i + 1];
    assert s[..|s| - 1] == acts[..i] && s[|s| - 1] == acts[i];
    assert s == acts[..i] + [acts[i]];
  }

  /** The buckets after filing one more entry under its date string. */
  function Added(buckets: map<string, seq<Activity>>, a: Activity): map<string, seq<Activity>> {
    buckets[a.dateString := (if a.dateString in buckets then buckets[a.dateString] else []) + [a]]
  }

  /** Filing the next entry keeps the buckets equal to the per-date lists of
      the entries seen so far. */
  lemma AddedStep(buckets: map<string, seq<Activity>>, acts: seq<Activity>, i: int)
    requires 0 <= i < |acts|
    requires buckets.Keys == DateStrings(acts[..i])
    requires forall k :: k in buckets ==> buckets[k] == OnDate(acts[..i], k)
    ensures Added(buckets, acts[i]).Keys == DateStrings(acts[..i + 1])
    ensures forall k :: k in Added(buckets, acts[i]) ==> Added(buckets, acts[i])[k] == OnDate(acts[..i + 1], k)
  {
    var key := acts[i].dateString;
    OnDateStep(acts, i);
    if key !in buckets {
      OnDateAbsent(acts[..i], key);
    }
    var next := Added(buckets, acts[i]);
    forall k | k in next ensures next[k] == OnDate(acts[..i + 1], k) {
      if k != key {
        assert next[k] == buckets[k];
      }
    }
  }

  /** `groupedActivities`: one bucket per date string, holding that date's
      entries in list order. */
  method GroupByDate(acts: seq<Activity>) returns (buckets: map<string, seq<Activity>>)
    ensures buckets.Keys == DateStrings(acts)
    ensures forall k :: k in buckets ==> buckets[k] == OnDate(acts, k)
  {
    buckets := map[];
    var i := 0;
    while i < |acts|
      invariant 0 <= i <= |acts|
      invariant buckets.Keys == DateStrings(acts[..i])
      invariant forall k :: k in buckets ==> buckets[k] == OnDate(acts[..i], k)
    {
      var key := acts[i].dateString;
      var bucket := if key in buckets then buckets[key] else [];
      AddedStep(buckets, acts, i);
      buckets := buckets[key := bucket + [acts[i]]];
      i := i + 1;
    }
    assert acts[..i] == acts;
  }

  /** The sum of the bucket sizes over a list of distinct keys. */
  function SumSizes(keys: seq<string>, acts: seq<Activity>): nat
    decreases |keys|
  {
    if keys == [] then 0 else |OnDate(acts, keys[0])| + SumSizes(keys[1..], acts)
  }

  lemma {:induction false} SumSizesSnoc(keys: seq<string>, acts: seq<Activity>, x: Activity)
    requires NoDuplicates(keys)
    ensures SumSizes(keys, acts + [x]) == SumSizes(keys, acts) + (if x.dateString in keys then 1 else 0)
    decreases |keys|
  {
    var s := acts + [x];
    assert s[..|s| - 1] == acts;
    if keys != [] {
      assert NoDuplicates(keys[1..]) by {
        forall i, j | 0 <= i < j < |keys[1..]| ensures keys[1..][i] != keys[1..][j] {
          assert keys[1..][i] == keys[i + 1] && keys[1..][j] == keys[j + 1];
        }
      }
      SumSizesSnoc(keys[1..], acts, x);
      if x.dateString == keys[0] {
        assert x.dateString !in keys[1..] by {
          forall i | 0 <= i < |keys[1..]| ensures keys[1..][i] != keys[0] {
            assert keys[1..][i] == keys[i + 1];
          }
        }
      } else {
        assert x.dateString in keys <==> x.dateString in keys[1..] by {
          assert keys == [keys[0]] + keys[1..];
        }
      }
    }
  }

  /** Every entry lands in exactly one bucket, so the bucket sizes add up to
      the number of entries. */
  lemma {:induction false} BucketSizesSum(keys: seq<string>, acts: seq<Activity>)
    requires NoDuplicates(keys) && DateStrings(acts) <= set k | k in keys
    ensures SumSizes(keys, acts) == |acts|
    decreases |acts|
  {
    if acts == [] {
      SumSizesEmpty(keys);
    } else {
      var init, x := acts[..|acts| - 1], acts[|acts| - 1];
      assert acts == init + [x];
      assert DateStrings(init) <= DateStrings(acts);
      BucketSizesSum(keys, init);
      SumSizesSnoc(keys, init, x);
      assert x.dateString in DateStrings(acts);
    }
  }

  lemma {:induction false} SumSizesEmpty(keys: seq<string>)
    ensures SumSizes(keys, []) == 0
    decreases |keys|
  {
    if keys != [] {
      SumSizesEmpty(keys[1..]);
    }
  }
}
