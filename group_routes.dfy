/** The group routes: creating a group, listing the caller's groups, a
    group's details and members, updating a group and adding a member. */
module GroupRoutes {
  import opened Wrappers
  import opened Dates
  import opened Store

  datatype PenaltyInput = PenaltyInput(threshold: int, description: string)

  /** The request schema's rules for a group: a name of 1 to 50 characters
      and, when a penalty rule is sent, a positive threshold. */
  predicate ValidGroupName(name: string) {
    1 <= |name| <= 50
  }

  predicate ValidPenalty(p: Option<PenaltyInput>) {
    p.Some? ==> p.value.threshold > 0
  }

  /** The icon a group gets when none is sent, as the source file's literal
      reads: the three characters U+00E2, U+0153, U+00A8 (the sparkles
      emoji's UTF-8 bytes once decoded as Windows-1252 and re-encoded). */
  const DefaultIcon: string := "\U{E2}\U{153}\U{A8}"
  const DefaultTheme: string := "indigo"

  lemma KeysAppend<T, K>(s: seq<T>, key: T -> K, x: T)
    ensures Keys(s + [x], key) == Keys(s, key) + {key(x)}
  {
    var s' := s + [x];
    assert key(x) == key(s'[|s|]);
    forall k | k in Keys(s, key) ensures k in Keys(s', key) {
      var i :| 0 <= i < |s| && key(s[i]) == k;
      assert s'[i] == s[i];
    }
  }

  lemma KeysUpdate<T, K>(s: seq<T>, key: T -> K, i: int, x: T)
    requires 0 <= i < |s| && key(x) == key(s[i])
    ensures Keys(s[i := x], key) == Keys(s, key)
  {
    var s' := s[i := x];
    forall k | k in Keys(s, key) ensures k in Keys(s', key) {
      var j :| 0 <= j < |s| && key(s[j]) == k;
      assert key(s'[j]) == k;
    }
  }

  /** Every membership refers to an existing group. */
  predicate MembersReferToGroups(t: Tables) {
    forall i :: 0 <= i < |t.members| ==> t.members[i].groupId in Keys(t.groups, GroupKey)
  }

  function CreatorMembership(groupId: Id, callerId: Id, memberId: Id, now: Instant): MemberRow {
    MemberRow(memberId, groupId, callerId, "You", None, "admin", 0, 0, now)
  }

  function NewGroup(groupId: Id, callerId: Id, name: string, description: Option<string>, icon: Option<string>,
                    theme: Option<string>, now: Instant): GroupRow {
    GroupRow(groupId, name, description, icon.GetOr(DefaultIcon), theme.GetOr(DefaultTheme), callerId, now)
  }

  function CreatedPenalties(penalties: seq<PenaltyRow>, groupId: Id, p: Option<PenaltyInput>): seq<PenaltyRow> {
    if p.Some? then penalties + [PenaltyRow(groupId, p.value.threshold, p.value.description)] else penalties
  }

  /** POST /groups: the group, its creator as its one admin member, and a
      penalty rule only if one was sent. */
  method CreateGroup(db: Db, callerId: Id, name: string, description: Option<string>, icon: Option<string>,
                     theme: Option<string>, penalty: Option<PenaltyInput>, groupId: Id, memberId: Id, now: Instant)
    returns (status: int, memberCount: int)
    requires db.Valid()
    requires groupId !in Keys(db.tables.groups, GroupKey) && memberId !in Keys(db.tables.members, MemberKey)
    modifies db
    ensures db.Valid()
    ensures !(ValidGroupName(name) && ValidPenalty(penalty)) ==> status == 400 && db.tables == old(db.tables)
    ensures ValidGroupName(name) && ValidPenalty(penalty) ==>
      status == 201 && memberCount == 1 &&
      db.tables == old(db.tables).(
        groups := old(db.tables.groups) + [NewGroup(groupId, callerId, name, description, icon, theme, now)],
        members := old(db.tables.members) + [CreatorMembership(groupId, callerId, memberId, now)],
        penalties := CreatedPenalties(old(db.tables.penalties), groupId, penalty))
    ensures status == 201 ==> MembersOf(db.tables.members, groupId) == [CreatorMembership(groupId, callerId, memberId, now)]
  {
    if !(ValidGroupName(name) && ValidPenalty(penalty)) {
      return 400, 0;
    }
    var t := db.tables;
    var g := NewGroup(groupId, callerId, name, description, icon, theme, now);
    var m := CreatorMembership(groupId, callerId, memberId, now);
    assert forall i :: 0 <= i < |t.members| ==> t.members[i].groupId != groupId;
    assert MembershipKey(m) !in Keys(t.members, MembershipKey);
    UniqueAppend(t.groups, GroupKey, g);
    UniqueAppend(t.members, MemberKey, m);
    UniqueAppend(t.members, MembershipKey, m);
    KeysAppend(t.groups, GroupKey, g);
    var penalties := CreatedPenalties(t.penalties, groupId, penalty);
    if penalty.Some? {
      var p := PenaltyRow(groupId, penalty.value.threshold, penalty.value.description);
      assert forall i :: 0 <= i < |t.penalties| ==> t.penalties[i].groupId != groupId;
      UniqueAppend(t.penalties, PenaltyKey, p);
    }
    db.tables := t.(groups := t.groups + [g], members := t.members + [m], penalties := penalties);
    OnlyMemberOfNewGroup(t.members, m);
    memberCount := |MembersOf(db.tables.members, groupId)|;
    status := 201;
  }

  lemma OnlyMemberOfNewGroup(members: seq<MemberRow>, m: MemberRow)
    requires forall i :: 0 <= i < |members| ==> members[i].groupId != m.groupId
    ensures MembersOf(members + [m], m.groupId) == [m]
  {
    var p := (x: MemberRow) => x.groupId == m.groupId;
    WhereAppend(members, [m], p);
    WhereNone(members, p);
  }

  // ------------------------------------------------------------- list groups

  datatype GroupSummary = GroupSummary(
    id: Id, name: string, description: Option<string>, icon: string, theme: string, role: string,
    displayName: string, memberCount: int, activeChallenges: int, createdAt: Instant)

  function MyMemberships(members: seq<MemberRow>, callerId: Id): (r: seq<MemberRow>)
    ensures forall m :: m in r <==> m in members && m.userId == callerId
  {
    Where(members, (m: MemberRow) => m.userId == callerId)
  }

  function ActiveChallenges(challenges: seq<ChallengeRow>, groupId: Id): (r: seq<ChallengeRow>)
    ensures forall c :: c in r <==> c in challenges && c.groupId == groupId && c.status == "active"
  {
    Where(challenges, (c: ChallengeRow) => c.groupId == groupId && c.status == "active")
  }

  function Summary(t: Tables, m: MemberRow): GroupSummary
    requires m.groupId in Keys(t.groups, GroupKey)
  {
    var g := FindBy(t.groups, GroupKey, m.groupId).value;
    GroupSummary(g.id, g.name, g.description, g.icon, g.theme, m.role, m.displayName,
      |MembersOf(t.members, g.id)|, |ActiveChallenges(t.challenges, g.id)|, g.createdAt)
  }

  /** GET /groups: one summary per membership of the caller. */
  function ListGroups(t: Tables, callerId: Id): (r: seq<GroupSummary>)
    requires MembersReferToGroups(t)
    ensures |r| == |MyMemberships(t.members, callerId)|
    ensures forall i :: 0 <= i < |r| ==> r[i] == Summary(t, MyMemberships(t.members, callerId)[i])
  {
    var mine := MyMemberships(t.members, callerId);
    seq(|mine|, i requires 0 <= i < |mine| => Summary(t, mine[i]))
  }

  /** Each listed row is a group the caller belongs to, with the caller's
      own role in it and a member count that includes the caller. */
  lemma ListedRows(t: Tables, callerId: Id)
    requires Consistent(t)
    ensures var r := ListGroups(t, callerId);
      forall i :: 0 <= i < |r| ==> (r[i].id == MyMemberships(t.members, callerId)[i].groupId &&
        r[i].memberCount >= 1 && IsMemberOf(t.members, r[i].id, callerId) &&
        r[i].role == Membership(t.members, r[i].id, callerId).value.role)
  {
    var r := ListGroups(t, callerId);
    var mine := MyMemberships(t.members, callerId);
    forall i | 0 <= i < |r|
      ensures r[i].id == mine[i].groupId
      ensures r[i].memberCount >= 1 && IsMemberOf(t.members, r[i].id, callerId)
      ensures r[i].role == Membership(t.members, r[i].id, callerId).value.role
    {
      var m := mine[i];
      assert m in mine;
      var g := FindBy(t.groups, GroupKey, m.groupId).value;
      assert m in MembersOf(t.members, g.id);
      var k :| 0 <= k < |t.members| && t.members[k] == m;
      FindUniqueBy(t.members, MembershipKey, k);
    }
  }

  /** The list names each group the caller belongs to, and exactly once. */
  lemma ListedOnce(t: Tables, callerId: Id)
    requires Consistent(t)
    ensures var r := ListGroups(t, callerId);
      (forall i, j :: 0 <= i < j < |r| ==> r[i].id != r[j].id) &&
      (forall g :: g in t.groups && IsMemberOf(t.members, g.id, callerId) ==> exists i :: 0 <= i < |r| && r[i].id == g.id)
  {
    ListedDistinct(t, callerId);
    ListedAll(t, callerId);
  }

  lemma ListedDistinct(t: Tables, callerId: Id)
    requires Consistent(t)
    ensures var r := ListGroups(t, callerId);
      forall i, j :: 0 <= i < j < |r| ==> r[i].id != r[j].id
  {
    var r := ListGroups(t, callerId);
    var mine := MyMemberships(t.members, callerId);
    ListedRows(t, callerId);
    UniqueWhere(t.members, MembershipKey, (m: MemberRow) => m.userId == callerId);
    forall i, j | 0 <= i < j < |r| ensures r[i].id != r[j].id {
      assert MembershipKey(mine[i]) != MembershipKey(mine[j]);
      assert mine[i] in mine && mine[j] in mine;
    }
  }

  lemma ListedAll(t: Tables, callerId: Id)
    requires Consistent(t)
    ensures var r := ListGroups(t, callerId);
      forall g :: g in t.groups && IsMemberOf(t.members, g.id, callerId) ==> exists i :: 0 <= i < |r| && r[i].id == g.id
  {
    var r := ListGroups(t, callerId);
    var mine := MyMemberships(t.members, callerId);
    ListedRows(t, callerId);
    forall g | g in t.groups && IsMemberOf(t.members, g.id, callerId)
      ensures exists i :: 0 <= i < |r| && r[i].id == g.id
    {
      var m := Membership(t.members, g.id, callerId).value;
      assert m in mine;
      var i :| 0 <= i < |mine| && mine[i] == m;
      assert r[i].id == g.id;
    }
  }

  // ------------------------------------------------------- details, members

  datatype GroupDetail = GroupDetail(group: GroupRow, members: seq<MemberRow>, challenges: seq<ChallengeRow>, penalty: Option<PenaltyRow>)

  /** GET /groups/:groupId: 403 for a non-member, then 404 for a missing
      group. */
  function GroupDetails(t: Tables, callerId: Id, groupId: Id): (r: Reply<GroupDetail>)
    ensures !IsMemberOf(t.members, groupId, callerId) <==> r == Fail(403)
    ensures r.Ok? <==> IsMemberOf(t.members, groupId, callerId) && FindBy(t.groups, GroupKey, groupId).Some?
    ensures r.Ok? ==> (r.status == 200 && r.body.group.id == groupId && r.body.group in t.groups &&
      (forall m :: m in r.body.members <==> m in t.members && m.groupId == groupId) &&
      (forall c :: c in r.body.challenges <==> c in t.challenges && c.groupId == groupId) &&
      (r.body.penalty.Some? ==> r.body.penalty.value in t.penalties && r.body.penalty.value.groupId == groupId) &&
      (r.body.penalty.None? <==> forall j :: 0 <= j < |t.penalties| ==> t.penalties[j].groupId != groupId))
  {
    if !IsMemberOf(t.members, groupId, callerId) then Fail(403)
    else match FindBy(t.groups, GroupKey, groupId)
      case None => Fail(404)
      case Some(g) =>
        Ok(200, GroupDetail(g, MembersOf(t.members, groupId), ChallengesOf(t.challenges, groupId),
          FindBy(t.penalties, PenaltyKey, groupId)))
  }

  /** In a consistent store a member never meets the 404. */
  lemma MemberSeesDetails(t: Tables, callerId: Id, groupId: Id)
    requires Consistent(t) && IsMemberOf(t.members, groupId, callerId)
    ensures GroupDetails(t, callerId, groupId).Ok?
  {
    var m := Membership(t.members, groupId, callerId).value;
    var k :| 0 <= k < |t.members| && t.members[k] == m;
    assert groupId in Keys(t.groups, GroupKey);
  }

  /** GET /groups/:groupId/members. */
  function GroupMembers(t: Tables, callerId: Id, groupId: Id): (r: Reply<seq<MemberRow>>)
    ensures !IsMemberOf(t.members, groupId, callerId) <==> r == Fail(403)
    ensures r.Ok? ==> r.status == 200 && forall m :: m in r.body <==> m in t.members && m.groupId == groupId
  {
    if !IsMemberOf(t.members, groupId, callerId) then Fail(403)
    else Ok(200, MembersOf(t.members, groupId))
  }

  // -------------------------------------------------------------- update

  predicate IsAdminOf(members: seq<MemberRow>, groupId: Id, userId: Id) {
    IsMemberOf(members, groupId, userId) && Membership(members, groupId, userId).value.role == "admin"
  }

  /** Prisma leaves a field alone when it is handed `undefined`. */
  function PatchGroup(g: GroupRow, name: Option<string>, description: Option<string>, icon: Option<string>, theme: Option<string>): (r: GroupRow)
    ensures r.id == g.id && r.createdById == g.createdById && r.createdAt == g.createdAt
    ensures r.name == name.GetOr(g.name) && r.icon == icon.GetOr(g.icon) && r.theme == theme.GetOr(g.theme)
    ensures r.description == if description.Some? then description else g.description
  {
    g.(name := name.GetOr(g.name), description := if description.Some? then description else g.description,
       icon := icon.GetOr(g.icon), theme := theme.GetOr(g.theme))
  }

  /** The penalty rule `upsert`: update the group's rule or create it. */
  function UpsertPenalty(penalties: seq<PenaltyRow>, groupId: Id, p: PenaltyInput): (r: seq<PenaltyRow>)
    ensures var i := IndexOf(penalties, PenaltyKey, groupId);
      if i < 0 then r == penalties + [PenaltyRow(groupId, p.threshold, p.description)]
      else r == penalties[i := PenaltyRow(groupId, p.threshold, p.description)]
  {
    var row := PenaltyRow(groupId, p.threshold, p.description);
    var i := IndexOf(penalties, PenaltyKey, groupId);
    if i < 0 then penalties + [row] else penalties[i := row]
  }

  /** After the upsert the group has exactly the sent rule, and the other
      groups' rules are untouched. */
  lemma UpsertPenaltyEffect(penalties: seq<PenaltyRow>, groupId: Id, p: PenaltyInput)
    requires Unique(penalties, PenaltyKey)
    ensures var r := UpsertPenalty(penalties, groupId, p);
      Unique(r, PenaltyKey) && FindBy(r, PenaltyKey, groupId) == Some(PenaltyRow(groupId, p.threshold, p.description)) &&
      forall x :: x in penalties && x.groupId != groupId ==> x in r
  {
    var row := PenaltyRow(groupId, p.threshold, p.description);
    var r := UpsertPenalty(penalties, groupId, p);
    var i := IndexOf(penalties, PenaltyKey, groupId);
    if i < 0 {
      assert groupId !in Keys(penalties, PenaltyKey);
      UniqueAppend(penalties, PenaltyKey, row);
      FindUniqueBy(r, PenaltyKey, |penalties|);
    } else {
      UniqueUpdate(penalties, PenaltyKey, i, row);
      FindUniqueBy(r, PenaltyKey, i);
      forall x | x in penalties && x.groupId != groupId ensures x in r {
        var j :| 0 <= j < |penalties| && penalties[j] == x;
        assert r[j] == x;
      }
    }
  }

  /** PUT /groups/:groupId: admins only. */
  method UpdateGroup(db: Db, callerId: Id, groupId: Id, name: Option<string>, description: Option<string>, icon: Option<string>,
                     theme: Option<string>, penalty: Option<PenaltyInput>) returns (status: int)
    requires db.Valid()
    modifies db
    ensures db.Valid()
    ensures var t := old(db.tables);
      var i := IndexOf(t.groups, GroupKey, groupId);
      (!((name.None? || ValidGroupName(name.value)) && ValidPenalty(penalty)) ==> status == 400 && db.tables == t) &&
      ((name.None? || ValidGroupName(name.value)) && ValidPenalty(penalty) ==>
        (!IsAdminOf(t.members, groupId, callerId) ==> status == 403 && db.tables == t) &&
        (IsAdminOf(t.members, groupId, callerId) && i < 0 ==> status == 500 && db.tables == t) &&
        (IsAdminOf(t.members, groupId, callerId) && 0 <= i ==> (status == 200 &&
          db.tables == t.(groups := t.groups[i := PatchGroup(t.groups[i], name, description, icon, theme)],
            penalties := if penalty.Some? then UpsertPenalty(t.penalties, groupId, penalty.value) else t.penalties))))
  {
    if !((name.None? || ValidGroupName(name.value)) && ValidPenalty(penalty)) {
      return 400;
    }
    if !IsAdminOf(db.tables.members, groupId, callerId) {
      return 403;
    }
    var t := db.tables;
    var i := IndexOf(t.groups, GroupKey, groupId);
    if i < 0 {
      return 500;
    }
    var g := PatchGroup(t.groups[i], name, description, icon, theme);
    UniqueUpdate(t.groups, GroupKey, i, g);
    KeysUpdate(t.groups, GroupKey, i, g);
    var penalties := t.penalties;
    if penalty.Some? {
      UpsertPenaltyEffect(t.penalties, groupId, penalty.value);
      penalties := UpsertPenalty(t.penalties, groupId, penalty.value);
      assert groupId in Keys(t.groups, GroupKey) by {
        assert GroupKey(t.groups[i]) == groupId;
      }
      PenaltiesReferAfterUpsert(t.penalties, groupId, penalty.value, Keys(t.groups, GroupKey));
    }
    db.tables := t.(groups := t.groups[i := g], penalties := penalties);
    status := 200;
  }

  lemma PenaltiesReferAfterUpsert(penalties: seq<PenaltyRow>, groupId: Id, p: PenaltyInput, ids: set<Id>)
    requires groupId in ids && forall i :: 0 <= i < |penalties| ==> penalties[i].groupId in ids
    ensures var r := UpsertPenalty(penalties, groupId, p);
      forall i :: 0 <= i < |r| ==> r[i].groupId in ids
  {
  }

  // ------------------------------------------------------------ add member

  predicate ValidDisplayName(name: string) {
    1 <= |name| <= 30
  }

  /** The role a membership gets when none is given: the schema's default,
      which is not part of this model, is taken to be "member". */
  const DefaultRole: string := "member"

  function AddedMember(memberId: Id, groupId: Id, userId: Id, displayName: string, avatar: Option<string>, now: Instant): MemberRow {
    MemberRow(memberId, groupId, userId, displayName, avatar, DefaultRole, 0, 0, now)
  }

  /** The checks of POST /groups/:groupId/members, in order. */
  function AddMemberStatus(t: Tables, callerId: Id, groupId: Id, userId: Id, displayName: string): (status: int)
    ensures status in {201, 400, 403, 404}
    ensures status == 201 <==> (ValidDisplayName(displayName) && IsMemberOf(t.members, groupId, callerId) &&
      userId in Keys(t.users, UserKey) && !IsMemberOf(t.members, groupId, userId))
  {
    if !ValidDisplayName(displayName) then 400
    else if !IsMemberOf(t.members, groupId, callerId) then 403
    else if FindBy(t.users, UserKey, userId).None? then 404
    else if IsMemberOf(t.members, groupId, userId) then 400
    else 201
  }

  /** POST /groups/:groupId/members: exactly one membership is added, and
      the one-membership-per-user rule keeps holding. */
  method AddMember(db: Db, callerId: Id, groupId: Id, userId: Id, displayName: string, avatar: Option<string>, memberId: Id, now: Instant)
    returns (status: int)
    requires db.Valid()
    requires memberId !in Keys(db.tables.members, MemberKey)
    modifies db
    ensures db.Valid()
    ensures status == AddMemberStatus(old(db.tables), callerId, groupId, userId, displayName)
    ensures status != 201 ==> db.tables == old(db.tables)
    ensures status == 201 ==>
      db.tables == old(db.tables).(members := old(db.tables.members) + [AddedMember(memberId, groupId, userId, displayName, avatar, now)])
  {
    status := AddMemberStatus(db.tables, callerId, groupId, userId, displayName);
    if status != 201 {
      return;
    }
    var t := db.tables;
    var m := AddedMember(memberId, groupId, userId, displayName, avatar, now);
    var caller := Membership(t.members, groupId, callerId).value;
    assert groupId in Keys(t.groups, GroupKey) by {
      var k :| 0 <= k < |t.members| && t.members[k] == caller;
    }
    UniqueAppend(t.members, MemberKey, m);
    UniqueAppend(t.members, MembershipKey, m);
    db.tables := t.(members := t.members + [m]);
  }

  /** After a successful add the new user is a member, with the default
      role, and a second identical request is refused with 400. */
  lemma AddMemberTwiceRefused(t: Tables, callerId: Id, groupId: Id, userId: Id, displayName: string, avatar: Option<string>, memberId: Id, now: Instant)
    requires AddMemberStatus(t, callerId, groupId, userId, displayName) == 201
    ensures var t' := t.(members := t.members + [AddedMember(memberId, groupId, userId, displayName, avatar, now)]);
      IsMemberOf(t'.members, groupId, userId) && AddMemberStatus(t', callerId, groupId, userId, displayName) == 400
  {
    var m := AddedMember(memberId, groupId, userId, displayName, avatar, now);
    var t' := t.(members := t.members + [m]);
    assert t'.members[|t.members|] == m;
    var c := Membership(t.members, groupId, callerId).value;
    var k :| 0 <= k < |t.members| && t.members[k] == c;
    assert t'.members[k] == c;
  }
}
