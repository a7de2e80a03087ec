/** The shared entities of the local-first app (types.ts): groups, their
    members, challenges and the day-tasks of a challenge. Optional fields of
    the TypeScript interfaces are `Option`s; dates are local instants. */
module AppTypes {
  import opened Wrappers
  import Dates

  type UserId = string

  datatype Category = Fitness | Learning | Mindfulness | Productivity | Health | Other

  /** The schedule patterns of a challenge. */
  datatype Frequency = Daily | TwoDays | ThreeDays | Weekly | Weekdays | Custom

  datatype Role = Admin | Member

  datatype Mode = Solo | Duo

  datatype SetupStatus = Setup | Active

  datatype DayTask = DayTask(
    dayNumber: int,
    title: string,
    description: Option<string>,
    isCompleted: Option<bool>,
    completedBy: Option<seq<UserId>>)

  datatype Challenge = Challenge(
    id: string,
    groupId: string,
    title: string,
    description: string,
    category: Category,
    startDate: Dates.Instant,
    durationDays: int,
    tasks: seq<DayTask>,
    color: string,
    createdAt: int,
    mode: Mode,
    status: Option<SetupStatus>,
    deleteApprovals: Option<seq<UserId>>,
    deadlineTime: Option<string>,
    frequency: Option<Frequency>,
    customFrequencyDays: Option<int>)

  datatype GroupMember = GroupMember(
    userId: UserId,
    displayName: string,
    avatar: string,
    role: Role,
    joinedAt: int,
    strikes: Option<int>,
    penaltiesPaid: Option<int>)

  datatype PenaltyConfig = PenaltyConfig(threshold: int, description: string)

  datatype Group = Group(
    id: string,
    name: string,
    icon: string,
    theme: Option<string>,
    members: seq<GroupMember>,
    pendingRequests: seq<GroupMember>,
    challenges: seq<Challenge>,
    createdAt: int,
    deleteApprovals: Option<seq<UserId>>,
    penaltyConfig: Option<PenaltyConfig>)

  /** `task.completedBy || []`. */
  function CompletedBy(t: DayTask): seq<UserId> {
    t.completedBy.GetOr([])
  }

  /** `members.find(m => m.userId === userId)`: the first member with that id. */
  function FindMember(members: seq<GroupMember>, userId: UserId): (r: Option<GroupMember>)
    ensures r.Some? <==> exists i :: 0 <= i < |members| && members[i].userId == userId
    ensures r.Some? ==> r.value in members && r.value.userId == userId
  {
    if members == [] then None
    else if members[0].userId == userId then Some(members[0])
    else FindMember(members[1..], userId)
  }

  /** Some member of the list has this user id. */
  predicate IsMember(members: seq<GroupMember>, userId: UserId) {
    exists i :: 0 <= i < |members| && members[i].userId == userId
  }
}
