/** The order in which a year's team members are listed. */
module TeamOrder {
  import opened Options
  import opened StableSort

  datatype TeamRole = TeamRole(rank: int)
  datatype TeamGroup = TeamGroup(rank: int)
  datatype TeamMember = TeamMember(profile: Id, roles: seq<TeamRole>, group: TeamGroup)

  /** `sortRoleComparator` subtracts these; reading the first of no roles is an error, see `CanCompare`. */
  function RoleRank(member: TeamMember): int {
    if member.roles == [] then 0 else member.roles[0].rank
  }

  function GroupRank(member: TeamMember): int {
    member.group.rank
  }

  /** A sort of two or more members compares every one of them with another. */
  predicate CanCompare(members: seq<TeamMember>) {
    |members| <= 1 || forall m :: m in members ==> m.roles != []
  }

  function Ordered(found: seq<TeamMember>): seq<TeamMember> {
    SortBy(SortBy(found, RoleRank), GroupRank)
  }

  /** `getYearMembers` after the query: two sorts of the same array, one after the other. */
  method GetYearMembers(found: seq<TeamMember>) returns (members: Option<seq<TeamMember>>)
    ensures members.None? <==> |found| > 1 && exists m :: m in found && m.roles == []
    ensures members.Some? ==> members.value == Ordered(found)
  {
    if !CanCompare(found) {
      return None;
    }
    var list := new TeamMember[|found|](i requires 0 <= i < |found| => found[i]);
    assert list[..] == found;
    SortInPlace(list, RoleRank);
    SortInPlace(list, GroupRank);
    members := Some(list[..]);
  }

  ghost predicate ByProfile(a: TeamMember, b: TeamMember) {
    a.profile <= b.profile
  }

  /** Group rank first, then the rank of the first role, then the profile. */
  ghost predicate Precedes(a: TeamMember, b: TeamMember) {
    && a.group.rank <= b.group.rank
    && (a.group.rank == b.group.rank && a.roles != [] && b.roles != [] ==>
          && a.roles[0].rank <= b.roles[0].rank
          && (a.roles[0].rank == b.roles[0].rank ==> a.profile <= b.profile))
  }

  lemma PrecedesPairs(members: seq<TeamMember>)
    requires Pairwise(members, ThenBy(GroupRank, ThenBy(RoleRank, ByProfile)))
    ensures Pairwise(members, Precedes)
  {
    forall i, j | 0 <= i < j < |members| ensures Precedes(members[i], members[j]) {
      var a, b, byRole := members[i], members[j], ThenBy(RoleRank, ByProfile);
      assert ThenBy(GroupRank, byRole)(a, b);
      assert byRole(a, b) ==> RoleRank(a) < RoleRank(b) || (RoleRank(a) == RoleRank(b) && ByProfile(a, b));
    }
  }

  /** The members of the query, each as often as found, in the lexicographic order of group, first role and profile. */
  lemma MembersAreOrdered(found: seq<TeamMember>)
    requires Pairwise(found, ByProfile)
    ensures multiset(Ordered(found)) == multiset(found)
    ensures Pairwise(Ordered(found), Precedes)
  {
    SortIsStable(found, RoleRank, ByProfile);
    var byRole := SortBy(found, RoleRank);
    SortIsStable(byRole, GroupRank, ThenBy(RoleRank, ByProfile));
    PrecedesPairs(SortBy(byRole, GroupRank));
  }
}
