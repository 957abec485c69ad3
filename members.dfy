/** The members list page: the search and filter controls, the statistics,
    the badge classes (which the member profile page shares) and the skills
    preview on each card. */
module Members {
  import opened Wrappers
  import opened Seqs
  import opened Strings
  import opened Records
  import Events

  /** The filter a member must pass: the search term occurs, ignoring case, in
      the name, role or department, and team, year and status equal the
      selected ones unless those are `'all'`. */
  predicate MemberMatches(m: Record, term: string, team: string, year: string, status: string)
  {
    (Matches(Text(m, "name"), term) || Matches(Text(m, "role"), term) || Matches(Text(m, "department"), term))
    && (team == "all" || FieldIs(m, "team", team))
    && (year == "all" || FieldIs(m, "year", year))
    && (status == "all" || FieldIs(m, "status", status))
  }

  function MemberFilter(term: string, team: string, year: string, status: string): Record -> bool
  {
    (m: Record) => MemberMatches(m, term, team, year, status)
  }

  /** `filteredMembers`. */
  function FilteredMembers(members: seq<Record>, term: string, team: string, year: string, status: string): (r: seq<Record>)
    ensures |r| <= |members|
    ensures forall i :: 0 <= i < |r| ==> MemberMatches(r[i], term, team, year, status)
  {
    Filter(members, MemberFilter(term, team, year, status))
  }

  /** The filtered list is the members that pass the filter, in catalog order. */
  lemma FilteredMembersExact(members: seq<Record>, term: string, team: string, year: string, status: string)
    ensures IsSubseq(FilteredMembers(members, term, team, year, status), members)
    ensures forall m :: m in FilteredMembers(members, term, team, year, status) <==>
              m in members && MemberMatches(m, term, team, year, status)
  {
    var p := MemberFilter(term, team, year, status);
    FilterIsSubseq(members, p);
    forall m ensures m in Filter(members, p) <==> m in members && p(m) {
      FilterMembership(members, p, m);
    }
  }

  datatype MemberStats = MemberStats(total: nat, active: nat, alumni: nat, teams: nat)

  function TeamOf(m: Record): Option<Value>
  {
    Get(m, "team")
  }

  function StatusIs(status: string): Record -> bool
  {
    (m: Record) => FieldIs(m, "status", status)
  }

  /** `memberStats`: active and alumni members are disjoint parts of the total,
      and `teams` is the number of distinct `team` values. */
  function MemberStatsOf(members: seq<Record>): (s: MemberStats)
    ensures s.total == |members|
    ensures s.active + s.alumni <= s.total
    ensures s.teams == |Image(members, TeamOf)|
  {
    FilterDisjointCounts(members, StatusIs("active"), StatusIs("alumni"));
    DistinctMapCount(members, TeamOf);
    MemberStats(|members|, |Filter(members, StatusIs("active"))|, |Filter(members, StatusIs("alumni"))|,
                |Distinct(MapSeq(members, TeamOf))|)
  }

  const TeamClasses: map<string, string> := map[
    "technical" := "team-technical",
    "management" := "team-management",
    "marketing" := "team-marketing",
    "design" := "team-design"]

  const StatusClasses: map<string, string> := map[
    "active" := "status-active",
    "alumni" := "status-alumni",
    "inactive" := "status-inactive"]

  /** `getTeamBadgeClass`: an unknown team gets the technical team's class. */
  function TeamBadgeClass(team: string): (c: string)
    ensures c == "team-technical" <==> team !in {"management", "marketing", "design"}
    ensures c in TeamClasses.Values
  {
    assert TeamClasses["technical"] == "team-technical";
    Events.Lookup(TeamClasses, team, "team-technical")
  }

  /** `getStatusBadgeClass`: an unknown status gets the inactive class. */
  function StatusBadgeClass(status: string): (c: string)
    ensures c == "status-inactive" <==> status !in {"active", "alumni"}
    ensures c in StatusClasses.Values
  {
    assert StatusClasses["inactive"] == "status-inactive";
    Events.Lookup(StatusClasses, status, "status-inactive")
  }

  /** The skills row of a member card: nothing when there are no skills,
      otherwise at most three skills and a `+k` badge for the rest. */
  datatype SkillsPreview = NoSkills | Preview(shown: seq<string>, more: Option<nat>)

  function SkillsPreviewOf(m: Record): (p: SkillsPreview)
    ensures p.NoSkills? <==> |List(m, "skills")| == 0
    ensures p.Preview? ==> |p.shown| <= 3 && |p.shown| <= |List(m, "skills")| && p.shown == List(m, "skills")[..|p.shown|]
    ensures p.Preview? ==> |p.shown| == (if |List(m, "skills")| < 3 then |List(m, "skills")| else 3)
    ensures p.Preview? ==> (p.more.Some? <==> |List(m, "skills")| > 3)
    ensures p.Preview? ==> |p.shown| + (if p.more.Some? then p.more.value else 0) == |List(m, "skills")|
  {
    var skills := List(m, "skills");
    if |skills| == 0 then NoSkills
    else Preview(Take(skills, 3), if |skills| > 3 then Some(|skills| - 3) else None)
  }
}
