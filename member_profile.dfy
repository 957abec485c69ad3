/** The member profile page: the member chosen by the slug in the address, the
    events attributed to the member's team, the first name in the "About"
    heading and the text under it. The badge classes are the member list's. */
module MemberProfile {
  import opened Wrappers
  import opened Seqs
  import opened Strings
  import opened Records
  import DataContext

  /** A member created by `addMember` is found at its slug, unless an older
      member already has the same slug. */
  lemma NewMemberReachable(members: seq<Record>, member: Record, token: string, today: string)
    requires IsText(member, "name")
    ensures DataContext.NewMember(member, token, today).Some?
    ensures var m := DataContext.NewMember(member, token, today).value;
            var slug := DataContext.MemberSlug(Text(member, "name"));
            BySlug(members + [m], slug) ==
              if BySlug(members, slug).Some? then BySlug(members, slug) else Some(m)
  {
    var m := DataContext.NewMember(member, token, today).value;
    FindSnoc(members, m, SlugIs(DataContext.MemberSlug(Text(member, "name"))));
  }

  /** An event is attributed to the member when it has an organizer whose
      name contains the member's team, ignoring case. */
  predicate OrganizedByTeam(member: Record, e: Record)
  {
    Truthy(Get(e, "organizer")) && Matches(Text(e, "organizer"), Text(member, "team"))
  }

  function OrganizedBy(member: Record): Record -> bool
  {
    (e: Record) => OrganizedByTeam(member, e)
  }

  /** `memberEvents`. */
  function MemberEvents(events: seq<Record>, member: Record): (r: seq<Record>)
    ensures |r| <= |events|
    ensures forall i :: 0 <= i < |r| ==> OrganizedByTeam(member, r[i])
  {
    Filter(events, OrganizedBy(member))
  }

  /** The member's events are the catalog's events organized by the team, in order. */
  lemma MemberEventsExact(events: seq<Record>, member: Record)
    ensures IsSubseq(MemberEvents(events, member), events)
    ensures forall e :: e in MemberEvents(events, member) <==> e in events && OrganizedByTeam(member, e)
  {
    var f := OrganizedBy(member);
    FilterIsSubseq(events, f);
    forall e ensures e in Filter(events, f) <==> e in events && f(e) {
      FilterMembership(events, f, e);
    }
  }

  /** The "Event Contributions" card: absent when the member has no events,
      otherwise the first three and a "View All Events" link when there are more. */
  datatype EventsCard = NoEventsCard | Card(shown: seq<Record>, viewAll: bool)

  function EventsCardOf(events: seq<Record>, member: Record): (c: EventsCard)
    ensures c.NoEventsCard? <==> MemberEvents(events, member) == []
    ensures c.Card? ==> |c.shown| <= 3 && |c.shown| <= |MemberEvents(events, member)|
                        && c.shown == MemberEvents(events, member)[..|c.shown|]
    ensures c.Card? ==> (c.viewAll <==> |c.shown| < |MemberEvents(events, member)|)
    ensures c.Card? ==> |c.shown| == (if |MemberEvents(events, member)| < 3 then |MemberEvents(events, member)| else 3)
    ensures c.Card? ==> (c.viewAll <==> |MemberEvents(events, member)| > 3)
  {
    var mine := MemberEvents(events, member);
    if |mine| == 0 then NoEventsCard else Card(Take(mine, 3), |mine| > 3)
  }

  /** `member.name.split(' ')[0]`, shown in the "About" heading. */
  function FirstName(name: string): (first: string)
    ensures StartsWith(name, first)
    ensures !Contains(first, " ")
    ensures first == name || (|first| < |name| && name[|first|] == ' ')
  {
    SplitHead(name, " ");
    Split(name, " ")[0]
  }

  /** The first name is the text before the first space. */
  lemma FirstNameOf(first: string, rest: string)
    requires !Contains(first, " ")
    ensures FirstName(first + " " + rest) == first
  {
    assert first + " "[..0] == first;
    IndexOfAfterClean(first, " ", rest);
    assert (first + " " + rest)[..|first|] == first;
  }

  /** The text of the "About" card: the bio when it is truthy, otherwise a
      sentence made from the name, team and role (an absent one shows as
      `undefined`). */
  function AboutText(member: Record): (r: string)
    ensures Truthy(Get(member, "bio")) ==> r == Shown(Get(member, "bio"))
    ensures !Truthy(Get(member, "bio")) ==>
              StartsWith(r, Shown(Get(member, "name")))
              && Contains(r, Shown(Get(member, "team")) + " team")
              && Contains(r, "As a " + Shown(Get(member, "role")) + ",")
  {
    if Truthy(Get(member, "bio")) then Shown(Get(member, "bio"))
    else DefaultBio(Shown(Get(member, "name")), Shown(Get(member, "team")), Shown(Get(member, "role")))
  }

  const BioAfterName := " is a dedicated member of our IEEE Student Chapter, contributing to the "
  const BioAfterTeam := " with passion and expertise. "
  const BioAfterRole := " they play a crucial role in advancing our chapter's mission of technological innovation and professional development."

  /** The sentence shown for a member without a bio. */
  function DefaultBio(name: string, team: string, role: string): (r: string)
    ensures StartsWith(r, name)
    ensures Contains(r, team + " team")
    ensures Contains(r, "As a " + role + ",")
  {
    var a, b, c, d, e := name + BioAfterName, team + " team", BioAfterTeam, "As a " + role + ",", BioAfterRole;
    var r := a + b + c + d + e;
    assert r[..|name|] == name;
    Assoc(a + b, c, d);
    Assoc(a + b, c + d, e);
    ContainsSlice(a, b, c + d + e);
    ContainsSlice(a + b + c, d, e);
    r
  }

  lemma ContainsSlice(x: string, t: string, y: string)
    ensures Contains(x + t + y, t)
  {
    assert (x + t + y)[|x|..|x| + |t|] == t;
    ContainsAt(x + t + y, t, |x|);
  }
}
