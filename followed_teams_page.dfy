/**
 * The decision logic of the followed-teams page: the filtered view of the
 * teams the user follows, and the short list of catalog teams offered for
 * following.
 */
module FollowedTeamsPage {
  import opened Wrappers
  import opened Strings
  import opened Arrays

  /** How many catalog teams the discovery section shows. */
  const DiscoveryLimit: nat := 3

  /**
   * A team as the page reads it. Only `id`, `name`, `prefecture` and `city`
   * take part in any decision; the other fields are carried along unchanged.
   */
  datatype Team = Team(
    id: string,
    name: string,
    prefecture: string,
    city: Option<string>,
    level: string,
    rating: real,
    logoUrl: string,
    availableSlotsText: Option<string>,
    isFavorite: bool)

  // ---------------------------------------------------------------------
  // Filtering the followed teams
  // ---------------------------------------------------------------------

  /** `team.city || ''`: a missing city reads as the empty string. */
  function CityText(t: Team): string {
    match t.city
    case None => ""
    case Some(c) => c
  }

  /** A non-empty prefecture criterion must equal the team's prefecture exactly. */
  predicate PrefectureMatch(t: Team, pref: string) {
    pref == "" || t.prefecture == pref
  }

  /** A non-empty city criterion must occur, ignoring case, in the team's city. */
  predicate CityMatch(t: Team, city: string) {
    city == "" || Includes(ToLower(CityText(t)), ToLower(city))
  }

  /** A non-empty search term must occur, ignoring case, in the team's name. */
  predicate NameMatch(t: Team, term: string) {
    term == "" || Includes(ToLower(t.name), ToLower(term))
  }

  /** All three criteria hold at once. */
  predicate MatchesCriteria(t: Team, pref: string, city: string, term: string) {
    PrefectureMatch(t, pref) && CityMatch(t, city) && NameMatch(t, term)
  }

  function CriteriaTest(pref: string, city: string, term: string): Team -> bool {
    (t: Team) => MatchesCriteria(t, pref, city, term)
  }

  /** The followed teams shown under the current prefecture, city and name criteria. */
  function FilterFollowed(followed: seq<Team>, pref: string, city: string, term: string): (r: seq<Team>)
    ensures |r| <= |followed|
  {
    Filter(CriteriaTest(pref, city, term), followed)
  }

  /** The three criteria, stated with the substring specification rather than the scan. */
  ghost predicate SatisfiesCriteria(t: Team, pref: string, city: string, term: string) {
    && (pref == "" || t.prefecture == pref)
    && (city == "" || Contains(ToLower(CityText(t)), ToLower(city)))
    && (term == "" || Contains(ToLower(t.name), ToLower(term)))
  }

  lemma MatchesCriteriaSpec(t: Team, pref: string, city: string, term: string)
    ensures MatchesCriteria(t, pref, city, term) <==> SatisfiesCriteria(t, pref, city, term)
  {
    IncludesIffContains(ToLower(CityText(t)), ToLower(city));
    IncludesIffContains(ToLower(t.name), ToLower(term));
  }

  /** The filtered view keeps the followed teams' order and adds or repeats nothing. */
  lemma FilterFollowedIsSubsequence(followed: seq<Team>, pref: string, city: string, term: string)
    ensures IsSubsequence(FilterFollowed(followed, pref, city, term), followed)
    ensures multiset(FilterFollowed(followed, pref, city, term)) <= multiset(followed)
  {
    FilterIsSubsequence(CriteriaTest(pref, city, term), followed);
    SubsequenceMultiset(FilterFollowed(followed, pref, city, term), followed);
  }

  /** A team is shown exactly when it is followed and meets all three criteria. */
  lemma FilterFollowedMembership(followed: seq<Team>, pref: string, city: string, term: string, t: Team)
    ensures t in FilterFollowed(followed, pref, city, term) <==> t in followed && SatisfiesCriteria(t, pref, city, term)
  {
    FilterMembership(CriteriaTest(pref, city, term), followed, t);
    MatchesCriteriaSpec(t, pref, city, term);
  }

  /** A team meeting the criteria is shown as often as it is followed; any other team never is. */
  lemma FilterFollowedOccurrences(followed: seq<Team>, pref: string, city: string, term: string, t: Team)
    ensures multiset(FilterFollowed(followed, pref, city, term))[t]
         == if SatisfiesCriteria(t, pref, city, term) then multiset(followed)[t] else 0
  {
    FilterMultiset(CriteriaTest(pref, city, term), followed, t);
    MatchesCriteriaSpec(t, pref, city, term);
  }

  /** With every criterion empty, all followed teams are shown, in order. */
  lemma FilterFollowedNoCriteria(followed: seq<Team>)
    ensures FilterFollowed(followed, "", "", "") == followed
  {
    FilterKeepsAll(CriteriaTest("", "", ""), followed);
  }

  /** A non-empty prefecture criterion is compared exactly, without case folding. */
  lemma FilterFollowedPrefectureExact(followed: seq<Team>, pref: string, city: string, term: string)
    requires pref != ""
    ensures forall t :: t in FilterFollowed(followed, pref, city, term) ==> t.prefecture == pref
  {
  }

  /** A team without a city (or with an empty one) is dropped by any non-empty city criterion. */
  lemma FilterFollowedNoCity(followed: seq<Team>, pref: string, city: string, term: string, t: Team)
    requires city != "" && CityText(t) == ""
    ensures t !in FilterFollowed(followed, pref, city, term)
  {
    FilterMembership(CriteriaTest(pref, city, term), followed, t);
    ToLowerEmpty(city);
    EmptyNeedle("", ToLower(city));
  }

  /** City and name criteria with the same lower-case form select the same teams. */
  lemma FilterFollowedCaseInsensitive(followed: seq<Team>, pref: string, city1: string, city2: string, term1: string, term2: string)
    requires ToLower(city1) == ToLower(city2) && ToLower(term1) == ToLower(term2)
    ensures FilterFollowed(followed, pref, city1, term1) == FilterFollowed(followed, pref, city2, term2)
  {
    ToLowerEmpty(city1); ToLowerEmpty(city2);
    ToLowerEmpty(term1); ToLowerEmpty(term2);
    FilterCongruent(CriteriaTest(pref, city1, term1), CriteriaTest(pref, city2, term2), followed);
  }

  /** Typing the criteria in lower case already changes nothing. */
  lemma FilterFollowedLowered(followed: seq<Team>, pref: string, city: string, term: string)
    ensures FilterFollowed(followed, pref, ToLower(city), ToLower(term)) == FilterFollowed(followed, pref, city, term)
  {
    ToLowerIdempotent(city);
    ToLowerIdempotent(term);
    FilterFollowedCaseInsensitive(followed, pref, ToLower(city), city, ToLower(term), term);
  }

  // ---------------------------------------------------------------------
  // The discovery sample
  // ---------------------------------------------------------------------

  function SameId(id: string): Team -> bool {
    (ft: Team) => ft.id == id
  }

  /** `followedTeams.find(ft => ft.id === t.id)` finds a team. */
  predicate IsFollowed(t: Team, followed: seq<Team>) {
    Find(SameId(t.id), followed).Some?
  }

  /** `t.id !== managedTeamId && !followedTeams.find(...)`. */
  predicate Eligible(t: Team, followed: seq<Team>, managed: Option<string>) {
    (managed.None? || t.id != managed.value) && !IsFollowed(t, followed)
  }

  function EligibleTest(followed: seq<Team>, managed: Option<string>): Team -> bool {
    (t: Team) => Eligible(t, followed, managed)
  }

  /** The catalog teams that may be offered, in catalog order. */
  function DiscoveryCandidates(all: seq<Team>, followed: seq<Team>, managed: Option<string>): (r: seq<Team>)
    ensures |r| <= |all|
  {
    Filter(EligibleTest(followed, managed), all)
  }

  /** `allTeams.filter(...).slice(0, limit)`. */
  function DiscoverySample(all: seq<Team>, followed: seq<Team>, managed: Option<string>, limit: nat): (r: seq<Team>)
    ensures |r| <= limit
  {
    Take(DiscoveryCandidates(all, followed, managed), limit)
  }

  /** The sample the page renders: at most `DiscoveryLimit` (three) teams. */
  function DiscoveryShown(all: seq<Team>, followed: seq<Team>, managed: Option<string>): (r: seq<Team>)
    ensures |r| <= DiscoveryLimit
  {
    DiscoverySample(all, followed, managed, DiscoveryLimit)
  }

  /** No followed team has this team's id. */
  ghost predicate Unfollowed(t: Team, followed: seq<Team>) {
    forall f :: f in followed ==> f.id != t.id
  }

  /** Reference selection: walk the catalog, keep eligible teams, stop once `limit` are kept. */
  ghost function CollectEligible(all: seq<Team>, followed: seq<Team>, managed: Option<string>, limit: nat): seq<Team>
    decreases |all|
  {
    if limit == 0 || all == [] then []
    else if managed != Some(all[0].id) && Unfollowed(all[0], followed) then
      [all[0]] + CollectEligible(all[1..], followed, managed, limit - 1)
    else CollectEligible(all[1..], followed, managed, limit)
  }

  /** The id test: eligible exactly when the id is not the managed one and no followed team shares it. */
  lemma EligibleIff(t: Team, followed: seq<Team>, managed: Option<string>)
    ensures Eligible(t, followed, managed) <==> managed != Some(t.id) && Unfollowed(t, followed)
  {
    if !Unfollowed(t, followed) {
      var f :| f in followed && f.id == t.id;
      var i :| 0 <= i < |followed| && followed[i] == f;
      assert SameId(t.id)(followed[i]);
    }
  }

  /** No offered team is the managed team or shares an id with a followed team. */
  lemma DiscoveryDisjoint(all: seq<Team>, followed: seq<Team>, managed: Option<string>, limit: nat)
    ensures forall t :: t in DiscoverySample(all, followed, managed, limit) ==>
      managed != Some(t.id) && forall f :: f in followed ==> f.id != t.id
  {
    var sample := DiscoverySample(all, followed, managed, limit);
    forall t | t in sample ensures managed != Some(t.id) && Unfollowed(t, followed) {
      FilterMembership(EligibleTest(followed, managed), all, t);
      EligibleIff(t, followed, managed);
    }
  }

  /** The sample is the first `min(limit, #eligible)` eligible catalog teams. */
  lemma DiscoveryBounds(all: seq<Team>, followed: seq<Team>, managed: Option<string>, limit: nat)
    ensures var sample := DiscoverySample(all, followed, managed, limit);
      var candidates := DiscoveryCandidates(all, followed, managed);
      && sample <= candidates
      && |sample| <= limit && |sample| <= |candidates|
      && |sample| == (if limit <= |candidates| then limit else |candidates|)
  {
  }

  /** The sample keeps the catalog order and adds nothing. */
  lemma DiscoveryIsSubsequence(all: seq<Team>, followed: seq<Team>, managed: Option<string>, limit: nat)
    ensures IsSubsequence(DiscoverySample(all, followed, managed, limit), all)
  {
    var candidates := DiscoveryCandidates(all, followed, managed);
    FilterIsSubsequence(EligibleTest(followed, managed), all);
    PrefixIsSubsequence(DiscoverySample(all, followed, managed, limit), candidates);
    SubsequenceTransitive(DiscoverySample(all, followed, managed, limit), candidates, all);
  }

  /** Filter-then-slice selects what the walk that stops at `limit` selects. */
  lemma {:induction false} DiscoveryIsCollect(all: seq<Team>, followed: seq<Team>, managed: Option<string>, limit: nat)
    ensures DiscoverySample(all, followed, managed, limit) == CollectEligible(all, followed, managed, limit)
    decreases |all|
  {
    if limit == 0 || all == [] {
    } else {
      var p := EligibleTest(followed, managed);
      DiscoveryIsCollect(all[1..], followed, managed, limit - 1);
      DiscoveryIsCollect(all[1..], followed, managed, limit);
      EligibleIff(all[0], followed, managed);
      if p(all[0]) {
        assert Filter(p, all) == [all[0]] + Filter(p, all[1..]);
      } else {
        assert Filter(p, all) == Filter(p, all[1..]);
      }
    }
  }

  /** Without a managed team, only teams sharing an id with a followed team are held back. */
  lemma DiscoveryUnmanaged(all: seq<Team>, followed: seq<Team>, limit: nat)
    ensures DiscoverySample(all, followed, None, limit)
         == Take(Filter((t: Team) => Unfollowed(t, followed), all), limit)
  {
    forall i | 0 <= i < |all| ensures EligibleTest(followed, None)(all[i]) == Unfollowed(all[i], followed) {
      EligibleIff(all[i], followed, None);
    }
    FilterCongruent(EligibleTest(followed, None), (t: Team) => Unfollowed(t, followed), all);
  }

  /** The rendered sample: at most `DiscoveryLimit` teams, all eligible, the first ones in catalog order. */
  lemma DiscoveryShownBounds(all: seq<Team>, followed: seq<Team>, managed: Option<string>)
    ensures var shown := DiscoveryShown(all, followed, managed);
      var candidates := DiscoveryCandidates(all, followed, managed);
      && shown <= candidates
      && |shown| == (if DiscoveryLimit <= |candidates| then DiscoveryLimit else |candidates|)
      && shown == CollectEligible(all, followed, managed, DiscoveryLimit)
  {
    DiscoveryBounds(all, followed, managed, DiscoveryLimit);
    DiscoveryIsCollect(all, followed, managed, DiscoveryLimit);
  }

  // ---------------------------------------------------------------------
  // Worked examples
  // ---------------------------------------------------------------------

  // Each example constrains only the fields its decision reads; the other
  // fields of the teams are arbitrary.

  /** Selecting the prefecture 東京都 keeps the 東京都 team and drops the 大阪府 one. */
  lemma PrefectureScenario(shibuya: Team, osaka: Team)
    requires shibuya.prefecture == "東京都" && osaka.prefecture == "大阪府"
    ensures FilterFollowed([shibuya, osaka], "東京都", "", "") == [shibuya]
  {
    var p := CriteriaTest("東京都", "", "");
    assert osaka.prefecture[0] != "東京都"[0];
    assert p(shibuya) && !p(osaka);
    assert Filter(p, [shibuya, osaka]) == [shibuya] + Filter(p, [osaka]);
    assert Filter(p, [osaka]) == [] + Filter(p, []);
  }

  /** Lower-casing the search term and the two example names, one character at a time.
      Each literal is bound to a parameter so that the solver checks it one character at a
      time, instead of unfolding `ToLower` on the literal itself. */
  lemma UnitedLowered(term: string)
    requires term == "united"
    ensures ToLower(term) == "united"
  {
    assert forall k :: 0 <= k < 6 ==> Lower(term[k]) == "united"[k];
    ToLowerFromChars(term, "united");
  }

  lemma OsakaLowered(name: string)
    requires name == "Osaka United"
    ensures ToLower(name) == "osaka united"
  {
    assert forall k :: 0 <= k < 12 ==> Lower(name[k]) == "osaka united"[k];
    ToLowerFromChars(name, "osaka united");
  }

  lemma ShibuyaLowered(name: string)
    requires name == "Shibuya FC"
    ensures ToLower(name) == "shibuya fc"
  {
    assert forall k :: 0 <= k < 10 ==> Lower(name[k]) == "shibuya fc"[k];
    ToLowerFromChars(name, "shibuya fc");
  }

  /** "united" occurs in "osaka united" and not in "shibuya fc". */
  lemma NameScenarioSearch()
    ensures Includes("osaka united", "united")
    ensures !Includes("shibuya fc", "united")
  {
    assert OccursAt("osaka united", "united", 6) by {
      assert "osaka united"[6..12] == "united";
    }
    IncludesIffContains("osaka united", "united");
    var h: string := "shibuya fc";
    forall i | 0 <= i <= 4 ensures !OccursAt(h, "united", i) {
      assert h[i + 1] != 'n';
      assert h[i..i + 6][1] == h[i + 1];
    }
    IncludesIffContains(h, "united");
  }

  /** The term "united" matches the name "Osaka United". */
  lemma OsakaMatchesUnited(t: Team)
    requires t.name == "Osaka United"
    ensures NameMatch(t, "united")
  {
    UnitedLowered("united");
    OsakaLowered(t.name);
    NameScenarioSearch();
  }

  /** The term "united" does not match the name "Shibuya FC". */
  lemma ShibuyaMissesUnited(t: Team)
    requires t.name == "Shibuya FC"
    ensures !NameMatch(t, "united")
  {
    UnitedLowered("united");
    ShibuyaLowered(t.name);
    NameScenarioSearch();
  }

  /** Searching for "united" keeps "Osaka United" and drops "Shibuya FC". */
  lemma NameScenario(shibuya: Team, osaka: Team)
    requires shibuya.name == "Shibuya FC" && osaka.name == "Osaka United"
    ensures FilterFollowed([shibuya, osaka], "", "", "united") == [osaka]
  {
    var p := CriteriaTest("", "", "united");
    OsakaMatchesUnited(osaka);
    ShibuyaMissesUnited(shibuya);
    assert p(osaka) && !p(shibuya);
    assert Filter(p, [shibuya, osaka]) == Filter(p, [osaka]);
    assert Filter(p, [osaka]) == [osaka] + Filter(p, []);
  }

  /** The term "aB" matches the names "abcd" and "ABCD" alike. */
  lemma CaseScenario(lower: Team, upper: Team)
    requires lower.name == "abcd" && upper.name == "ABCD"
    ensures NameMatch(lower, "aB") && NameMatch(upper, "aB")
  {
    var needle := ToLower("aB");
    assert needle == "ab" by {
      assert needle[0] == 'a' && needle[1] == 'b';
    }
    var l := ToLower(lower.name);
    var u := ToLower(upper.name);
    assert l[..2] == "ab" by { assert l[0] == 'a' && l[1] == 'b'; }
    assert u[..2] == "ab" by { assert u[0] == 'a' && u[1] == 'b'; }
  }

  /** Catalog 1..4, a followed record with id 2, team 3 managed, limit 2: teams 1 and 4 are offered, in that order.
      The followed record `f` need not equal catalog team `b`: exclusion goes by id. */
  lemma DiscoveryScenario(a: Team, b: Team, c: Team, d: Team, f: Team)
    requires a.id == "1" && b.id == "2" && c.id == "3" && d.id == "4" && f.id == "2"
    ensures DiscoverySample([a, b, c, d], [f], Some("3"), 2) == [a, d]
  {
    DiscoveryIsCollect([a, b, c, d], [f], Some("3"), 2);
    var managed := Some("3");
    assert a.id != f.id && d.id != f.id && a.id != "3" && d.id != "3";
    assert Unfollowed(a, [f]) && !Unfollowed(b, [f]) && Unfollowed(d, [f]);
    assert [a, b, c, d][1..] == [b, c, d] && [b, c, d][1..] == [c, d] && [c, d][1..] == [d];
    assert CollectEligible([d], [f], managed, 1) == [d] + CollectEligible([], [f], managed, 0);
    assert CollectEligible([c, d], [f], managed, 1) == CollectEligible([d], [f], managed, 1);
    assert CollectEligible([b, c, d], [f], managed, 1) == CollectEligible([c, d], [f], managed, 1);
    assert CollectEligible([a, b, c, d], [f], managed, 2) == [a] + CollectEligible([b, c, d], [f], managed, 1);
  }

  /** Criteria nothing meets give the empty list, not a failure. */
  lemma NoMatchScenario(followed: seq<Team>, pref: string, city: string, term: string)
    requires forall t :: t in followed ==> !SatisfiesCriteria(t, pref, city, term)
    ensures FilterFollowed(followed, pref, city, term) == []
  {
    var r := FilterFollowed(followed, pref, city, term);
    if r != [] {
      FilterFollowedMembership(followed, pref, city, term, r[0]);
    }
  }
}
