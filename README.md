# Followed-teams page: filtering and discovery, in Dafny

This project models the decision logic of the `FollowedTeamsPage` component of
a team-matching web application. The page shows the teams a user follows. The
user can narrow that list by prefecture, by city and by team name. Below the
list, the page offers up to three catalog teams that the user does not follow
yet and that are not the team the user manages.

There is no loop and no mutable state in this logic. Both computations are
chains of `Array.prototype.filter`, `find` and `slice`, so the model is made of
pure functions on sequences and lemmas about them:

- `wrappers.dfy` — `Option`, for the optional `city`, `availableSlotsText` and
  `managedTeamId`.
- `strings.dfy` — `toLowerCase` as a per-character map (`Lower`, `ToLower`),
  `includes` as a left-to-right scan (`Includes`), and its specification
  (`Contains`: the needle occurs at some index).
- `arrays.dfy` — `filter` (`Filter`), `find` (`Find`), `slice(0, n)` (`Take`)
  and the subsequence relation (`IsSubsequence`).
- `followed_teams_page.dfy` — the `Team` record, the three criteria
  (`PrefectureMatch`, `CityMatch`, `NameMatch`), the filtered view
  (`FilterFollowed`), and the discovery sample (`DiscoveryCandidates`,
  `DiscoverySample`, `DiscoveryShown`, with `DiscoveryLimit = 3`).
  `CollectEligible` is a separate reference definition of that sample: walk
  the catalog and stop once `limit` teams are kept. The file ends with worked
  examples.

The filter criteria, which the page keeps in React state, are plain
arguments here. The catalog and the followed list are plain sequences.

## Model

| member | source | states |
|---|---|---|
| `Strings.ToLower` | FollowedTeamsPage.tsx:27-28 | `toLowerCase` keeps the length, and each character of the result is the lower-case form of the character at the same index |
| `Strings.Lower` | FollowedTeamsPage.tsx:27-28 | lower-case form of one character: the per-character reading of `toLowerCase`; `LowerIdempotent` proves lower-casing twice equals lower-casing once |
| `Strings.Includes` | FollowedTeamsPage.tsx:27-28 | `includes` as a scan from the left; `IncludesIffContains` proves it equals "the needle occurs at some index" |
| `Strings.IncludesIffContains` | FollowedTeamsPage.tsx:27-28 | the `includes` scan returns true exactly when the needle occurs at some index of the haystack |
| `Strings.EmptyNeedle` | FollowedTeamsPage.tsx:27-28 | every string includes `''`; the empty string includes no non-empty string |
| `Strings.LowerIdempotent` | FollowedTeamsPage.tsx:27-28 | lower-casing a lower-cased character changes nothing |
| `Strings.ToLowerIdempotent` | FollowedTeamsPage.tsx:27-28 | lower-casing a lower-cased string changes nothing |
| `Strings.ToLowerEmpty` | FollowedTeamsPage.tsx:27-28 | a string lower-cases to `''` exactly when it is `''`, so a criterion's truthiness does not change when it is lower-cased |
| `Arrays.Filter` | FollowedTeamsPage.tsx:25-30 | `filter` returns no more elements than it was given, and every element it returns passes the test |
| `Arrays.FilterIsSubsequence` | FollowedTeamsPage.tsx:25-30 | `filter` returns a subsequence of its input: same relative order, nothing added |
| `Arrays.FilterMultiset` | FollowedTeamsPage.tsx:25-30 | an element occurs in the result as often as in the input when it passes the test, and otherwise not at all |
| `Arrays.FilterMembership` | FollowedTeamsPage.tsx:25-30 | an element is in the result exactly when it is in the input and passes the test |
| `Arrays.FilterKeepsAll` | FollowedTeamsPage.tsx:25-30 | a test every element passes returns the input unchanged |
| `Arrays.FilterCongruent` | FollowedTeamsPage.tsx:25-30 | two tests that agree on every input element return the same result |
| `Arrays.SubsequenceMultiset` | FollowedTeamsPage.tsx:25-30 | a subsequence adds no element and repeats none more often than the original |
| `Arrays.Find` | FollowedTeamsPage.tsx:118 | `find` returns `undefined` exactly when no element passes; otherwise it returns the first element that passes |
| `Arrays.Take` | FollowedTeamsPage.tsx:118 | `slice(0, n)` is a prefix of at most `n` elements, and the whole input when fewer than `n` are returned |
| `FollowedTeamsPage.CityText` | FollowedTeamsPage.tsx:27 | the team's city, with a missing city read as `''` (the fallback to the empty string); `FilterFollowedNoCity` uses it so a city-less team fails any non-empty city criterion |
| `FollowedTeamsPage.PrefectureMatch` | FollowedTeamsPage.tsx:26 | an empty prefecture criterion passes, and a non-empty one must equal `team.prefecture` exactly; `FilterFollowedPrefectureExact` states the consequence for the view |
| `FollowedTeamsPage.CityMatch` | FollowedTeamsPage.tsx:27 | an empty city criterion passes, and a non-empty one must occur in the lower-cased city; `MatchesCriteriaSpec` ties it to substring occurrence |
| `FollowedTeamsPage.NameMatch` | FollowedTeamsPage.tsx:28 | an empty search term passes, and a non-empty one must occur in the lower-cased name; `MatchesCriteriaSpec` ties it to substring occurrence |
| `FollowedTeamsPage.MatchesCriteria` | FollowedTeamsPage.tsx:29 | the conjunction of the three criteria; `MatchesCriteriaSpec` proves it equal to `SatisfiesCriteria`, the statement through `Contains` |
| `FollowedTeamsPage.FilterFollowed` | FollowedTeamsPage.tsx:24-31 | the filtered view is never longer than the followed list |
| `FollowedTeamsPage.MatchesCriteriaSpec` | FollowedTeamsPage.tsx:26-29 | the three criteria as the page checks them (through the `includes` scan) agree with the criteria stated through substring occurrence |
| `FollowedTeamsPage.FilterFollowedIsSubsequence` | FollowedTeamsPage.tsx:25-30 | the filtered view is a subsequence of the followed list, and its multiset is contained in the followed list's |
| `FollowedTeamsPage.FilterFollowedMembership` | FollowedTeamsPage.tsx:26-29 | a team is in the filtered view exactly when it is followed and meets the prefecture, city and name criteria, so no qualifying team is dropped |
| `FollowedTeamsPage.FilterFollowedOccurrences` | FollowedTeamsPage.tsx:25-30 | a qualifying team appears as often as it is followed, and a non-qualifying team never appears |
| `FollowedTeamsPage.FilterFollowedNoCriteria` | FollowedTeamsPage.tsx:26-28 | with all three criteria empty, the filtered view is the followed list itself |
| `FollowedTeamsPage.FilterFollowedPrefectureExact` | FollowedTeamsPage.tsx:26 | with a non-empty prefecture criterion, every shown team's prefecture equals it exactly, with no case folding |
| `FollowedTeamsPage.FilterFollowedNoCity` | FollowedTeamsPage.tsx:27 | a team with no city (read as `''`) is dropped by any non-empty city criterion |
| `FollowedTeamsPage.FilterFollowedCaseInsensitive` | FollowedTeamsPage.tsx:27-28 | city and name criteria with the same lower-case form give the same filtered view |
| `FollowedTeamsPage.FilterFollowedLowered` | FollowedTeamsPage.tsx:27-28 | typing the city and name criteria already in lower case gives the same filtered view |
| `FollowedTeamsPage.DiscoveryCandidates` | FollowedTeamsPage.tsx:118 | there are no more eligible catalog teams than catalog teams |
| `FollowedTeamsPage.DiscoverySample` | FollowedTeamsPage.tsx:118 | the sample has at most `limit` teams |
| `FollowedTeamsPage.DiscoveryShown` | FollowedTeamsPage.tsx:118 | the rendered sample has at most three teams |
| `FollowedTeamsPage.IsFollowed` | FollowedTeamsPage.tsx:118 | `followedTeams.find(ft => ft.id === t.id)` finds a team; `EligibleIff` proves this means some followed team has the id |
| `FollowedTeamsPage.Eligible` | FollowedTeamsPage.tsx:118 | the test inside the line-118 `filter`: the id is not `managedTeamId`, and `find` by id finds nothing; `EligibleIff` proves it equal to "not the managed id, and no followed team shares the id" |
| `FollowedTeamsPage.CollectEligible` | FollowedTeamsPage.tsx:118 | reference walk: go through the catalog in order, keep eligible teams, and stop once `limit` are kept; `DiscoveryIsCollect` proves filter-then-slice equals it |
| `FollowedTeamsPage.EligibleIff` | FollowedTeamsPage.tsx:118 | a catalog team is eligible exactly when its id is not the managed id and no followed team has its id |
| `FollowedTeamsPage.DiscoveryDisjoint` | FollowedTeamsPage.tsx:118 | no sampled team has the managed id or the id of a followed team |
| `FollowedTeamsPage.DiscoveryBounds` | FollowedTeamsPage.tsx:118 | the sample is a prefix of the eligible teams, of length `min(limit, #eligible)` |
| `FollowedTeamsPage.DiscoveryIsSubsequence` | FollowedTeamsPage.tsx:118 | the sample keeps catalog order and adds nothing |
| `FollowedTeamsPage.DiscoveryIsCollect` | FollowedTeamsPage.tsx:118 | filtering and then slicing gives what the reference walk gives: keep eligible teams in catalog order, and stop once `limit` are kept |
| `FollowedTeamsPage.DiscoveryUnmanaged` | FollowedTeamsPage.tsx:118 | with no managed team id (`managedTeamId` is optional, line 12), the sample is the first `limit` catalog teams whose id no followed team has |
| `FollowedTeamsPage.DiscoveryShownBounds` | FollowedTeamsPage.tsx:118 | the rendered sample is the first `min(3, #eligible)` eligible teams, as the reference walk with limit 3 selects them |
| `FollowedTeamsPage.PrefectureScenario` | FollowedTeamsPage.tsx:26 | for any team in 東京都 followed by any team in 大阪府, the criterion 東京都 keeps only the first |
| `FollowedTeamsPage.NameScenario` | FollowedTeamsPage.tsx:28 | for any teams named "Shibuya FC" and "Osaka United", the search term "united" keeps only "Osaka United" |
| `FollowedTeamsPage.CaseScenario` | FollowedTeamsPage.tsx:28 | the term "aB" matches any team named "abcd" and any team named "ABCD" |
| `FollowedTeamsPage.DiscoveryScenario` | FollowedTeamsPage.tsx:118 | for a catalog of teams with ids 1..4, a followed record with id 2 (a separate value from catalog team 2), team 3 managed and limit 2, the sample is teams 1 and 4, in that order |
| `FollowedTeamsPage.NoMatchScenario` | FollowedTeamsPage.tsx:25-30 | when no followed team meets the criteria, the filtered view is empty, which is a normal result and not an error |

## Left out

- Rendering: the JSX markup, CSS classes, the empty-list message and the display-only formatting (`level.substring(0, 2)`, `rating`, `availableSlotsText || '-'`, the location line). None of it makes a decision.
- `useState` and `useMemo`. The criteria are function arguments, and memoisation cannot be observed.
- The callbacks `onSelectTeam`, `onToggleFavorite` and `onUnfollow`, and the persistence behind them. They are one-way notifications with no result. This includes the discovery card's "follow" button, which calls `onUnfollow` (line 122).
- The `prefectures` option list (line 15). It only fills the drop-down; the filter never reads it.
- The `../types` module is not part of this model. `Team` holds the fields the page reads. `rating` is a `real`, and `level` is a plain string.
- Strings.Lower: lower-cases only Basic Latin, Latin-1 Supplement and fullwidth Latin capitals. Full Unicode `toLowerCase`, where a mapping can depend on context or change the string's length, is not modelled. `ToLowerIdempotent` and `FilterFollowedLowered` need `Lower` to be idempotent (`LowerIdempotent`). `NameScenario` and `CaseScenario`, through `UnitedLowered`, `OsakaLowered` and `ShibuyaLowered`, also need `Lower` to map the ASCII capitals they use to their lower-case letters. Every other lemma holds for any per-character `Lower`.
- Strings are Dafny `string`s, which are sequences of Unicode scalar values, while a JavaScript string is a sequence of UTF-16 code units. For well-formed text both give the same answers for `includes` and for per-character lowering. A lone surrogate cannot be represented.
- `find` is modelled by whether it returns an element. `!find(...)` in the source tests the same thing, because a found team object is always truthy.
- Unique ids in the followed list are not assumed: the page never checks them, and every lemma holds with duplicate ids too. `limit` is any natural number, zero included.
