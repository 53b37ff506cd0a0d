# Unsolved contest problems: a Dafny model

This project models the reconciliation at the heart of the
`UnsolvedContestProblems` script. The script finds problems a competitive
programmer has not solved yet, among the contests they have taken part in.

Given the user's submission history, the contest catalog and the problem
catalog, the script:

- builds the set of contests taken part in and the set of solved-problem keys
  in one pass over the submissions. A contest's neighbouring id (`cid - 1`,
  `cid + 1`) whose name gives the same edition number counts as a sibling
  division: it is taken part in too, and a problem accepted in one division
  counts as solved in the sibling as well;
- selects the candidates. A catalog problem is a candidate when it has no
  contest id, or when its contest was taken part in and its key
  `str(contestId) + name` is not solved. The candidates are then listed in
  reverse catalog order;
- counts the candidates' tags (`getStats`, a `Counter`) and ranks them rarest
  first (`most_common()[::-1]`). A tag's position in that list is its display
  index;
- keeps the candidates that carry at least one tag chosen by display index.
  Each chosen index is asserted to be in range when the loop reaches it;
- separately, `filter_by_rating` keeps the problems rated within inclusive
  bounds.

Modules, in pipeline order:

- `Codeforces`: the records and the solved key.
- `Sequences`: the generic helpers `Keep` (an order-preserving filter),
  `Reversed` and `Count`.
- `Participation`: the submission pass.
- `Selection`: the candidate list.
- `TagStats`: the Counter and the ranking.
- `TagFilter`: the tag OR-filter and its assertion.
- `Rating`: the rating filter.
- `Unsolved`: the whole `get_unsolved_problems_from_participated_contests`.

The loops that do the work are Dafny methods, each proved equal to a
specification function: the submission pass (`Participation.BuildSets`), the
candidate selection (`Selection.SelectUnsolved`), the tag counting
(`TagStats.GetStats` with `TagStats.CountTags`) and the tag filter
(`TagFilter.FilterByTags`). Lemmas about those functions state what the
source promises. The ranking loop at lines 124-126 only prints and copies the
keys of `most_common()[::-1]`, so it is the function `TagStats.RankTags`.

The failed range assertion in the tag filter is modelled as a result value,
`AssertionError(id)`. It carries the first out-of-range index the loop
reaches. Indices after the first hit for a problem are never checked, exactly
as in the source.

Tie order in the ranking: Python's `most_common()` sorts by descending count
with a stable sort, so tied tags keep the Counter's insertion order. Reversing
that list gives ascending counts, with tied tags in reverse order of first
occurrence. The model computes the same list as a stable ascending insertion
sort of the reversed insertion order (`TagStats.RankTags`).
`Unsolved.TieScenario` works one tie out: `dp` and `greedy` both count 2, and
the ranked list is `["greedy", "dp"]`.

A submission whose contest id is missing from the contest catalog still
counts as participation. Line 90 adds the id before line 91 checks the
catalog; only the sibling linking is skipped
(`Participation.AttributedAlwaysParticipates`).

## Model

| member | source | states |
|---|---|---|
| Codeforces.KeyCollision | src/scripts/UnsolvedContestProblems/main.py:88 | the key `str(cid) + name` has no separator, so contest 1 with "23" and contest 12 with "3" share the key "123" |
| Codeforces.NatToString | src/scripts/UnsolvedContestProblems/main.py:88 | `str` of a non-negative contest id is a non-empty string of decimal digits |
| Codeforces.NatToStringValue | src/scripts/UnsolvedContestProblems/main.py:88 | those digits denote the number itself, and only 0 is written with a leading zero |
| Codeforces.IntToStringValue | src/scripts/UnsolvedContestProblems/main.py:88 | `str(cid)` is the decimal form of `cid`: its digits for a non-negative id, a minus sign and the digits of the magnitude for a negative one |
| Codeforces.IntToStringInjective | src/scripts/UnsolvedContestProblems/main.py:88 | different contest ids have different `str` forms |
| Codeforces.SolvedKeyParts | src/scripts/UnsolvedContestProblems/main.py:88 | the key `str(cid) + name` ends with the name, and what precedes it is the decimal form of the contest id |
| Codeforces.KeyDeterminesContest | src/scripts/UnsolvedContestProblems/main.py:116 | for one problem name, different contest ids give different keys, so keys can collide only across different names |
| Sequences.Reversed | src/scripts/UnsolvedContestProblems/main.py:121 | `[::-1]` has the same length, puts element `k` at `len - 1 - k`, and keeps the same elements with the same multiplicities |
| Participation.Sibling | src/scripts/UnsolvedContestProblems/main.py:91-95 | a neighbour is a sibling division only when the contest itself is in the catalog and its own edition number is defined (the number the neighbour's must equal) |
| Participation.ParticipatedIds | src/scripts/UnsolvedContestProblems/main.py:82-106 | every submission's own contest id ends up in the participated set |
| Participation.SolvedKeys | src/scripts/UnsolvedContestProblems/main.py:82-106 | every accepted, attributed submission's own key ends up in the solved set |
| Participation.BuildSets | src/scripts/UnsolvedContestProblems/main.py:82-106 | the one pass over the submissions yields exactly the participated set and the solved set |
| Participation.RecordSubmission | src/scripts/UnsolvedContestProblems/main.py:83-106 | one submission adds exactly its contribution: nothing without a contest id; its own id, and its key when accepted; siblings only when the contest is in the catalog |
| Participation.LinkSibling | src/scripts/UnsolvedContestProblems/main.py:93-106 | a neighbouring id is added, with the key when the submission is accepted, exactly when it is a sibling division (in the catalog, same defined edition number) |
| Participation.SiblingSymmetric | src/scripts/UnsolvedContestProblems/main.py:93-106 | if `b` is a sibling division of `a`, then `a` is one of `b` |
| Participation.IdsOfSubmission | src/scripts/UnsolvedContestProblems/main.py:85-106 | the ids one submission adds are exactly the contests it names: its own, and each neighbour that is a sibling division |
| Participation.KeysOfSubmission | src/scripts/UnsolvedContestProblems/main.py:83-106 | the keys one submission adds are exactly the keys it names: none unless it is accepted and attributed, then its own and each sibling division's |
| Participation.OwnKeyRecorded | src/scripts/UnsolvedContestProblems/main.py:87-89 | an accepted, attributed submission adds its own key |
| Participation.ParticipationExactly | src/scripts/UnsolvedContestProblems/main.py:85-106 | a contest is taken part in if and only if some submission is attributed to it, or to a neighbouring id of which it is a sibling |
| Participation.SolvedExactly | src/scripts/UnsolvedContestProblems/main.py:83-106 | a key is solved if and only if some accepted, attributed submission names that problem under its own contest or under a sibling division |
| Participation.RejectedAddsNoKey | src/scripts/UnsolvedContestProblems/main.py:83-99 | a submission that is not accepted adds no solved key, but still adds its contest ids |
| Participation.UnattributedChangesNothing | src/scripts/UnsolvedContestProblems/main.py:85 | a submission without a contest id changes neither set |
| Participation.AttributedAlwaysParticipates | src/scripts/UnsolvedContestProblems/main.py:90-91 | an attributed submission always adds its own id; when that id is not in the catalog it adds only that id |
| Participation.SetsOfConcat | src/scripts/UnsolvedContestProblems/main.py:82-106 | the pass does not depend on submission order: the sets of a concatenation are the unions of the parts' sets |
| Selection.SelectUnsolved | src/scripts/UnsolvedContestProblems/main.py:109-121 | the selection loop followed by the reversal yields exactly the candidate list |
| Selection.CandidatesExactly | src/scripts/UnsolvedContestProblems/main.py:110-120 | a problem is a candidate if and only if it is in the catalog and passes the test `IsCandidate` of lines 111-118: it has no contest id, or its contest was taken part in and its key is not solved |
| Selection.CandidatesOrder | src/scripts/UnsolvedContestProblems/main.py:109-121 | there are no more candidates than catalog entries; read backwards, the candidates are exactly the passing catalog positions in increasing order |
| TagStats.FirstSeen | src/scripts/UnsolvedContestProblems/main.py:59-62 | the Counter's key order holds exactly the tags met |
| TagStats.GetStats | src/scripts/UnsolvedContestProblems/main.py:58-65 | the Counter holds exactly the tags some candidate carries, each with its number of occurrences, and its keys in first-occurrence order |
| TagStats.CountTags | src/scripts/UnsolvedContestProblems/main.py:61-62 | counting one problem's tags raises each tag's count by its occurrences in that list and appends new tags to the key order |
| TagStats.InsertByCount | src/scripts/UnsolvedContestProblems/main.py:124 | inserting one tag adds exactly that element and keeps all others |
| TagStats.InsertKeepsSorted | src/scripts/UnsolvedContestProblems/main.py:124 | inserting into a list sorted by count keeps it sorted |
| TagStats.InsertKeepsDistinct | src/scripts/UnsolvedContestProblems/main.py:124 | inserting a new tag into a list without repeats keeps it without repeats |
| TagStats.SortByCount | src/scripts/UnsolvedContestProblems/main.py:124 | the sort is a permutation with the same elements, sorted by ascending count |
| TagStats.SortKeepsDistinct | src/scripts/UnsolvedContestProblems/main.py:124 | sorting a list without repeats introduces none |
| TagStats.RankTags | src/scripts/UnsolvedContestProblems/main.py:124 | `most_common()[::-1]` is a permutation of the Counter's keys, without repeats, in non-decreasing count order |
| TagStats.FirstSeenDistinct | src/scripts/UnsolvedContestProblems/main.py:59-62 | a Counter never holds a key twice |
| TagStats.OccurrencesFlat | src/scripts/UnsolvedContestProblems/main.py:60-62 | counting problem by problem equals counting along the flattened tag stream |
| TagStats.OccurrencesPositive | src/scripts/UnsolvedContestProblems/main.py:60-62 | a tag has a positive count if and only if some candidate carries it |
| TagStats.AllTagsMembers | src/scripts/UnsolvedContestProblems/main.py:60-61 | a tag is met by the loops if and only if some problem carries it |
| TagStats.OccurrencesCountProblems | src/scripts/UnsolvedContestProblems/main.py:58-65 | when no problem lists a tag twice, a tag's count is the number of problems that carry it |
| TagStats.StatsAreTagCounter | src/scripts/UnsolvedContestProblems/main.py:122 | the Counter `getStats` returns is the tag-to-occurrences map of the candidates |
| TagStats.RankedTagsExactlyOnce | src/scripts/UnsolvedContestProblems/main.py:122-126 | the displayed tag list holds each candidate tag exactly once and no other string, in non-decreasing count order |
| TagFilter.FilterByTags | src/scripts/UnsolvedContestProblems/main.py:129-139 | the nested loops with the range assertion and the early `break` yield exactly the tag filter's outcome |
| TagFilter.ErrorPersists | src/scripts/UnsolvedContestProblems/main.py:133 | once the assertion fails on a prefix of the candidates, the whole filter fails with that index |
| TagFilter.TagCheckInRange | src/scripts/UnsolvedContestProblems/main.py:132-136 | with every chosen index in range, the inner loop answers whether the problem carries some chosen tag |
| TagFilter.TagFilterInRange | src/scripts/UnsolvedContestProblems/main.py:129-139 | with every chosen index in range, the filter cannot fail and keeps, in order, exactly the problems that carry some chosen tag |
| TagFilter.TagFilterFailsOnBadId | src/scripts/UnsolvedContestProblems/main.py:133 | the filter fails only when there is a problem to test, and only on a chosen index that is out of range |
| TagFilter.TagCheckBadId | src/scripts/UnsolvedContestProblems/main.py:132-133 | the inner loop fails only on a chosen index that is out of range |
| TagFilter.HitStopsSearch | src/scripts/UnsolvedContestProblems/main.py:132-136 | after the first hit the search stops, so later indices, even out-of-range ones, are never checked |
| TagFilter.BadFirstIdFails | src/scripts/UnsolvedContestProblems/main.py:133 | an out-of-range first chosen index fails the assertion as soon as there is a candidate |
| TagFilter.TagFilterWithinTagged | src/scripts/UnsolvedContestProblems/main.py:129-139 | with any in-range selection the filter cannot fail, and every problem it keeps carries at least one tag, so no selection keeps more than choosing every index |
| TagFilter.TagFilterMonotone | src/scripts/UnsolvedContestProblems/main.py:129-139 | choosing more indices keeps more: when every index of one selection is also in a second, the first result is the second result filtered further, so it is a subsequence of it |
| TagFilter.EveryIndexChosen | src/scripts/UnsolvedContestProblems/main.py:129-139 | when every tag is listed and every index is chosen, the filter keeps exactly the problems with at least one tag |
| Rating.FilterByRating | src/scripts/UnsolvedContestProblems/main.py:141-146 | no more problems come out than go in, and every survivor is an input problem with a rating within the inclusive bounds |
| Rating.RatingFilterExactly | src/scripts/UnsolvedContestProblems/main.py:141-146 | a problem survives if and only if it is in the input and has a rating within the inclusive bounds; an unrated problem never survives |
| Rating.RatingFilterKeepsOrder | src/scripts/UnsolvedContestProblems/main.py:146 | the survivors are exactly the in-range input positions, in increasing order |
| Rating.RatingFilterIdempotent | src/scripts/UnsolvedContestProblems/main.py:141-146 | filtering twice with the same bounds gives the same result as filtering once |
| Unsolved.GetUnsolvedProblems | src/scripts/UnsolvedContestProblems/main.py:77-139 | the stages run in the source's order compute the pipeline: the candidates when no index is chosen, otherwise the tag filter over the ranked tags |
| Unsolved.NoChoiceReturnsCandidates | src/scripts/UnsolvedContestProblems/main.py:128 | with no chosen index the result is the unfiltered candidate list: exactly the catalog problems with no contest id, or with a contest taken part in and an unsolved key |
| Unsolved.NoSubmissions | src/scripts/UnsolvedContestProblems/main.py:82-121 | without submissions both sets are empty, and the candidates are exactly the problems without a contest id |
| Unsolved.SiblingSolveHidesBoth | src/scripts/UnsolvedContestProblems/main.py:91-121 | an accepted problem is hidden under its own contest and under a sibling division, and the sibling counts as taken part in |
| Unsolved.ChoosingEveryTag | src/scripts/UnsolvedContestProblems/main.py:122-139 | choosing every display index keeps exactly the candidates that carry at least one tag, in candidate order |
| Unsolved.DivisionScenario | src/scripts/UnsolvedContestProblems/main.py:82-121 | contests 100 and 101 with the same edition number and "Sum" accepted in 100: both are taken part in and neither "Sum" is a candidate |
| Unsolved.TieStream | src/scripts/UnsolvedContestProblems/main.py:60-61 | the candidates tagged `["dp"]`, `["dp","greedy"]`, `["greedy"]` give the tag stream `dp, dp, greedy, greedy` |
| Unsolved.TieKeyOrder | src/scripts/UnsolvedContestProblems/main.py:59-62 | for those candidates `dp` enters the Counter before `greedy` |
| Unsolved.TieCounts | src/scripts/UnsolvedContestProblems/main.py:58-65 | for those candidates the Counter is `dp: 2, greedy: 2` |
| Unsolved.TieSort | src/scripts/UnsolvedContestProblems/main.py:124 | the stable sort leaves two tied tags in place |
| Unsolved.TieScenario | src/scripts/UnsolvedContestProblems/main.py:122-126 | for those candidates the ranked list is `["greedy", "dp"]`: tied tags come out in reverse order of first occurrence |

## Left out

- Fetching submissions, the contest catalog and the problem catalog over the network (lines 78, 80, 107): the three collections are parameters.
- `get_contest_number`: its code is not part of this model. It is a function-typed parameter from a contest name to an optional edition number.
- Reading the chosen tag indices (`ask_numbers`, its parsing and re-prompting): the indices are a parameter, a sequence of integers.
- Printing the ranked tags (line 125) and the table rendering (`get_table`, the row helper, `quote_plus` URLs): output only.
- `main` and the interactive prompts around the pipeline, including the rating bounds prompt and `KeyboardInterrupt` handling: user interaction outside the core.
- Rating.FilterByRating: Python's `filter` returns a lazy iterator; the model returns the finished list.
- TagStats.RankTags: `most_common` is a library sort. The model's insertion sort computes the same order for every input, but only permutation, sortedness and the tie order shown by `Unsolved.TieScenario` are stated as properties.
- Extra record fields that the core does not read (a submission's other problem fields, a contest's other fields): not modelled.
