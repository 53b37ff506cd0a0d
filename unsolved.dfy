/** `get_unsolved_problems_from_participated_contests`: the whole
    reconciliation, from the submissions, the contest catalog and the problem
    catalog to the candidates the user's tag choice lets through. The fetches
    become parameters, and so does the list of chosen display indices that
    the source reads from a prompt. */
module Unsolved {
  import opened Codeforces
  import opened Sequences
  import opened Participation
  import opened Selection
  import opened TagStats
  import opened TagFilter

  /** The candidates before the tag filter. */
  function UnsolvedCandidates(contests: map<int, Contest>, number: ContestNumber,
                              subs: seq<Submission>, catalog: seq<Problem>): seq<Problem>
  {
    Candidates(ParticipatedIds(contests, number, subs), SolvedKeys(contests, number, subs), catalog)
  }

  /** What the pipeline returns: the candidates unchanged when no index is
      chosen, otherwise the tag filter over the ranked tags. */
  function Pipeline(contests: map<int, Contest>, number: ContestNumber, subs: seq<Submission>,
                    catalog: seq<Problem>, ids: seq<int>): Outcome
  {
    var candidates := UnsolvedCandidates(contests, number, subs, catalog);
    if ids == [] then Filtered(candidates)
    else TagFiltered(candidates, RankedTags(candidates), ids)
  }

  /** The stages in the order the source runs them. */
  method GetUnsolvedProblems(contests: map<int, Contest>, number: ContestNumber, subs: seq<Submission>,
                             catalog: seq<Problem>, tagIds: seq<int>) returns (r: Outcome)
    ensures r == Pipeline(contests, number, subs, catalog, tagIds)
  {
    var used, solved := BuildSets(contests, number, subs);
    var problems := SelectUnsolved(used, solved, catalog);
    var seen, counter := GetStats(problems);
    StatsAreTagCounter(problems, counter);
    var tags := RankTags(seen, counter);
    if |tagIds| == 0 {
      return Filtered(problems);
    }
    r := FilterByTags(problems, tags, tagIds);
  }

  /** With no chosen index nothing is filtered: the result is the
      candidates, which are exactly the catalog problems that have no contest
      id or belong to a contest taken part in under an unsolved key. */
  lemma NoChoiceReturnsCandidates(contests: map<int, Contest>, number: ContestNumber, subs: seq<Submission>,
                                  catalog: seq<Problem>, p: Problem)
    ensures Pipeline(contests, number, subs, catalog, []).Filtered?
    ensures p in Pipeline(contests, number, subs, catalog, []).problems <==>
      p in catalog &&
      (p.contestId.None? ||
       (p.contestId.value in ParticipatedIds(contests, number, subs) &&
        SolvedKey(p.contestId.value, p.name) !in SolvedKeys(contests, number, subs)))
  {
    CandidatesExactly(ParticipatedIds(contests, number, subs), SolvedKeys(contests, number, subs), catalog, p);
  }

  /** Without submissions nothing is taken part in or solved, so the
      candidates are exactly the problems without a contest id. */
  lemma NoSubmissions(contests: map<int, Contest>, number: ContestNumber, catalog: seq<Problem>, p: Problem)
    ensures ParticipatedIds(contests, number, []) == {} && SolvedKeys(contests, number, []) == {}
    ensures p in UnsolvedCandidates(contests, number, [], catalog) <==> p in catalog && p.contestId.None?
  {
    CandidatesExactly({}, {}, catalog, p);
  }

  /** Solving a problem in one division hides it in that division and in a
      sibling division, and the sibling counts as taken part in. */
  lemma SiblingSolveHidesBoth(contests: map<int, Contest>, number: ContestNumber, subs: seq<Submission>,
                              catalog: seq<Problem>, i: nat, b: int, q: Problem)
    requires i < |subs| && subs[i].contestId.Some? && Accepted(subs[i])
    requires var a := subs[i].contestId.value; (b == a - 1 || b == a + 1) && Sibling(contests, number, a, b)
    requires q.name == subs[i].problemName
    requires q.contestId == subs[i].contestId || q.contestId == Some(b)
    ensures b in ParticipatedIds(contests, number, subs)
    ensures q !in UnsolvedCandidates(contests, number, subs, catalog)
  {
    var a := subs[i].contestId.value;
    var used := ParticipatedIds(contests, number, subs);
    var solved := SolvedKeys(contests, number, subs);
    ParticipationExactly(contests, number, subs, b);
    SolvedExactly(contests, number, subs, SolvedKey(q.contestId.value, q.name));
    CandidatesExactly(used, solved, catalog, q);
  }

  /** Choosing every display index keeps exactly the candidates that carry
      at least one tag, in candidate order. */
  lemma ChoosingEveryTag(contests: map<int, Contest>, number: ContestNumber, subs: seq<Submission>,
                         catalog: seq<Problem>, ids: seq<int>)
    requires ids != []
    requires forall k :: 0 <= k < |ids| ==>
      0 <= ids[k] < |RankedTags(UnsolvedCandidates(contests, number, subs, catalog))|
    requires forall j :: 0 <= j < |RankedTags(UnsolvedCandidates(contests, number, subs, catalog))| ==> j in ids
    ensures Pipeline(contests, number, subs, catalog, ids) ==
      Filtered(Keep(UnsolvedCandidates(contests, number, subs, catalog), Tagged))
  {
    var cands := UnsolvedCandidates(contests, number, subs, catalog);
    var tags := RankedTags(cands);
    RankedTagsExactlyOnce(cands);
    forall p, t | p in cands && t in p.tags ensures t in tags {
      OccurrencesPositive(cands, t);
    }
    EveryIndexChosen(cands, tags, ids);
  }

  /** Two sibling editions, 100 and 101, whose names give the same edition
      number; one accepted submission of "Sum" in contest 100. Both
      editions count as taken part in, and "Sum" is hidden in both. */
  lemma DivisionScenario(number: ContestNumber)
    requires number("Div 2 Round X") != None
    requires number("Div 2 Round X") == number("Div 1 Round X")
    ensures
      var contests := map[100 := Contest(100, "Div 2 Round X"), 101 := Contest(101, "Div 1 Round X")];
      var subs := [Submission(Some(100), "Sum", "OK")];
      var catalog := [Problem(Some(100), "A", "Sum", Some(800), ["math"]),
                      Problem(Some(101), "A", "Sum", Some(1200), ["math"])];
      && ParticipatedIds(contests, number, subs) == {100, 101}
      && Pipeline(contests, number, subs, catalog, []) == Filtered([])
  {
    var contests := map[100 := Contest(100, "Div 2 Round X"), 101 := Contest(101, "Div 1 Round X")];
    var subs := [Submission(Some(100), "Sum", "OK")];
    var catalog := [Problem(Some(100), "A", "Sum", Some(800), ["math"]),
                    Problem(Some(101), "A", "Sum", Some(1200), ["math"])];
    assert subs[..0] == [];
    assert !Sibling(contests, number, 100, 99);
    assert Sibling(contests, number, 100, 101);
    var solved := SolvedKeys(contests, number, subs);
    assert SolvedKey(100, "Sum") in solved && SolvedKey(101, "Sum") in solved;
    assert catalog[..1][..0] == [] && catalog[..1] == [catalog[0]];
    assert Selected(ParticipatedIds(contests, number, subs), solved, catalog) == [];
  }

  /** Three candidates tagged ["dp"], ["dp", "greedy"] and ["greedy"]. */
  const TieCandidates: seq<Problem> := [
    Problem(None, "A", "P", None, ["dp"]),
    Problem(None, "B", "Q", None, ["dp", "greedy"]),
    Problem(None, "C", "R", None, ["greedy"])]

  lemma TieStream()
    ensures AllTags(TieCandidates) == ["dp", "dp", "greedy", "greedy"]
  {
    var ps := TieCandidates;
    assert ps[..2][..1] == ps[..1] && ps[..1][..0] == [];
    assert ps[..3] == ps && ps[..2] == [ps[0], ps[1]] && ps[..1] == [ps[0]];
    assert AllTags(ps[..1]) == ["dp"];
    assert AllTags(ps[..2]) == ["dp", "dp", "greedy"];
  }

  /** "dp" enters the Counter before "greedy". */
  lemma TieKeyOrder()
    ensures FirstSeen(AllTags(TieCandidates)) == ["dp", "greedy"]
  {
    TieStream();
    var flat := AllTags(TieCandidates);
    var f1, f2, f3 := ["dp"], ["dp", "dp"], ["dp", "dp", "greedy"];
    assert flat[..3] == f3 && f3[..2] == f2 && f2[..1] == f1 && f1[..0] == [];
    assert FirstSeen(f1) == ["dp"];
    assert FirstSeen(f2) == ["dp"];
    assert FirstSeen(f3) == ["dp", "greedy"];
  }

  /** Both tags of TieCandidates are counted twice. */
  lemma TieCounts()
    ensures TagCounter(TieCandidates) == map["dp" := 2, "greedy" := 2]
  {
    TieStream();
    var flat := AllTags(TieCandidates);
    var f1, f2, f3 := ["dp"], ["dp", "dp"], ["dp", "dp", "greedy"];
    assert flat[..3] == f3 && f3[..2] == f2 && f2[..1] == f1 && f1[..0] == [];
    assert Count(f1, "dp") == 1 && Count(f1, "greedy") == 0;
    assert Count(f2, "dp") == 2 && Count(f2, "greedy") == 0;
    assert Count(f3, "dp") == 2 && Count(f3, "greedy") == 1;
    OccurrencesFlat(TieCandidates, "dp");
    OccurrencesFlat(TieCandidates, "greedy");
  }

  /** Sorting the reversed key order by count leaves two tied tags where
      they are. */
  lemma TieSort()
    ensures SortByCount(["greedy", "dp"], map["dp" := 2, "greedy" := 2]) == ["greedy", "dp"]
  {
    var counter: map<string, nat> := map["dp" := 2, "greedy" := 2];
    var rev := ["greedy", "dp"];
    assert rev[..1] == ["greedy"] && rev[..1][..0] == [];
    assert CountOf(counter, "dp") == 2 && CountOf(counter, "greedy") == 2;
    assert SortByCount(["greedy"], counter) == ["greedy"];
    assert InsertByCount("dp", ["greedy"], counter) == ["greedy", "dp"];
  }

  /** The tie between "dp" and "greedy" is ranked in reverse order of first
      occurrence, so "greedy" gets display index 0. */
  lemma TieScenario()
    ensures RankedTags(TieCandidates) == ["greedy", "dp"]
  {
    TieKeyOrder();
    TieCounts();
    TieSort();
    assert Reversed(["dp", "greedy"]) == ["greedy", "dp"];
  }
}
