/** Unsolved selection: the problems of the catalog that belong to a contest
    taken part in and are not solved there, plus every problem without a
    contest, newest-catalogued first. */
module Selection {
  import opened Codeforces
  import opened Sequences

  /** A problem is kept when it has no contest id, or when its contest was
      taken part in and its key is not among the solved keys. */
  predicate IsCandidate(used: set<int>, solved: set<string>, p: Problem)
  {
    match p.contestId
    case None => true
    case Some(cid) => cid in used && SolvedKey(cid, p.name) !in solved
  }

  /** The test of IsCandidate as a function value, for Keep. */
  function CandidateTest(used: set<int>, solved: set<string>): Problem -> bool
  {
    p => IsCandidate(used, solved, p)
  }

  /** The kept problems, in catalog order. */
  function Selected(used: set<int>, solved: set<string>, catalog: seq<Problem>): seq<Problem>
  {
    Keep(catalog, CandidateTest(used, solved))
  }

  /** The candidate list the later stages see: the kept problems reversed. */
  function Candidates(used: set<int>, solved: set<string>, catalog: seq<Problem>): seq<Problem>
  {
    Reversed(Selected(used, solved, catalog))
  }

  /** The loop of the source that appends each kept problem, then the
      reversal. */
  method SelectUnsolved(used: set<int>, solved: set<string>, catalog: seq<Problem>)
    returns (problems: seq<Problem>)
    ensures problems == Candidates(used, solved, catalog)
  {
    problems := [];
    for i := 0 to |catalog|
      invariant problems == Selected(used, solved, catalog[..i])
    {
      assert catalog[..i + 1][..i] == catalog[..i];
      var problem := catalog[i];
      var isProblemOk := false;
      if problem.contestId.None? {
        isProblemOk := true;
      } else {
        var cid := problem.contestId.value;
        var fullProblemName := SolvedKey(cid, problem.name);
        if cid in used && fullProblemName !in solved {
          isProblemOk := true;
        }
      }
      if isProblemOk {
        problems := problems + [problem];
      }
    }
    assert catalog[..|catalog|] == catalog;
    problems := Reversed(problems);
  }

  /** A problem is a candidate exactly when it is in the catalog and passes
      the test: no contest id, or a contest taken part in and an unsolved
      key. */
  lemma CandidatesExactly(used: set<int>, solved: set<string>, catalog: seq<Problem>, p: Problem)
    ensures p in Candidates(used, solved, catalog) <==>
      p in catalog &&
      (p.contestId.None? || (p.contestId.value in used && SolvedKey(p.contestId.value, p.name) !in solved))
  {
    KeepMembers(catalog, CandidateTest(used, solved), p);
  }

  /** The candidates are the catalog's kept problems in reverse catalog
      order: reading the list backwards picks, in increasing order, exactly
      the catalog positions whose problem passes the test. There are never
      more candidates than catalog entries. */
  lemma CandidatesOrder(used: set<int>, solved: set<string>, catalog: seq<Problem>)
    ensures |Candidates(used, solved, catalog)| <= |catalog|
    ensures exists idx :: PicksPositions(catalog, CandidateTest(used, solved), idx,
      Reversed(Candidates(used, solved, catalog)))
  {
    var sel := Selected(used, solved, catalog);
    KeepPicksPositions(catalog, CandidateTest(used, solved));
    assert Reversed(Reversed(sel)) == sel;
  }
}
