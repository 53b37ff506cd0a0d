/** Participation and solved-set building: the one pass over the user's
    submissions that fills the set of contests taken part in and the set of
    solved-problem keys, linking each contest to a sibling division that
    shares its edition number. */
module Participation {
  import opened Codeforces

  /** `nb` is a sibling division of `cid`: both are in the catalog and the
      edition number of `nb` is defined and equal to that of `cid`. */
  predicate Sibling(contests: map<int, Contest>, number: ContestNumber, cid: int, nb: int): (linked: bool)
    ensures linked ==> cid in contests && number(contests[cid].name).Some?
  {
    && cid in contests
    && nb in contests
    && number(contests[nb].name) != None
    && number(contests[cid].name) == number(contests[nb].name)
  }

  /** The contest ids one submission adds to the participated set. */
  function SubmissionIds(contests: map<int, Contest>, number: ContestNumber, s: Submission): set<int>
  {
    match s.contestId
    case None => {}
    case Some(cid) =>
      {cid}
      + (if Sibling(contests, number, cid, cid - 1) then {cid - 1} else {})
      + (if Sibling(contests, number, cid, cid + 1) then {cid + 1} else {})
  }

  /** The keys one submission adds to the solved set. */
  function SubmissionKeys(contests: map<int, Contest>, number: ContestNumber, s: Submission): set<string>
  {
    match s.contestId
    case None => {}
    case Some(cid) =>
      if !Accepted(s) then {}
      else
        {SolvedKey(cid, s.problemName)}
        + (if Sibling(contests, number, cid, cid - 1) then {SolvedKey(cid - 1, s.problemName)} else {})
        + (if Sibling(contests, number, cid, cid + 1) then {SolvedKey(cid + 1, s.problemName)} else {})
  }

  /** `used_contest_ids` after the pass over `subs`. */
  function ParticipatedIds(contests: map<int, Contest>, number: ContestNumber, subs: seq<Submission>): (ids: set<int>)
    ensures forall i :: 0 <= i < |subs| && subs[i].contestId.Some? ==> subs[i].contestId.value in ids
  {
    if subs == [] then {}
    else
      var n := |subs| - 1;
      var ids := ParticipatedIds(contests, number, subs[..n]) + SubmissionIds(contests, number, subs[n]);
      assert forall i :: 0 <= i < n ==> subs[i] == subs[..n][i];
      ids
  }

  /** An accepted, attributed submission adds its own key. */
  lemma OwnKeyRecorded(contests: map<int, Contest>, number: ContestNumber, s: Submission)
    requires s.contestId.Some? && Accepted(s)
    ensures SolvedKey(s.contestId.value, s.problemName) in SubmissionKeys(contests, number, s)
  {
    var k := SolvedKey(s.contestId.value, s.problemName);
    assert k in {k};
  }

  /** `solved_problems` after the pass over `subs`. */
  function SolvedKeys(contests: map<int, Contest>, number: ContestNumber, subs: seq<Submission>): (keys: set<string>)
    ensures forall i :: 0 <= i < |subs| && subs[i].contestId.Some? && Accepted(subs[i]) ==>
      SolvedKey(subs[i].contestId.value, subs[i].problemName) in keys
  {
    if subs == [] then {}
    else
      var n := |subs| - 1;
      var pre := SolvedKeys(contests, number, subs[..n]);
      var keys := pre + SubmissionKeys(contests, number, subs[n]);
      forall i | 0 <= i < |subs| && subs[i].contestId.Some? && Accepted(subs[i])
        ensures SolvedKey(subs[i].contestId.value, subs[i].problemName) in keys
      {
        if i < n {
          assert subs[i] == subs[..n][i];
        } else {
          OwnKeyRecorded(contests, number, subs[n]);
        }
      }
      keys
  }

  /** The loop of the source: one pass over the submissions that adds to both
      sets, linking each contest to its sibling divisions. */
  method BuildSets(contests: map<int, Contest>, number: ContestNumber, subs: seq<Submission>)
    returns (used: set<int>, solved: set<string>)
    ensures used == ParticipatedIds(contests, number, subs)
    ensures solved == SolvedKeys(contests, number, subs)
  {
    used, solved := {}, {};
    for i := 0 to |subs|
      invariant used == ParticipatedIds(contests, number, subs[..i])
      invariant solved == SolvedKeys(contests, number, subs[..i])
    {
      assert subs[..i + 1][..i] == subs[..i];
      used, solved := RecordSubmission(contests, number, subs[i], used, solved);
    }
    assert subs[..|subs|] == subs;
  }

  /** The body of that loop for one submission: an unattributed submission is
      skipped, an attributed one always adds its own contest id (and its key
      when accepted), and the sibling divisions are linked only when the
      contest is in the catalog. */
  method RecordSubmission(contests: map<int, Contest>, number: ContestNumber, s: Submission,
                          used0: set<int>, solved0: set<string>)
    returns (used: set<int>, solved: set<string>)
    ensures used == used0 + SubmissionIds(contests, number, s)
    ensures solved == solved0 + SubmissionKeys(contests, number, s)
  {
    used, solved := used0, solved0;
    var isAc := s.verdict == "OK";
    if s.contestId.None? {
      return;
    }
    var cid := s.contestId.value;
    if isAc {
      solved := solved + {SolvedKey(cid, s.problemName)};
    }
    used := used + {cid};
    if cid !in contests {
      return;
    }
    var cnum := number(contests[cid].name);
    used, solved := LinkSibling(contests, number, cid, cnum, cid - 1, isAc, s.problemName, used, solved);
    used, solved := LinkSibling(contests, number, cid, cnum, cid + 1, isAc, s.problemName, used, solved);
  }

  /** One neighbouring id `nb` of `cid`: when it is in the catalog with the
      same defined edition number, it counts as taken part in, and an
      accepted problem counts as solved there too. */
  method LinkSibling(contests: map<int, Contest>, number: ContestNumber, cid: int, cnum: Option<int>, nb: int,
                     isAc: bool, name: string, used0: set<int>, solved0: set<string>)
    returns (used: set<int>, solved: set<string>)
    requires cid in contests && cnum == number(contests[cid].name)
    ensures used == used0 + (if Sibling(contests, number, cid, nb) then {nb} else {})
    ensures solved == solved0 + (if isAc && Sibling(contests, number, cid, nb) then {SolvedKey(nb, name)} else {})
  {
    used, solved := used0, solved0;
    if nb in contests {
      var num := number(contests[nb].name);
      if num.Some? && cnum == num {
        used := used + {nb};
        if isAc {
          solved := solved + {SolvedKey(nb, name)};
        }
      }
    }
  }

  /** Sibling divisions are linked both ways. */
  lemma SiblingSymmetric(contests: map<int, Contest>, number: ContestNumber, a: int, b: int)
    requires Sibling(contests, number, a, b)
    ensures Sibling(contests, number, b, a)
  {
  }

  /** Submission `s` names contest `c`: its own contest, or a neighbouring
      sibling division of it. */
  predicate NamesContest(contests: map<int, Contest>, number: ContestNumber, s: Submission, c: int)
  {
    s.contestId.Some? &&
    var cid := s.contestId.value;
    c == cid || ((c == cid - 1 || c == cid + 1) && Sibling(contests, number, cid, c))
  }

  /** Submission `s` is accepted and names the solved key `k` under its own
      contest id or under the id of a neighbouring sibling division. */
  predicate NamesKey(contests: map<int, Contest>, number: ContestNumber, s: Submission, k: string)
  {
    s.contestId.Some? && Accepted(s) &&
    var cid := s.contestId.value;
    || k == SolvedKey(cid, s.problemName)
    || (Sibling(contests, number, cid, cid - 1) && k == SolvedKey(cid - 1, s.problemName))
    || (Sibling(contests, number, cid, cid + 1) && k == SolvedKey(cid + 1, s.problemName))
  }

  /** The ids one submission adds are the contests it names. */
  lemma IdsOfSubmission(contests: map<int, Contest>, number: ContestNumber, s: Submission, c: int)
    ensures c in SubmissionIds(contests, number, s) <==> NamesContest(contests, number, s, c)
  {
  }

  /** The keys one submission adds are the keys it names. */
  lemma KeysOfSubmission(contests: map<int, Contest>, number: ContestNumber, s: Submission, k: string)
    ensures k in SubmissionKeys(contests, number, s) <==> NamesKey(contests, number, s, k)
  {
  }

  /** A contest is in the participated set exactly when some submission is
      attributed to it, or to a neighbouring id of which it is a sibling —
      whether or not the submission's own contest is in the catalog. */
  lemma {:induction false} ParticipationExactly(contests: map<int, Contest>, number: ContestNumber, subs: seq<Submission>, c: int)
    ensures c in ParticipatedIds(contests, number, subs) <==>
      exists i :: 0 <= i < |subs| && NamesContest(contests, number, subs[i], c)
  {
    if subs != [] {
      var n := |subs| - 1;
      var pre := subs[..n];
      ParticipationExactly(contests, number, pre, c);
      IdsOfSubmission(contests, number, subs[n], c);
      if exists i :: 0 <= i < |subs| && NamesContest(contests, number, subs[i], c) {
        var i :| 0 <= i < |subs| && NamesContest(contests, number, subs[i], c);
        if i < n { assert pre[i] == subs[i]; }
      }
      if exists i :: 0 <= i < |pre| && NamesContest(contests, number, pre[i], c) {
        var i :| 0 <= i < |pre| && NamesContest(contests, number, pre[i], c);
        assert pre[i] == subs[i];
      }
    }
  }

  /** A key is in the solved set exactly when some accepted, attributed
      submission names that problem under its own contest id or under the id
      of a sibling division. */
  lemma {:induction false} SolvedExactly(contests: map<int, Contest>, number: ContestNumber, subs: seq<Submission>, k: string)
    ensures k in SolvedKeys(contests, number, subs) <==>
      exists i :: 0 <= i < |subs| && NamesKey(contests, number, subs[i], k)
  {
    if subs != [] {
      var n := |subs| - 1;
      var pre := subs[..n];
      SolvedExactly(contests, number, pre, k);
      KeysOfSubmission(contests, number, subs[n], k);
      if exists i :: 0 <= i < |subs| && NamesKey(contests, number, subs[i], k) {
        var i :| 0 <= i < |subs| && NamesKey(contests, number, subs[i], k);
        if i < n { assert pre[i] == subs[i]; }
      }
      if exists i :: 0 <= i < |pre| && NamesKey(contests, number, pre[i], k) {
        var i :| 0 <= i < |pre| && NamesKey(contests, number, pre[i], k);
        assert pre[i] == subs[i];
      }
    }
  }

  /** A submission whose verdict is not "OK" never adds a solved key; it may
      still add contest ids. */
  lemma RejectedAddsNoKey(contests: map<int, Contest>, number: ContestNumber, subs: seq<Submission>, s: Submission)
    requires !Accepted(s)
    ensures SolvedKeys(contests, number, subs + [s]) == SolvedKeys(contests, number, subs)
    ensures ParticipatedIds(contests, number, subs + [s]) ==
      ParticipatedIds(contests, number, subs) + SubmissionIds(contests, number, s)
  {
    assert (subs + [s])[..|subs|] == subs;
  }

  /** A submission without a contest id changes neither set. */
  lemma UnattributedChangesNothing(contests: map<int, Contest>, number: ContestNumber, subs: seq<Submission>, s: Submission)
    requires s.contestId.None?
    ensures SolvedKeys(contests, number, subs + [s]) == SolvedKeys(contests, number, subs)
    ensures ParticipatedIds(contests, number, subs + [s]) == ParticipatedIds(contests, number, subs)
  {
    assert (subs + [s])[..|subs|] == subs;
  }

  /** A submission with a contest id always adds that id, even when the id is
      missing from the catalog; a missing id links no sibling. */
  lemma AttributedAlwaysParticipates(contests: map<int, Contest>, number: ContestNumber, subs: seq<Submission>, s: Submission)
    requires s.contestId.Some?
    ensures s.contestId.value in ParticipatedIds(contests, number, subs + [s])
    ensures s.contestId.value !in contests ==>
      ParticipatedIds(contests, number, subs + [s]) == ParticipatedIds(contests, number, subs) + {s.contestId.value}
  {
    assert (subs + [s])[..|subs|] == subs;
  }

  /** The pass is order-insensitive: the sets of a concatenation are the
      unions of the sets of its parts. */
  lemma {:induction false} SetsOfConcat(contests: map<int, Contest>, number: ContestNumber, a: seq<Submission>, b: seq<Submission>)
    ensures ParticipatedIds(contests, number, a + b) ==
      ParticipatedIds(contests, number, a) + ParticipatedIds(contests, number, b)
    ensures SolvedKeys(contests, number, a + b) ==
      SolvedKeys(contests, number, a) + SolvedKeys(contests, number, b)
    decreases |b|
  {
    if b == [] {
      assert a + b == a;
    } else {
      var n := |b| - 1;
      assert (a + b)[..|a + b| - 1] == a + b[..n];
      SetsOfConcat(contests, number, a, b[..n]);
    }
  }
}
