/** The tag OR-filter: keep the candidates that carry at least one of the
    tags the user chose by display index. Each chosen index is checked to be
    in range only when the loop reaches it, and a failed check aborts the
    whole filter. */
module TagFilter {
  import opened Codeforces
  import opened Sequences

  /** The result of the filter: the kept problems, or the failed range
      assertion on the chosen index `id`. */
  datatype Outcome = Filtered(problems: seq<Problem>) | AssertionError(id: int)

  /** The result of trying the chosen indices on one problem. */
  datatype Check = Carries(hit: bool) | BadId(id: int)

  predicate InRange(tags: seq<string>, id: int)
  {
    0 <= id < |tags|
  }

  /** The inner loop on one problem: the indices are tried in order; the
      first out of range fails the assertion, the first whose tag the
      problem carries ends the search. */
  function TagCheck(tags: seq<string>, ids: seq<int>, p: Problem): Check
  {
    if ids == [] then Carries(false)
    else if !InRange(tags, ids[0]) then BadId(ids[0])
    else if tags[ids[0]] in p.tags then Carries(true)
    else TagCheck(tags, ids[1..], p)
  }

  /** The outer loop, problem by problem in list order. */
  function TagFiltered(ps: seq<Problem>, tags: seq<string>, ids: seq<int>): Outcome
  {
    if ps == [] then Filtered([])
    else
      var n := |ps| - 1;
      match TagFiltered(ps[..n], tags, ids)
      case AssertionError(id) => AssertionError(id)
      case Filtered(kept) =>
        match TagCheck(tags, ids, ps[n])
        case BadId(id) => AssertionError(id)
        case Carries(hit) => Filtered(if hit then kept + [ps[n]] else kept)
  }

  /** The problem carries the tag of some chosen index that is in range. */
  predicate HasChosenTag(tags: seq<string>, ids: seq<int>, p: Problem)
  {
    exists k :: 0 <= k < |ids| && InRange(tags, ids[k]) && tags[ids[k]] in p.tags
  }

  function ChosenTest(tags: seq<string>, ids: seq<int>): Problem -> bool
  {
    p => HasChosenTag(tags, ids, p)
  }

  /** Lines 129-139 of the source: the nested loops with the range assertion
      and the early `break`. The empty-choice shortcut is the caller's. */
  method FilterByTags(problems: seq<Problem>, tags: seq<string>, ids: seq<int>) returns (r: Outcome)
    ensures r == TagFiltered(problems, tags, ids)
  {
    var filtered := [];
    for i := 0 to |problems|
      invariant TagFiltered(problems[..i], tags, ids) == Filtered(filtered)
    {
      assert problems[..i + 1][..i] == problems[..i];
      var problem := problems[i];
      var isProblemOk := false;
      for k := 0 to |ids|
        invariant !isProblemOk
        invariant TagCheck(tags, ids, problem) == TagCheck(tags, ids[k..], problem)
      {
        var id := ids[k];
        if !(0 <= id < |tags|) {
          assert TagFiltered(problems[..i + 1], tags, ids) == AssertionError(id);
          ErrorPersists(problems, tags, ids, i + 1);
          return AssertionError(id);
        }
        assert ids[k..][1..] == ids[k + 1..];
        if tags[id] in problem.tags {
          isProblemOk := true;
          break;
        }
      }
      if isProblemOk {
        filtered := filtered + [problem];
      }
    }
    assert problems[..|problems|] == problems;
    return Filtered(filtered);
  }

  /** Once the assertion has failed on a prefix, the whole filter fails with
      that index. */
  lemma {:induction false} ErrorPersists(ps: seq<Problem>, tags: seq<string>, ids: seq<int>, i: nat)
    requires i <= |ps|
    requires TagFiltered(ps[..i], tags, ids).AssertionError?
    ensures TagFiltered(ps, tags, ids) == TagFiltered(ps[..i], tags, ids)
    decreases |ps| - i
  {
    if i < |ps| {
      assert ps[..i + 1][..i] == ps[..i];
      ErrorPersists(ps, tags, ids, i + 1);
    } else {
      assert ps[..i] == ps;
    }
  }

  /** With every chosen index in range, the check on a problem answers
      whether it carries some chosen tag. */
  lemma {:induction false} TagCheckInRange(tags: seq<string>, ids: seq<int>, p: Problem)
    requires forall k :: 0 <= k < |ids| ==> InRange(tags, ids[k])
    ensures TagCheck(tags, ids, p) == Carries(HasChosenTag(tags, ids, p))
  {
    if ids != [] {
      TagCheckInRange(tags, ids[1..], p);
      if !(tags[ids[0]] in p.tags) {
        assert HasChosenTag(tags, ids, p) ==> HasChosenTag(tags, ids[1..], p) by {
          if HasChosenTag(tags, ids, p) {
            var k :| 0 <= k < |ids| && InRange(tags, ids[k]) && tags[ids[k]] in p.tags;
            assert ids[1..][k - 1] == ids[k];
          }
        }
        assert HasChosenTag(tags, ids[1..], p) ==> HasChosenTag(tags, ids, p) by {
          if HasChosenTag(tags, ids[1..], p) {
            var k :| 0 <= k < |ids[1..]| && InRange(tags, ids[1..][k]) && tags[ids[1..][k]] in p.tags;
            assert ids[k + 1] == ids[1..][k];
          }
        }
      } else {
        assert InRange(tags, ids[0]) && tags[ids[0]] in p.tags;
      }
    }
  }

  /** With every chosen index in range the filter cannot fail, and it keeps,
      in order, exactly the problems that carry some chosen tag. */
  lemma {:induction false} TagFilterInRange(ps: seq<Problem>, tags: seq<string>, ids: seq<int>)
    requires forall k :: 0 <= k < |ids| ==> InRange(tags, ids[k])
    ensures TagFiltered(ps, tags, ids) == Filtered(Keep(ps, ChosenTest(tags, ids)))
  {
    if ps != [] {
      var n := |ps| - 1;
      TagFilterInRange(ps[..n], tags, ids);
      TagCheckInRange(tags, ids, ps[n]);
    }
  }

  /** The assertion is the only way the filter fails, and it fails on a
      chosen index that is out of range. */
  lemma {:induction false} TagFilterFailsOnBadId(ps: seq<Problem>, tags: seq<string>, ids: seq<int>)
    ensures TagFiltered(ps, tags, ids).AssertionError? ==>
      ps != [] && TagFiltered(ps, tags, ids).id in ids && !InRange(tags, TagFiltered(ps, tags, ids).id)
  {
    if ps != [] {
      var n := |ps| - 1;
      TagFilterFailsOnBadId(ps[..n], tags, ids);
      TagCheckBadId(tags, ids, ps[n]);
    }
  }

  lemma {:induction false} TagCheckBadId(tags: seq<string>, ids: seq<int>, p: Problem)
    ensures TagCheck(tags, ids, p).BadId? ==>
      TagCheck(tags, ids, p).id in ids && !InRange(tags, TagCheck(tags, ids, p).id)
  {
    if ids != [] && InRange(tags, ids[0]) && !(tags[ids[0]] in p.tags) {
      TagCheckBadId(tags, ids[1..], p);
    }
  }

  /** The check is lazy: an index after the first hit is never looked at, so
      an out-of-range index there does no harm. */
  lemma {:induction false} HitStopsSearch(tags: seq<string>, ids: seq<int>, p: Problem, k: nat)
    requires k < |ids|
    requires forall j :: 0 <= j <= k ==> InRange(tags, ids[j])
    requires InRange(tags, ids[k]) && tags[ids[k]] in p.tags
    ensures TagCheck(tags, ids, p) == Carries(true)
  {
    if k > 0 && !(tags[ids[0]] in p.tags) {
      assert forall j :: 0 <= j <= k - 1 ==> ids[1..][j] == ids[j + 1];
      HitStopsSearch(tags, ids[1..], p, k - 1);
    }
  }

  /** A first chosen index out of range fails the assertion as soon as there
      is a problem to test. */
  lemma BadFirstIdFails(ps: seq<Problem>, tags: seq<string>, ids: seq<int>)
    requires ps != [] && ids != [] && !InRange(tags, ids[0])
    ensures TagFiltered(ps, tags, ids).AssertionError?
  {
    assert ps[..1][..0] == [];
    assert TagFiltered(ps[..1], tags, ids) == AssertionError(ids[0]);
    ErrorPersists(ps, tags, ids, 1);
  }

  predicate Tagged(p: Problem)
  {
    p.tags != []
  }

  /** When every tag the problems carry is in the list and every index of
      the list is chosen, the filter keeps exactly the problems that carry
      at least one tag, in order. */
  lemma EveryIndexChosen(ps: seq<Problem>, tags: seq<string>, ids: seq<int>)
    requires forall k :: 0 <= k < |ids| ==> InRange(tags, ids[k])
    requires forall j :: 0 <= j < |tags| ==> j in ids
    requires forall p, t :: p in ps && t in p.tags ==> t in tags
    ensures TagFiltered(ps, tags, ids) == Filtered(Keep(ps, Tagged))
  {
    TagFilterInRange(ps, tags, ids);
    forall p | p in ps ensures ChosenTest(tags, ids)(p) == Tagged(p) {
      if Tagged(p) {
        var t := p.tags[0];
        assert t in tags;
        var j :| 0 <= j < |tags| && tags[j] == t;
        assert j in ids;
        var k :| 0 <= k < |ids| && ids[k] == j;
        assert InRange(tags, ids[k]) && tags[ids[k]] in p.tags;
      }
    }
    KeepCongruent(ps, ChosenTest(tags, ids), Tagged);
  }

  /** Whatever in-range indices are chosen, only problems that carry at least
      one tag get through: no selection keeps more than choosing every index
      does. */
  lemma TagFilterWithinTagged(ps: seq<Problem>, tags: seq<string>, ids: seq<int>)
    requires forall k :: 0 <= k < |ids| ==> InRange(tags, ids[k])
    ensures TagFiltered(ps, tags, ids).Filtered?
    ensures forall p :: p in TagFiltered(ps, tags, ids).problems ==> p in Keep(ps, Tagged)
  {
    TagFilterInRange(ps, tags, ids);
    forall p | p in TagFiltered(ps, tags, ids).problems ensures p in Keep(ps, Tagged) {
      KeepMembers(ps, ChosenTest(tags, ids), p);
      var k :| 0 <= k < |ids| && InRange(tags, ids[k]) && tags[ids[k]] in p.tags;
      KeepMembers(ps, Tagged, p);
    }
  }

  /** Choosing more indices keeps more: when every index of `ids1` is also
      chosen in `ids2`, the first result is the second one filtered further,
      so it is a subsequence of it. */
  lemma TagFilterMonotone(ps: seq<Problem>, tags: seq<string>, ids1: seq<int>, ids2: seq<int>)
    requires forall k :: 0 <= k < |ids2| ==> InRange(tags, ids2[k])
    requires forall k :: 0 <= k < |ids1| ==> ids1[k] in ids2
    ensures TagFiltered(ps, tags, ids1).Filtered? && TagFiltered(ps, tags, ids2).Filtered?
    ensures TagFiltered(ps, tags, ids1).problems ==
      Keep(TagFiltered(ps, tags, ids2).problems, ChosenTest(tags, ids1))
  {
    forall k | 0 <= k < |ids1| ensures InRange(tags, ids1[k]) {
      var j :| 0 <= j < |ids2| && ids2[j] == ids1[k];
    }
    TagFilterInRange(ps, tags, ids1);
    TagFilterInRange(ps, tags, ids2);
    forall p | p in ps && ChosenTest(tags, ids1)(p) ensures ChosenTest(tags, ids2)(p) {
      var k :| 0 <= k < |ids1| && InRange(tags, ids1[k]) && tags[ids1[k]] in p.tags;
      var j :| 0 <= j < |ids2| && ids2[j] == ids1[k];
      assert InRange(tags, ids2[j]) && tags[ids2[j]] in p.tags;
    }
    KeepNested(ps, ChosenTest(tags, ids1), ChosenTest(tags, ids2));
  }
}
