/** Tag statistics and ranking: a Counter of the candidates' tags, and the
    tags listed rarest first, each once. */
module TagStats {
  import opened Codeforces
  import opened Sequences

  /** Every tag of every problem, problem by problem, in list order: the
      order in which the counting loop meets them. */
  function AllTags(ps: seq<Problem>): seq<string>
  {
    if ps == [] then [] else AllTags(ps[..|ps| - 1]) + ps[|ps| - 1].tags
  }

  /** The number of occurrences of `t` in the tag lists of `ps`, each list
      contributing once per occurrence. */
  function Occurrences(ps: seq<Problem>, t: string): nat
  {
    if ps == [] then 0 else Occurrences(ps[..|ps| - 1], t) + Count(ps[|ps| - 1].tags, t)
  }

  /** The distinct elements of `ts` in order of first occurrence: the key
      order of a Counter filled from `ts`. */
  function FirstSeen(ts: seq<string>): (r: seq<string>)
    ensures forall t :: t in r ==> t in ts
    ensures forall t :: t in ts ==> t in r
  {
    if ts == [] then []
    else
      var n := |ts| - 1;
      assert ts == ts[..n] + [ts[n]];
      var r := FirstSeen(ts[..n]);
      if ts[n] in r then r else r + [ts[n]]
  }

  /** What meeting the tag `tags[j]` does to the key order and the counts. */
  lemma CountingStep(before: seq<string>, tags: seq<string>, j: nat)
    requires j < |tags|
    ensures FirstSeen(before + tags[..j + 1]) ==
      var r := FirstSeen(before + tags[..j]); if tags[j] in r then r else r + [tags[j]]
    ensures forall t :: Count(tags[..j + 1], t) == Count(tags[..j], t) + (if tags[j] == t then 1 else 0)
  {
    assert tags[..j + 1] == tags[..j] + [tags[j]];
    var next := before + tags[..j + 1];
    assert next == (before + tags[..j]) + [tags[j]];
    assert next[..|next| - 1] == before + tags[..j];
  }

  /** A Counter's lookup: 0 for a key it has never seen. */
  function CountOf(count: map<string, nat>, t: string): nat
  {
    if t in count then count[t] else 0
  }

  /** `getStats`: count every tag of every problem. Besides the counts,
      `seen` records the order in which keys entered the Counter, which
      decides how the ranking breaks ties. */
  method GetStats(problems: seq<Problem>) returns (seen: seq<string>, count: map<string, nat>)
    ensures seen == FirstSeen(AllTags(problems))
    ensures forall t :: t in count <==> Occurrences(problems, t) > 0
    ensures forall t :: t in count ==> count[t] == Occurrences(problems, t)
  {
    seen, count := [], map[];
    for i := 0 to |problems|
      invariant seen == FirstSeen(AllTags(problems[..i]))
      invariant forall t :: t in seen <==> t in count
      invariant forall t :: CountOf(count, t) == Occurrences(problems[..i], t)
    {
      assert problems[..i + 1][..i] == problems[..i];
      seen, count := CountTags(seen, count, problems[i].tags, AllTags(problems[..i]));
    }
    assert problems[..|problems|] == problems;
    forall t ensures t in count <==> Occurrences(problems, t) > 0 {
      OccurrencesPositive(problems, t);
    }
  }

  /** The inner loop of `getStats`: `c[tag] += 1` for each tag of one
      problem, a new key entering the Counter's key order at its end.
      `before` is the tag stream already counted. */
  method CountTags(seen0: seq<string>, count0: map<string, nat>, tags: seq<string>, ghost before: seq<string>)
    returns (seen: seq<string>, count: map<string, nat>)
    requires seen0 == FirstSeen(before)
    requires forall t :: t in seen0 <==> t in count0
    ensures seen == FirstSeen(before + tags)
    ensures forall t :: t in seen <==> t in count
    ensures forall t :: CountOf(count, t) == CountOf(count0, t) + Count(tags, t)
  {
    seen, count := seen0, count0;
    assert before + tags[..0] == before;
    for j := 0 to |tags|
      invariant seen == FirstSeen(before + tags[..j])
      invariant forall t :: t in seen <==> t in count
      invariant forall t :: CountOf(count, t) == CountOf(count0, t) + Count(tags[..j], t)
    {
      var tag := tags[j];
      CountingStep(before, tags, j);
      ghost var count1 := count;
      if tag !in count {
        seen := seen + [tag];
      }
      count := count[tag := CountOf(count, tag) + 1];
      forall t ensures CountOf(count, t) == CountOf(count0, t) + Count(tags[..j + 1], t) {
        assert CountOf(count, t) == CountOf(count1, t) + (if tag == t then 1 else 0);
      }
    }
    assert tags[..|tags|] == tags;
  }

  predicate SortedByCount(s: seq<string>, count: map<string, nat>)
  {
    forall i, j :: 0 <= i < j < |s| ==> CountOf(count, s[i]) <= CountOf(count, s[j])
  }

  /** Put `x` after every element whose count is not larger than its own. */
  function InsertByCount(x: string, s: seq<string>, count: map<string, nat>): (r: seq<string>)
    ensures multiset(r) == multiset(s) + multiset{x}
    ensures forall y :: y in r <==> y == x || y in s
  {
    if s == [] then [x]
    else if CountOf(count, x) < CountOf(count, s[0]) then [x] + s
    else
      assert s == [s[0]] + s[1..];
      [s[0]] + InsertByCount(x, s[1..], count)
  }

  lemma {:induction false} InsertKeepsSorted(x: string, s: seq<string>, count: map<string, nat>)
    requires SortedByCount(s, count)
    ensures SortedByCount(InsertByCount(x, s, count), count)
  {
    if s != [] && CountOf(count, x) >= CountOf(count, s[0]) {
      var rest := InsertByCount(x, s[1..], count);
      InsertKeepsSorted(x, s[1..], count);
      assert forall y :: y in rest ==> CountOf(count, s[0]) <= CountOf(count, y);
    }
  }

  lemma {:induction false} InsertKeepsDistinct(x: string, s: seq<string>, count: map<string, nat>)
    requires Distinct(s) && x !in s
    ensures Distinct(InsertByCount(x, s, count))
  {
    if s != [] && CountOf(count, x) >= CountOf(count, s[0]) {
      assert s == [s[0]] + s[1..];
      InsertKeepsDistinct(x, s[1..], count);
      var rest := InsertByCount(x, s[1..], count);
      assert s[0] !in rest;
      var r := [s[0]] + rest;
      forall i, j | 0 <= i < j < |r| ensures r[i] != r[j] {
        if i == 0 { assert r[j] in rest; }
        else { assert r[i] == rest[i - 1] && r[j] == rest[j - 1]; }
      }
    }
  }

  /** A stable insertion sort by ascending count. */
  function SortByCount(s: seq<string>, count: map<string, nat>): (r: seq<string>)
    ensures multiset(r) == multiset(s)
    ensures forall y :: y in r <==> y in s
    ensures SortedByCount(r, count)
  {
    if s == [] then []
    else
      var n := |s| - 1;
      assert s == s[..n] + [s[n]];
      var sorted := SortByCount(s[..n], count);
      InsertKeepsSorted(s[n], sorted, count);
      InsertByCount(s[n], sorted, count)
  }

  /** Sorting a list without repeats introduces none. */
  lemma {:induction false} SortKeepsDistinct(s: seq<string>, count: map<string, nat>)
    requires Distinct(s)
    ensures Distinct(SortByCount(s, count))
  {
    if s != [] {
      var n := |s| - 1;
      assert s == s[..n] + [s[n]];
      assert Distinct(s[..n]);
      SortKeepsDistinct(s[..n], count);
      InsertKeepsDistinct(s[n], SortByCount(s[..n], count), count);
    }
  }

  /** `most_common()` reversed: the Counter's keys by ascending count. The
      descending sort is stable, so after the reversal tied tags come out in
      reverse order of first occurrence; sorting the reversed key order
      stably by ascending count gives the same list. */
  function RankTags(seen: seq<string>, count: map<string, nat>): (r: seq<string>)
    ensures multiset(r) == multiset(seen)
    ensures Distinct(seen) ==> Distinct(r)
    ensures SortedByCount(r, count)
  {
    assert Distinct(seen) ==> Distinct(SortByCount(Reversed(seen), count)) by {
      if Distinct(seen) {
        SortKeepsDistinct(Reversed(seen), count);
      }
    }
    SortByCount(Reversed(seen), count)
  }

  /** The Counter `GetStats` builds, as a value. */
  function TagCounter(ps: seq<Problem>): map<string, nat>
  {
    map t | t in AllTags(ps) :: Occurrences(ps, t)
  }

  /** The ranked tag list shown to the user; position = display index. */
  function RankedTags(ps: seq<Problem>): seq<string>
  {
    RankTags(FirstSeen(AllTags(ps)), TagCounter(ps))
  }

  /** A Counter never holds a key twice. */
  lemma {:induction false} FirstSeenDistinct(ts: seq<string>)
    ensures Distinct(FirstSeen(ts))
  {
    if ts != [] {
      FirstSeenDistinct(ts[..|ts| - 1]);
    }
  }

  /** Counting per problem is counting along the flattened tag stream. */
  lemma {:induction false} OccurrencesFlat(ps: seq<Problem>, t: string)
    ensures Occurrences(ps, t) == Count(AllTags(ps), t)
  {
    if ps != [] {
      var n := |ps| - 1;
      OccurrencesFlat(ps[..n], t);
      CountConcat(AllTags(ps[..n]), ps[n].tags, t);
    }
  }

  /** A tag is counted exactly when some problem carries it. */
  lemma OccurrencesPositive(ps: seq<Problem>, t: string)
    ensures Occurrences(ps, t) > 0 <==> t in AllTags(ps)
    ensures t in AllTags(ps) <==> exists p :: p in ps && t in p.tags
  {
    OccurrencesFlat(ps, t);
    CountPositive(AllTags(ps), t);
    AllTagsMembers(ps, t);
  }

  lemma {:induction false} AllTagsMembers(ps: seq<Problem>, t: string)
    ensures t in AllTags(ps) <==> exists p :: p in ps && t in p.tags
  {
    if ps != [] {
      var n := |ps| - 1;
      AllTagsMembers(ps[..n], t);
      assert ps == ps[..n] + [ps[n]];
    }
  }

  /** When no problem lists a tag twice, a tag's count is the number of
      problems that carry it. */
  lemma {:induction false} OccurrencesCountProblems(ps: seq<Problem>, t: string)
    requires forall p :: p in ps ==> Distinct(p.tags)
    ensures Occurrences(ps, t) == |Keep(ps, (p: Problem) => t in p.tags)|
  {
    if ps != [] {
      var n := |ps| - 1;
      assert forall p :: p in ps[..n] ==> p in ps;
      OccurrencesCountProblems(ps[..n], t);
      assert ps[n] in ps;
      CountDistinct(ps[n].tags, t);
    }
  }

  /** `getStats` yields the Counter the ranking reads. */
  lemma StatsAreTagCounter(ps: seq<Problem>, count: map<string, nat>)
    requires forall t :: t in count <==> Occurrences(ps, t) > 0
    requires forall t :: t in count ==> count[t] == Occurrences(ps, t)
    ensures count == TagCounter(ps)
  {
    forall t ensures t in count <==> t in TagCounter(ps) {
      OccurrencesPositive(ps, t);
    }
  }

  /** The ranked list holds each tag of the candidates exactly once, and no
      other string, with counts in non-decreasing order. */
  lemma RankedTagsExactlyOnce(ps: seq<Problem>)
    ensures forall t :: t in RankedTags(ps) <==> Occurrences(ps, t) > 0
    ensures Distinct(RankedTags(ps))
    ensures forall i, j :: 0 <= i < j < |RankedTags(ps)| ==>
      Occurrences(ps, RankedTags(ps)[i]) <= Occurrences(ps, RankedTags(ps)[j])
  {
    var flat := AllTags(ps);
    FirstSeenDistinct(flat);
    var r := RankedTags(ps);
    var counter := TagCounter(ps);
    forall t ensures t in r <==> Occurrences(ps, t) > 0 {
      OccurrencesPositive(ps, t);
      assert t in r <==> t in multiset(r);
    }
    forall t | t in r ensures CountOf(counter, t) == Occurrences(ps, t) {
      OccurrencesPositive(ps, t);
      assert t in multiset(r);
    }
  }
}
