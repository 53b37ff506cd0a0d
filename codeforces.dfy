/** The records the reconciliation works on, as the remote service delivers
    them, and the solved-problem key built from a contest id and a name. */
module Codeforces {

  datatype Option<T> = None | Some(value: T)

  /** A submission. `contestId` is absent when the submission cannot be
      attributed to a contest; `problemName` is the submission's
      `problem.name`; `verdict` is `"OK"` for an accepted submission. */
  datatype Submission = Submission(contestId: Option<int>, problemName: string, verdict: string)

  /** A catalog entry; the catalog maps each id to its contest. */
  datatype Contest = Contest(id: int, name: string)

  /** A catalog problem. `tags` is the record's tag list, in its order. */
  datatype Problem = Problem(
    contestId: Option<int>,
    index: string,
    name: string,
    rating: Option<int>,
    tags: seq<string>)

  /** The library routine that reads a contest's edition number out of its
      display name, or reports that there is none. Its code is not part of
      this model, so it is passed in as a parameter. */
  type ContestNumber = string -> Option<int>

  predicate Accepted(s: Submission)
  {
    s.verdict == "OK"
  }

  function DigitChar(d: nat): (c: char)
    requires d < 10
    ensures '0' <= c <= '9' && c as int - '0' as int == d
  {
    (d + '0' as int) as char
  }

  /** The number a string of decimal digits denotes, read left to right. */
  function DigitsValue(s: string): int
  {
    if s == [] then 0
    else DigitsValue(s[..|s| - 1]) * 10 + (s[|s| - 1] as int - '0' as int)
  }

  /** Decimal digits of `n`, without leading zeros. */
  function NatToString(n: nat): (r: string)
    ensures r != []
    ensures forall c :: c in r ==> '0' <= c <= '9'
    decreases n
  {
    if n < 10 then [DigitChar(n)] else NatToString(n / 10) + [DigitChar(n % 10)]
  }

  /** The digits denote `n`, and only 0 is written with a leading zero. */
  lemma {:induction false} NatToStringValue(n: nat)
    ensures DigitsValue(NatToString(n)) == n
    ensures NatToString(n)[0] == '0' <==> n == 0
    decreases n
  {
    if n >= 10 {
      NatToStringValue(n / 10);
      var r := NatToString(n);
      assert r[..|r| - 1] == NatToString(n / 10);
    }
  }

  /** Python's `str` on an integer: a minus sign, then the digits. */
  function IntToString(i: int): string
  {
    if i < 0 then "-" + NatToString(-i) else NatToString(i)
  }

  /** A non-negative integer is written as its digits; a negative one as a
      minus sign followed by the digits of its magnitude. */
  lemma IntToStringValue(i: int)
    ensures IntToString(i) != []
    ensures i >= 0 ==> DigitsValue(IntToString(i)) == i && IntToString(i)[0] != '-'
    ensures i < 0 ==> IntToString(i)[0] == '-' && DigitsValue(IntToString(i)[1..]) == -i
  {
    if i < 0 {
      NatToStringValue(-i);
      assert IntToString(i)[1..] == NatToString(-i);
    } else {
      NatToStringValue(i);
      assert NatToString(i)[0] in NatToString(i);
    }
  }

  /** The solved-set key of a problem: `str(cid) + name`, with no separator. */
  function SolvedKey(cid: int, name: string): string
  {
    IntToString(cid) + name
  }

  /** The name ends the key, and what comes before it is the decimal form of
      the contest id, with a minus sign exactly when the id is negative. */
  lemma SolvedKeyParts(cid: int, name: string)
    ensures var k := SolvedKey(cid, name);
      && |k| > |name|
      && k[|k| - |name|..] == name
      && k[..|k| - |name|] == IntToString(cid)
      && (cid >= 0 ==> DigitsValue(k[..|k| - |name|]) == cid)
      && (cid < 0 ==> k[0] == '-' && DigitsValue(k[1..|k| - |name|]) == -cid)
  {
    var k := SolvedKey(cid, name);
    var d := IntToString(cid);
    IntToStringValue(cid);
    assert k[..|k| - |name|] == d;
    if cid < 0 {
      assert k[1..|k| - |name|] == d[1..];
    }
  }

  /** Different integers have different decimal forms. */
  lemma IntToStringInjective(a: int, b: int)
    requires IntToString(a) == IntToString(b)
    ensures a == b
  {
    IntToStringValue(a);
    IntToStringValue(b);
    if a < 0 && b < 0 {
      assert IntToString(a)[1..] == IntToString(b)[1..];
    }
  }

  /** For one problem name, different contests give different keys: keys
      collide only across different names. */
  lemma KeyDeterminesContest(a: int, b: int, name: string)
    requires SolvedKey(a, name) == SolvedKey(b, name)
    ensures a == b
  {
    SolvedKeyParts(a, name);
    SolvedKeyParts(b, name);
    IntToStringInjective(a, b);
  }

  /** The key has no separator, so different (contest, name) pairs can share
      a key: contest 1 with "23" and contest 12 with "3" both give "123". */
  lemma KeyCollision()
    ensures SolvedKey(1, "23") == SolvedKey(12, "3")
  {
    assert NatToString(12) == NatToString(1) + [DigitChar(2)];
  }
}
