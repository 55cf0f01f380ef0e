/** The question sampler: a random subset of the question pool at a given difficulty. */
module Sampler {

  datatype Question = Question(id: nat, difficulty: int, text: string, choices: seq<string>, answer: nat)

  /** Which questions a filter keeps: exactly one difficulty, or every difficulty up to a bound. */
  datatype Criterion = Exactly(level: int) | AtMost(level: int)

  predicate Accepts(c: Criterion, q: Question) {
    match c
    case Exactly(d) => q.difficulty == d
    case AtMost(d) => q.difficulty <= d
  }

  /** The questions of `pool` that meet `c`, in pool order. */
  function Filter(pool: seq<Question>, c: Criterion): (r: seq<Question>)
    ensures |r| <= |pool|
    ensures forall k :: 0 <= k < |r| ==> Accepts(c, r[k])
  {
    if pool == [] then []
    else (if Accepts(c, pool[0]) then [pool[0]] else []) + Filter(pool[1..], c)
  }

  /** Filtering keeps every question that meets the criterion, as often as the pool has it,
      and drops every other. */
  lemma {:induction false} FilterKeepsAccepted(pool: seq<Question>, c: Criterion, q: Question)
    ensures multiset(Filter(pool, c))[q] == if Accepts(c, q) then multiset(pool)[q] else 0
  {
    if pool != [] {
      assert pool == [pool[0]] + pool[1..];
      FilterKeepsAccepted(pool[1..], c, q);
    }
  }

  /** The pool a sample of `n` questions at difficulty `d` is drawn from: the questions of
      exactly that difficulty, or, when there are fewer than `n` of those, every question of
      difficulty at most `d + 1`. */
  function ChosenPool(pool: seq<Question>, d: int, n: nat): seq<Question> {
    var exact := Filter(pool, Exactly(d));
    if |exact| < n then Filter(pool, AtMost(d + 1)) else exact
  }

  function Min(x: nat, y: nat): nat {
    if x <= y then x else y
  }

  /** Shuffles a copy of the chosen pool (Fisher-Yates; each draw `j` in `0..i` is left open)
      and keeps its first `n` questions. */
  method SampleQuestions(pool: seq<Question>, d: int, n: nat) returns (qs: seq<Question>)
    ensures |qs| == Min(n, |ChosenPool(pool, d, n)|)
    ensures multiset(qs) <= multiset(ChosenPool(pool, d, n))
    ensures n >= |ChosenPool(pool, d, n)| ==> multiset(qs) == multiset(ChosenPool(pool, d, n))
  {
    var chosen := Filter(pool, Exactly(d));
    if |chosen| < n {
      chosen := Filter(pool, AtMost(d + 1));
    }
    assert chosen == ChosenPool(pool, d, n);
    var copy := new Question[|chosen|](k requires 0 <= k < |chosen| => chosen[k]);
    assert copy[..] == chosen;
    var i := copy.Length - 1;
    while i > 0
      invariant -1 <= i < copy.Length
      invariant multiset(copy[..]) == multiset(chosen)
    {
      var j :| 0 <= j <= i;
      ghost var before := copy[..];
      copy[i], copy[j] := copy[j], copy[i];
      SwapKeepsMultiset(before, i, j);
      assert copy[..] == before[i := before[j]][j := before[i]];
      i := i - 1;
    }
    var k := Min(n, copy.Length);
    qs := copy[..k];
    PrefixIsSubMultiset(copy[..], k);
  }

  lemma PrefixIsSubMultiset(s: seq<Question>, k: nat)
    requires k <= |s|
    ensures multiset(s[..k]) <= multiset(s)
    ensures k == |s| ==> multiset(s[..k]) == multiset(s)
  {
    assert s == s[..k] + s[k..];
  }

  lemma SwapKeepsMultiset(s: seq<Question>, i: nat, j: nat)
    requires i < |s| && j < |s|
    ensures multiset(s[i := s[j]][j := s[i]]) == multiset(s)
  {
  }

  /** No question occurs twice. */
  predicate Distinct(s: seq<Question>) {
    forall i, j :: 0 <= i < j < |s| ==> s[i] != s[j]
  }

  lemma {:induction false} DistinctOccursOnce(s: seq<Question>, q: Question)
    requires Distinct(s)
    ensures multiset(s)[q] <= 1
  {
    if s != [] {
      assert s == [s[0]] + s[1..];
      assert Distinct(s[1..]);
      DistinctOccursOnce(s[1..], q);
      if s[0] == q {
        assert q !in s[1..];
      }
    }
  }

  lemma RepeatOccursTwice(s: seq<Question>, i: nat, j: nat)
    requires i < j < |s| && s[i] == s[j]
    ensures multiset(s)[s[i]] >= 2
  {
    assert s == s[..j] + s[j..];
    assert s[i] in s[..j];
    assert s[j] in s[j..];
  }

  /** A sample drawn from a pool of distinct questions has no repeated question, and every
      question in it is one of the chosen pool. */
  lemma SampleHasNoRepeats(qs: seq<Question>, pool: seq<Question>, d: int, n: nat)
    requires Distinct(pool)
    requires multiset(qs) <= multiset(ChosenPool(pool, d, n))
    ensures Distinct(qs)
    ensures forall q :: q in qs ==> q in pool && (if |Filter(pool, Exactly(d))| < n then q.difficulty <= d + 1 else q.difficulty == d)
  {
    forall i, j | 0 <= i < j < |qs|
      ensures qs[i] != qs[j]
    {
      if qs[i] == qs[j] {
        RepeatOccursTwice(qs, i, j);
        DistinctOccursOnce(pool, qs[i]);
        FilterKeepsAccepted(pool, Exactly(d), qs[i]);
        FilterKeepsAccepted(pool, AtMost(d + 1), qs[i]);
        assert false;
      }
    }
    forall q | q in qs
      ensures q in pool && (if |Filter(pool, Exactly(d))| < n then q.difficulty <= d + 1 else q.difficulty == d)
    {
      assert multiset(qs)[q] > 0;
      FilterKeepsAccepted(pool, Exactly(d), q);
      FilterKeepsAccepted(pool, AtMost(d + 1), q);
    }
  }
}
