/** The congruence engine of netlify/functions/congruence-engine.js: the score
    that compares two partners' responses of one day, its suggestion category,
    and the request handler around them. The store, the clock and the random
    activity pick are inputs. */
module CongruenceEngine {
  import opened Wrappers
  import opened Profiles
  import CoupleIdentity

  /** One row of the responses table, as far as scoring reads it. */
  datatype Response = Response(qid: QuestionId, likert: Option<int>)

  /** `r.response_likert` tested for truthiness: missing and 0 are both false. */
  predicate HasLikert(r: Response)
  {
    r.likert.Some? && r.likert.value != 0
  }

  function Abs(x: int): (n: nat)
  {
    if x < 0 then -x else x
  }

  predicate Distinct<T(==)>(s: seq<T>)
  {
    forall i, j :: 0 <= i < j < |s| ==> s[i] != s[j]
  }

  /** Position i holds the last response for its question id. */
  ghost predicate IsLast(rs: seq<Response>, i: int)
    requires 0 <= i < |rs|
  {
    forall j :: i < j < |rs| ==> rs[j].qid != rs[i].qid
  }

  /** `Object.fromEntries(rs.map(r => [r.question_id, r]))`: every id answered
      is a key, and a later response for the same id replaces an earlier one. */
  function Index(rs: seq<Response>): (m: map<QuestionId, Response>)
    decreases |rs|
  {
    if rs == [] then map[]
    else Index(rs[..|rs| - 1])[rs[|rs| - 1].qid := rs[|rs| - 1]]
  }

  /** The keys are exactly the ids answered, each mapped to a response for it. */
  lemma {:induction false} IndexDomain(rs: seq<Response>)
    ensures forall r :: r in rs ==> r.qid in Index(rs)
    ensures forall q :: q in Index(rs) ==> Index(rs)[q] in rs && Index(rs)[q].qid == q
    decreases |rs|
  {
    if rs != [] {
      var init := rs[..|rs| - 1];
      assert rs == init + [rs[|rs| - 1]];
      IndexDomain(init);
    }
  }

  /** The entry kept for an id is the id's last response. */
  lemma {:induction false} IndexKeepsLast(rs: seq<Response>, i: int)
    requires 0 <= i < |rs| && IsLast(rs, i)
    ensures rs[i].qid in Index(rs) && Index(rs)[rs[i].qid] == rs[i]
    decreases |rs|
  {
    var init := rs[..|rs| - 1];
    if i < |rs| - 1 {
      assert IsLast(init, i);
      IndexKeepsLast(init, i);
    }
  }

  /** `a.filter(r => mapB[r.question_id])`: A's responses, in A's order and
      repeats included, whose id B answered. Every row object is truthy, so
      the test is key presence. */
  function Shared(a: seq<Response>, mapB: map<QuestionId, Response>): (s: seq<Response>)
    decreases |a|
  {
    if a == [] then []
    else
      var kept := Shared(a[..|a| - 1], mapB);
      if a[|a| - 1].qid in mapB then kept + [a[|a| - 1]] else kept
  }

  /** The filter keeps exactly A's responses whose id B answered. */
  lemma {:induction false} SharedMembers(a: seq<Response>, mapB: map<QuestionId, Response>)
    ensures forall r :: r in Shared(a, mapB) <==> r in a && r.qid in mapB
    decreases |a|
  {
    if a != [] {
      var init := a[..|a| - 1];
      assert a == init + [a[|a| - 1]];
      SharedMembers(init, mapB);
    }
  }

  function Ids(rs: seq<Response>): (ids: seq<QuestionId>)
    ensures |ids| == |rs|
    ensures forall k :: 0 <= k < |rs| ==> ids[k] == rs[k].qid
  {
    seq(|rs|, k requires 0 <= k < |rs| => rs[k].qid)
  }

  lemma IdsSnoc(rs: seq<Response>, i: int)
    requires 0 <= i < |rs|
    ensures Ids(rs[..i + 1]) == Ids(rs[..i]) + [rs[i].qid]
  {
  }

  /** What one shared question adds to `totalDiff`. */
  function DiffAt(mapA: map<QuestionId, Response>, mapB: map<QuestionId, Response>, q: QuestionId): (d: nat)
  {
    if q in mapA && q in mapB && HasLikert(mapA[q]) && HasLikert(mapB[q])
    then Abs(mapA[q].likert.value - mapB[q].likert.value)
    else 0
  }

  /** The sum of the differences over a sequence of question ids. */
  function TotalDiff(ids: seq<QuestionId>, mapA: map<QuestionId, Response>, mapB: map<QuestionId, Response>): (t: nat)
    decreases |ids|
  {
    if ids == [] then 0
    else TotalDiff(ids[..|ids| - 1], mapA, mapB) + DiffAt(mapA, mapB, ids[|ids| - 1])
  }

  /** `r` is `Math.round(num / den)`: r - 1/2 <= num/den < r + 1/2, so a tie
      rounds up. */
  predicate RoundsTo(r: int, num: int, den: int)
  {
    2 * den * r <= 2 * num + den < 2 * den * (r + 1)
  }

  /** `Math.round(num / den)` in integer arithmetic. */
  function RoundHalfUp(num: int, den: int): (r: int)
    requires den > 0
  {
    (2 * num + den) / (2 * den)
  }

  lemma RoundHalfUpNearest(num: int, den: int)
    requires den > 0
    ensures RoundsTo(RoundHalfUp(num, den), num, den)
  {
  }

  /** `Math.round((1 - totalDiff / maxDiff) * 100)` with `maxDiff = 4 * sharedCount`,
      computed exactly. */
  function Score(totalDiff: int, sharedCount: nat): (s: int)
    requires sharedCount > 0
    ensures RoundsTo(s, 100 * (4 * sharedCount - totalDiff), 4 * sharedCount)
  {
    var maxDiff := 4 * sharedCount;
    RoundHalfUp(100 * (maxDiff - totalDiff), maxDiff)
  }

  /** The value `calculateCongruence(a, b)` returns: 50 when no question is
      shared, and otherwise `100 * (maxDiff - totalDiff) / maxDiff` rounded to
      the nearest integer, a tie rounding up. */
  function Congruence(a: seq<Response>, b: seq<Response>): (s: int)
    ensures |Shared(a, Index(b))| == 0 ==> s == 50
    ensures |Shared(a, Index(b))| > 0 ==>
      var maxDiff := 4 * |Shared(a, Index(b))|;
      var totalDiff := TotalDiff(Ids(Shared(a, Index(b))), Index(a), Index(b));
      RoundsTo(s, 100 * (maxDiff - totalDiff), maxDiff)
  {
    var mapA := Index(a);
    var mapB := Index(b);
    var shared := Shared(a, mapB);
    if |shared| == 0 then 50
    else Score(TotalDiff(Ids(shared), mapA, mapB), |shared|)
  }

  /** `calculateCongruence`: index both sides, filter A by B, accumulate the
      likert differences in a loop, then scale and round. */
  method CalculateCongruence(a: seq<Response>, b: seq<Response>) returns (score: int)
    ensures score == Congruence(a, b)
  {
    var mapA := Index(a);
    var mapB := Index(b);
    var shared := Shared(a, mapB);
    if |shared| == 0 {
      return 50;
    }
    SharedLookups(a, b);
    var totalDiff := 0;
    for i := 0 to |shared|
      invariant totalDiff == TotalDiff(Ids(shared[..i]), mapA, mapB)
    {
      var r := shared[i];
      assert Ids(shared)[i] == r.qid;
      var ra := mapA[r.qid];
      var rb := mapB[r.qid];
      if HasLikert(ra) && HasLikert(rb) {
        totalDiff := totalDiff + Abs(ra.likert.value - rb.likert.value);
      }
      IdsSnoc(shared, i);
      TotalDiffSnoc(Ids(shared[..i]), r.qid, mapA, mapB);
    }
    assert shared[..|shared|] == shared;
    var maxDiff := |shared| * 4;
    score := RoundHalfUp(100 * (maxDiff - totalDiff), maxDiff);
    assert score == Score(TotalDiff(Ids(shared), mapA, mapB), |shared|);
  }

  // ---------------------------------------------------------------------------
  // Rounding facts

  lemma MulMonotone(d: int, x: int, y: int)
    requires d > 0 && d * x < d * y
    ensures x < y
  {
    assert d * y - d * x == d * (y - x);
  }

  /** Rounding an integer quotient gives that integer. */
  lemma RoundExact(k: int, den: int)
    requires den > 0
    ensures RoundHalfUp(k * den, den) == k
  {
    var r := RoundHalfUp(k * den, den);
    RoundHalfUpNearest(k * den, den);
    assert 2 * den * r <= 2 * (k * den) + den < 2 * den * (r + 1);
    assert 2 * den * r < 2 * den * (k + 1) by {
      assert 2 * (k * den) + den < 2 * den * (k + 1) by {
        assert 2 * den * (k + 1) == 2 * (k * den) + 2 * den;
      }
    }
    MulMonotone(2 * den, r, k + 1);
    assert 2 * den * k < 2 * den * (r + 1) by {
      assert 2 * den * k <= 2 * (k * den) + den;
    }
    MulMonotone(2 * den, k, r + 1);
  }

  /** A quotient in [0, 100] rounds into [0, 100]. */
  lemma RoundInRange(num: int, den: int)
    requires den > 0 && 0 <= num <= 100 * den
    ensures 0 <= RoundHalfUp(num, den) <= 100
  {
    var r := RoundHalfUp(num, den);
    RoundHalfUpNearest(num, den);
    assert 2 * den * 0 < 2 * den * (r + 1);
    MulMonotone(2 * den, 0, r + 1);
    assert 2 * den * r < 2 * den * 101 by {
      assert 2 * den * 101 == 200 * den + 2 * den;
    }
    MulMonotone(2 * den, r, 101);
  }

  /** Rounding preserves the order of two quotients. */
  lemma RoundMonotone(n1: int, d1: int, n2: int, d2: int)
    requires d1 > 0 && d2 > 0 && n1 * d2 <= n2 * d1
    ensures RoundHalfUp(n1, d1) <= RoundHalfUp(n2, d2)
  {
    RoundHalfUpNearest(n1, d1);
    RoundHalfUpNearest(n2, d2);
    NearestMonotone(n1, d1, RoundHalfUp(n1, d1), n2, d2, RoundHalfUp(n2, d2));
  }

  lemma NearestMonotone(n1: int, d1: int, r1: int, n2: int, d2: int, r2: int)
    requires d1 > 0 && d2 > 0 && n1 * d2 <= n2 * d1
    requires 2 * d1 * r1 <= 2 * n1 + d1
    requires 2 * n2 + d2 < 2 * d2 * (r2 + 1)
    ensures r1 <= r2
  {
    var k := 2 * d1 * d2;
    calc {
      k * r1;
    == (2 * d1 * r1) * d2;
    <= { MulLeft(d2, 2 * d1 * r1, 2 * n1 + d1); }
      (2 * n1 + d1) * d2;
    == 2 * (n1 * d2) + d1 * d2;
    <= 2 * (n2 * d1) + d1 * d2;
    == (2 * n2 + d2) * d1;
    <  { MulLeftStrict(d1, 2 * n2 + d2, 2 * d2 * (r2 + 1)); }
      (2 * d2 * (r2 + 1)) * d1;
    == k * (r2 + 1);
    }
    MulMonotone(k, r1, r2 + 1);
  }

  lemma MulLeft(d: int, x: int, y: int)
    requires d > 0 && x <= y
    ensures x * d <= y * d
  {
    assert y * d - x * d == (y - x) * d;
  }

  lemma MulLeftStrict(d: int, x: int, y: int)
    requires d > 0 && x < y
    ensures x * d < y * d
  {
    assert y * d - x * d == (y - x) * d;
  }

  // ---------------------------------------------------------------------------
  // Facts about the sum of differences

  lemma {:induction false} TotalDiffConcat(xs: seq<QuestionId>, ys: seq<QuestionId>,
                                           mapA: map<QuestionId, Response>, mapB: map<QuestionId, Response>)
    ensures TotalDiff(xs + ys, mapA, mapB) == TotalDiff(xs, mapA, mapB) + TotalDiff(ys, mapA, mapB)
    decreases |ys|
  {
    if ys == [] {
      assert xs + ys == xs;
    } else {
      var init := ys[..|ys| - 1];
      assert (xs + ys)[..|xs + ys| - 1] == xs + init;
      TotalDiffConcat(xs, init, mapA, mapB);
    }
  }

  lemma TotalDiffSnoc(xs: seq<QuestionId>, x: QuestionId, mapA: map<QuestionId, Response>, mapB: map<QuestionId, Response>)
    ensures TotalDiff(xs + [x], mapA, mapB) == TotalDiff(xs, mapA, mapB) + DiffAt(mapA, mapB, x)
  {
    assert (xs + [x])[..|xs|] == xs;
  }

  /** The first position of an element in a sequence. */
  function IndexOf<T(==)>(s: seq<T>, x: T): (k: nat)
    requires x in s
    ensures k < |s| && s[k] == x
  {
    if s[0] == x then 0 else 1 + IndexOf(s[1..], x)
  }

  /** Taking out the element at `k` takes one copy of it out of the multiset. */
  lemma RemoveAt(ys: seq<QuestionId>, k: int)
    requires 0 <= k < |ys|
    ensures multiset(ys[..k] + ys[k + 1..]) == multiset(ys) - multiset{ys[k]}
  {
    assert ys == ys[..k] + [ys[k]] + ys[k + 1..];
  }

  /** The sum over `ys` is the sum without position `k` plus what `ys[k]` adds. */
  lemma TotalDiffRemoveAt(ys: seq<QuestionId>, k: int, mapA: map<QuestionId, Response>, mapB: map<QuestionId, Response>)
    requires 0 <= k < |ys|
    ensures TotalDiff(ys, mapA, mapB)
         == TotalDiff(ys[..k] + ys[k + 1..], mapA, mapB) + DiffAt(mapA, mapB, ys[k])
  {
    var x := ys[k];
    assert ys == ys[..k] + [x] + ys[k + 1..];
    TotalDiffConcat(ys[..k], [x], mapA, mapB);
    TotalDiffConcat(ys[..k] + [x], ys[k + 1..], mapA, mapB);
    TotalDiffConcat(ys[..k], ys[k + 1..], mapA, mapB);
    assert [x][..0] == [];
  }

  /** The last id of `xs` occurs in its permutation `ys` at some `k`; taking
      it out of both leaves two permutations of each other. */
  lemma MatchLast(xs: seq<QuestionId>, ys: seq<QuestionId>) returns (k: nat)
    requires xs != [] && multiset(xs) == multiset(ys)
    ensures k < |ys| && ys[k] == xs[|xs| - 1]
    ensures multiset(ys[..k] + ys[k + 1..]) == multiset(xs[..|xs| - 1])
  {
    var x := xs[|xs| - 1];
    assert xs == xs[..|xs| - 1] + [x];
    assert multiset(xs) == multiset(xs[..|xs| - 1]) + multiset{x};
    assert x in multiset(ys);
    k := IndexOf(ys, x);
    RemoveAt(ys, k);
  }

  /** The sum does not depend on the order in which the ids are visited. */
  lemma {:induction false} TotalDiffPermutation(xs: seq<QuestionId>, ys: seq<QuestionId>,
                                                mapA: map<QuestionId, Response>, mapB: map<QuestionId, Response>)
    requires multiset(xs) == multiset(ys)
    ensures TotalDiff(xs, mapA, mapB) == TotalDiff(ys, mapA, mapB)
    decreases |xs|
  {
    if xs == [] {
      assert |ys| == |multiset(ys)| == 0;
    } else {
      var k := MatchLast(xs, ys);
      TotalDiffPermutation(xs[..|xs| - 1], ys[..k] + ys[k + 1..], mapA, mapB);
      TotalDiffRemoveAt(ys, k, mapA, mapB);
    }
  }

  /** The sum is the same with the partners' roles exchanged. */
  lemma {:induction false} TotalDiffSwap(ids: seq<QuestionId>, mapA: map<QuestionId, Response>, mapB: map<QuestionId, Response>)
    ensures TotalDiff(ids, mapA, mapB) == TotalDiff(ids, mapB, mapA)
    decreases |ids|
  {
    if ids != [] {
      TotalDiffSwap(ids[..|ids| - 1], mapA, mapB);
    }
  }

  /** Likert values, where given, lie on the 1..5 scale. */
  predicate LikertInRange(rs: seq<Response>)
  {
    forall r :: r in rs && HasLikert(r) ==> 1 <= r.likert.value <= 5
  }

  lemma {:induction false} TotalDiffBounded(ids: seq<QuestionId>, mapA: map<QuestionId, Response>, mapB: map<QuestionId, Response>)
    requires forall q :: q in mapA && HasLikert(mapA[q]) ==> 1 <= mapA[q].likert.value <= 5
    requires forall q :: q in mapB && HasLikert(mapB[q]) ==> 1 <= mapB[q].likert.value <= 5
    ensures TotalDiff(ids, mapA, mapB) <= 4 * |ids|
    decreases |ids|
  {
    if ids != [] {
      TotalDiffBounded(ids[..|ids| - 1], mapA, mapB);
    }
  }

  /** Every id of the sequence contributes exactly `d`. */
  lemma {:induction false} TotalDiffConstant(ids: seq<QuestionId>, mapA: map<QuestionId, Response>, mapB: map<QuestionId, Response>, d: nat)
    requires forall k :: 0 <= k < |ids| ==> DiffAt(mapA, mapB, ids[k]) == d
    ensures TotalDiff(ids, mapA, mapB) == d * |ids|
    decreases |ids|
  {
    if ids != [] {
      TotalDiffConstant(ids[..|ids| - 1], mapA, mapB, d);
    }
  }

  /** Rebinding an id the sum does not visit leaves the sum unchanged. */
  lemma {:induction false} TotalDiffOtherId(ids: seq<QuestionId>, mapA: map<QuestionId, Response>,
                                            mapB: map<QuestionId, Response>, q: QuestionId, r: Response)
    requires q !in ids
    ensures TotalDiff(ids, mapA[q := r], mapB) == TotalDiff(ids, mapA, mapB)
    decreases |ids|
  {
    if ids != [] {
      TotalDiffOtherId(ids[..|ids| - 1], mapA, mapB, q, r);
    }
  }

  // ---------------------------------------------------------------------------
  // Properties of the score

  /** No question id in common: the neutral default 50. */
  lemma EmptyOverlapScoresFifty(a: seq<Response>, b: seq<Response>)
    requires forall ra, rb :: ra in a && rb in b ==> ra.qid != rb.qid
    ensures Congruence(a, b) == 50
  {
    IndexDomain(b);
    SharedMembers(a, Index(b));
  }

  /** On the 1..5 scale the score lies in 0..100, although nothing clamps it. */
  lemma ScoreInRange(a: seq<Response>, b: seq<Response>)
    requires LikertInRange(a) && LikertInRange(b)
    ensures 0 <= Congruence(a, b) <= 100
  {
    var mapA := Index(a);
    var mapB := Index(b);
    var shared := Shared(a, mapB);
    IndexDomain(a);
    IndexDomain(b);
    if |shared| > 0 {
      TotalDiffBounded(Ids(shared), mapA, mapB);
      var maxDiff := 4 * |shared|;
      RoundInRange(100 * (maxDiff - TotalDiff(Ids(shared), mapA, mapB)), maxDiff);
    }
  }

  lemma IndexOfOne(x: Response)
    ensures Index([x]) == map[x.qid := x]
  {
    assert [x][..0] == [];
  }

  /** A single response whose id B answered: the filter keeps it, and the
      sum is its one difference. */
  lemma SingleSum(x: Response, mapB: map<QuestionId, Response>)
    requires x.qid in mapB
    ensures Shared([x], mapB) == [x]
    ensures TotalDiff(Ids([x]), Index([x]), mapB) == DiffAt(map[x.qid := x], mapB, x.qid)
  {
    assert [x][..0] == [];
    IndexOfOne(x);
    assert Ids([x]) == [x.qid];
    assert [x.qid][..0] == [];
  }

  /** There is no clamp: a likert value off the 1..5 scale drives the score
      below 0. */
  lemma NoClampOffScale()
    ensures Congruence([Response("q", Some(1))], [Response("q", Some(9))]) == -100
  {
    var x, y := Response("q", Some(1)), Response("q", Some(9));
    IndexOfOne(y);
    SingleSum(x, Index([y]));
    assert DiffAt(map["q" := x], map["q" := y], "q") == 8;
    assert Congruence([x], [y]) == Score(8, 1);
    assert RoundHalfUp(-400, 4) == -100;
  }

  /** Some question is answered by both partners. */
  ghost predicate Overlap(a: seq<Response>, b: seq<Response>)
  {
    exists ra, rb :: ra in a && rb in b && ra.qid == rb.qid
  }

  lemma SharedNonEmpty(a: seq<Response>, b: seq<Response>)
    requires Overlap(a, b)
    ensures |Shared(a, Index(b))| > 0
  {
    var ra, rb :| ra in a && rb in b && ra.qid == rb.qid;
    IndexDomain(b);
    SharedMembers(a, Index(b));
    assert ra in Shared(a, Index(b));
  }

  /** Every id of A's shared responses is a key of both maps, mapped to
      responses of A and of B for that id. */
  lemma SharedLookups(a: seq<Response>, b: seq<Response>)
    ensures forall k :: 0 <= k < |Shared(a, Index(b))| ==>
      var q := Ids(Shared(a, Index(b)))[k];
      q in Index(a) && q in Index(b) && Index(a)[q] in a && Index(b)[q] in b
      && Index(a)[q].qid == q && Index(b)[q].qid == q
  {
    IndexDomain(a);
    IndexDomain(b);
    SharedMembers(a, Index(b));
  }

  /** Identical likert values on every shared question score 100. */
  lemma IdenticalAnswersScoreHundred(a: seq<Response>, b: seq<Response>)
    requires Overlap(a, b)
    requires forall ra, rb :: ra in a && rb in b && ra.qid == rb.qid ==> ra.likert == rb.likert
    ensures Congruence(a, b) == 100
  {
    var mapA := Index(a);
    var mapB := Index(b);
    var shared := Shared(a, mapB);
    SharedNonEmpty(a, b);
    SharedLookups(a, b);
    TotalDiffConstant(Ids(shared), mapA, mapB, 0);
    RoundExact(100, 4 * |shared|);
  }

  /** Answers four points apart on every shared question score 0. */
  lemma OppositeAnswersScoreZero(a: seq<Response>, b: seq<Response>)
    requires Overlap(a, b)
    requires forall ra, rb :: ra in a && rb in b && ra.qid == rb.qid ==>
      HasLikert(ra) && HasLikert(rb) && Abs(ra.likert.value - rb.likert.value) == 4
    ensures Congruence(a, b) == 0
  {
    var mapA := Index(a);
    var mapB := Index(b);
    var shared := Shared(a, mapB);
    SharedNonEmpty(a, b);
    SharedLookups(a, b);
    TotalDiffConstant(Ids(shared), mapA, mapB, 4);
    RoundExact(0, 4 * |shared|);
  }

  lemma IndexSnoc(a: seq<Response>, r: Response)
    ensures Index(a + [r]) == Index(a)[r.qid := r]
  {
    assert (a + [r])[..|a|] == a;
  }

  lemma SharedSnoc(a: seq<Response>, r: Response, mapB: map<QuestionId, Response>)
    ensures Shared(a + [r], mapB) == if r.qid in mapB then Shared(a, mapB) + [r] else Shared(a, mapB)
  {
    assert (a + [r])[..|a|] == a;
  }

  /** An id A has not answered is not among the ids of A's filter. */
  lemma SharedIdsOfA(a: seq<Response>, mapB: map<QuestionId, Response>, q: QuestionId)
    requires q !in Ids(a)
    ensures q !in Ids(Shared(a, mapB))
  {
  }

  /** Appending a response for a question that B answered but A had not, with
      no likert value on one side or the other, extends the filter by that response and leaves
      the total difference unchanged. */
  lemma NonLikertAddsNoDifference(a: seq<Response>, b: seq<Response>, r: Response)
    requires r.qid !in Ids(a) && r.qid in Index(b)
    requires !HasLikert(r) || !HasLikert(Index(b)[r.qid])
    ensures Shared(a + [r], Index(b)) == Shared(a, Index(b)) + [r]
    ensures TotalDiff(Ids(Shared(a + [r], Index(b))), Index(a + [r]), Index(b))
         == TotalDiff(Ids(Shared(a, Index(b))), Index(a), Index(b))
  {
    var mapA := Index(a);
    var mapA' := Index(a + [r]);
    var mapB := Index(b);
    IndexSnoc(a, r);
    SharedSnoc(a, r, mapB);
    var ids := Ids(Shared(a, mapB));
    SharedIdsOfA(a, mapB, r.qid);
    TotalDiffOtherId(ids, mapA, mapB, r.qid, r);
    assert Ids(Shared(a + [r], mapB)) == ids + [r.qid];
    TotalDiffSnoc(ids, r.qid, mapA', mapB);
  }

  /** A shared question without a likert value on either side adds nothing to the difference
      but four to its maximum, so the score does not fall and may rise. */
  lemma NonLikertInflatesScore(a: seq<Response>, b: seq<Response>, r: Response)
    requires r.qid !in Ids(a) && r.qid in Index(b)
    requires !HasLikert(r) || !HasLikert(Index(b)[r.qid])
    ensures Congruence(a + [r], b) >= Congruence(a, b)
  {
    NonLikertAddsNoDifference(a, b, r);
    var shared := Shared(a, Index(b));
    var t := TotalDiff(Ids(shared), Index(a), Index(b));
    assert Congruence(a + [r], b) == Score(t, |shared| + 1);
    if |shared| > 0 {
      assert Congruence(a, b) == Score(t, |shared|);
      ScoreRisesWithSharedCount(t, |shared|);
    } else {
      assert t == 0;
      RoundExact(100, 4);
    }
  }

  /** The sums of the rising example with the non-likert answer added. */
  lemma RaiseExampleSum(a: seq<Response>, b: seq<Response>)
    requires a == [Response("q1", Some(1)), Response("q2", None)]
    requires b == [Response("q1", Some(5)), Response("q2", None)]
    ensures Shared(a, Index(b)) == a && TotalDiff(Ids(a), Index(a), Index(b)) == 4
  {
    IndexOfTwo(a[0], a[1]);
    IndexOfTwo(b[0], b[1]);
    var mapA, mapB := Index(a), Index(b);
    assert mapA == map["q1" := a[0], "q2" := a[1]] && mapB == map["q1" := b[0], "q2" := b[1]];
    SharedKeepsAll(a, mapB);
    assert Ids(a) == ["q1", "q2"];
    TotalDiffOfTwo("q1", "q2", mapA, mapB);
  }

  /** The rise is real: against B's answers 5 (likert) and none (emoji),
      A's 1 alone scores 0, and A's 1 with a non-likert answer on the second
      question scores 50. */
  lemma NonLikertCanRaiseScore()
    ensures Congruence([Response("q1", Some(1))], [Response("q1", Some(5)), Response("q2", None)]) == 0
    ensures Congruence([Response("q1", Some(1)), Response("q2", None)],
                       [Response("q1", Some(5)), Response("q2", None)]) == 50
  {
    var x1, x2 := Response("q1", Some(1)), Response("q2", None);
    var y1, y2 := Response("q1", Some(5)), Response("q2", None);
    var b := [y1, y2];
    IndexOfTwo(y1, y2);
    SingleSum(x1, Index(b));
    assert DiffAt(map["q1" := x1], Index(b), "q1") == 4;
    assert Congruence([x1], b) == Score(4, 1);
    assert RoundHalfUp(0, 4) == 0;
    RaiseExampleSum([x1, x2], b);
    assert Congruence([x1, x2], b) == Score(4, 2);
    assert RoundHalfUp(400, 8) == 50;
  }

  /** One more shared question with the same total difference never lowers
      the score. */
  lemma ScoreRisesWithSharedCount(t: nat, c: nat)
    requires c > 0
    ensures Score(t, c) <= Score(t, c + 1)
  {
    var n1, d1 := 100 * (4 * c - t), 4 * c;
    var n2, d2 := 100 * (4 * (c + 1) - t), 4 * (c + 1);
    assert n1 * d2 <= n2 * d1 by {
      assert n1 * d2 == 1600 * (c * c) + 1600 * c - 400 * (c * t) - 400 * t;
      assert n2 * d1 == 1600 * (c * c) + 1600 * c - 400 * (c * t);
    }
    RoundMonotone(n1, d1, n2, d2);
  }

  /** In a sequence without repeats every element occurs once. */
  lemma {:induction false} DistinctOccursOnce(xs: seq<QuestionId>, x: QuestionId)
    requires Distinct(xs)
    ensures multiset(xs)[x] == if x in xs then 1 else 0
    decreases |xs|
  {
    if xs != [] {
      var init := xs[..|xs| - 1];
      assert xs == init + [xs[|xs| - 1]];
      DistinctOccursOnce(init, x);
    }
  }

  /** Filtering keeps a sequence of ids free of repeats. */
  lemma {:induction false} SharedDistinct(a: seq<Response>, mapB: map<QuestionId, Response>)
    requires Distinct(Ids(a))
    ensures Distinct(Ids(Shared(a, mapB)))
    decreases |a|
  {
    if a != [] {
      var init := a[..|a| - 1];
      var last := a[|a| - 1];
      assert Ids(init) == Ids(a)[..|a| - 1];
      SharedDistinct(init, mapB);
      SharedMembers(init, mapB);
      if last.qid in mapB {
        var s := Shared(init, mapB);
        forall k | 0 <= k < |s|
          ensures s[k].qid != last.qid
        {
          assert s[k] in init;
          var j := IndexOf(init, s[k]);
          assert Ids(a)[j] == s[k].qid && Ids(a)[|a| - 1] == last.qid;
        }
      }
    }
  }

  /** With no repeated question id on either side, exchanging the partners
      leaves the score unchanged. */
  lemma SwapSymmetric(a: seq<Response>, b: seq<Response>)
    requires Distinct(Ids(a)) && Distinct(Ids(b))
    ensures Congruence(a, b) == Congruence(b, a)
  {
    var mapA := Index(a);
    var mapB := Index(b);
    var sA := Shared(a, mapB);
    var sB := Shared(b, mapA);
    var idsA := Ids(sA);
    var idsB := Ids(sB);
    SharedDistinct(a, mapB);
    SharedDistinct(b, mapA);
    IndexDomain(a);
    IndexDomain(b);
    SharedMembers(a, mapB);
    SharedMembers(b, mapA);
    forall x
      ensures multiset(idsA)[x] == multiset(idsB)[x]
    {
      DistinctOccursOnce(idsA, x);
      DistinctOccursOnce(idsB, x);
      if x in idsA {
        var k :| 0 <= k < |idsA| && idsA[k] == x;
        assert sA[k] in a && x in mapB;
        assert mapB[x] in sB;
        assert idsB[IndexOf(sB, mapB[x])] == x;
      }
      if x in idsB {
        var k :| 0 <= k < |idsB| && idsB[k] == x;
        assert sB[k] in b && x in mapA;
        assert mapA[x] in sA;
        assert idsA[IndexOf(sA, mapA[x])] == x;
      }
    }
    assert multiset(idsA) == multiset(idsB);
    assert |sA| == |idsA| == |multiset(idsA)| == |multiset(idsB)| == |idsB| == |sB|;
    TotalDiffPermutation(idsA, idsB, mapA, mapB);
    TotalDiffSwap(idsB, mapA, mapB);
  }

  // Small evaluations used by the worked examples below.

  lemma IndexOfTwo(x: Response, y: Response)
    ensures Index([x, y]) == map[x.qid := x][y.qid := y]
  {
    assert [x, y][..1] == [x] && [x][..0] == [];
    assert Index([x]) == map[x.qid := x];
  }

  lemma IndexOfThree(x: Response, y: Response, z: Response)
    ensures Index([x, y, z]) == map[x.qid := x][y.qid := y][z.qid := z]
  {
    assert [x, y, z][..2] == [x, y];
    IndexOfTwo(x, y);
  }

  /** When B answered every id of A, the filter keeps all of A. */
  lemma {:induction false} SharedKeepsAll(a: seq<Response>, mapB: map<QuestionId, Response>)
    requires forall k :: 0 <= k < |a| ==> a[k].qid in mapB
    ensures Shared(a, mapB) == a
    decreases |a|
  {
    if a != [] {
      SharedKeepsAll(a[..|a| - 1], mapB);
    }
  }

  lemma TotalDiffOfTwo(p: QuestionId, q: QuestionId, mapA: map<QuestionId, Response>, mapB: map<QuestionId, Response>)
    ensures TotalDiff([p, q], mapA, mapB) == DiffAt(mapA, mapB, p) + DiffAt(mapA, mapB, q)
  {
    assert [p, q][..1] == [p] && [p][..0] == [];
    assert TotalDiff([p], mapA, mapB) == DiffAt(mapA, mapB, p);
  }

  lemma TotalDiffOfThree(p: QuestionId, q: QuestionId, r: QuestionId, mapA: map<QuestionId, Response>, mapB: map<QuestionId, Response>)
    ensures TotalDiff([p, q, r], mapA, mapB) == DiffAt(mapA, mapB, p) + DiffAt(mapA, mapB, q) + DiffAt(mapA, mapB, r)
  {
    assert [p, q, r][..2] == [p, q];
    TotalDiffOfTwo(p, q, mapA, mapB);
  }

  /** The filters and sums of the repeated-id example, in both directions. */
  lemma RepeatsExampleSums(a: seq<Response>, b: seq<Response>)
    requires a == [Response("q1", Some(1)), Response("q1", Some(1)), Response("q2", Some(3))]
    requires b == [Response("q1", Some(5)), Response("q2", Some(3))]
    ensures Shared(a, Index(b)) == a && TotalDiff(Ids(a), Index(a), Index(b)) == 8
    ensures Shared(b, Index(a)) == b && TotalDiff(Ids(b), Index(b), Index(a)) == 4
  {
    var x1, x2, y1, y2 := a[0], a[2], b[0], b[1];
    IndexOfThree(x1, x1, x2);
    IndexOfTwo(y1, y2);
    var mapA, mapB := Index(a), Index(b);
    assert mapA == map["q1" := x1, "q2" := x2] && mapB == map["q1" := y1, "q2" := y2];
    SharedKeepsAll(a, mapB);
    SharedKeepsAll(b, mapA);
    assert Ids(a) == ["q1", "q1", "q2"] && Ids(b) == ["q1", "q2"];
    assert DiffAt(mapA, mapB, "q1") == 4 && DiffAt(mapA, mapB, "q2") == 0;
    assert DiffAt(mapB, mapA, "q1") == 4 && DiffAt(mapB, mapA, "q2") == 0;
    TotalDiffOfThree("q1", "q1", "q2", mapA, mapB);
    TotalDiffOfTwo("q1", "q2", mapB, mapA);
  }

  /** With a repeated question id the swap can change the score: A's repeat
      counts twice in A's filter and once in B's. */
  lemma SwapAsymmetricWithRepeats()
    ensures Congruence([Response("q1", Some(1)), Response("q1", Some(1)), Response("q2", Some(3))],
                       [Response("q1", Some(5)), Response("q2", Some(3))]) == 33
    ensures Congruence([Response("q1", Some(5)), Response("q2", Some(3))],
                       [Response("q1", Some(1)), Response("q1", Some(1)), Response("q2", Some(3))]) == 50
  {
    var a := [Response("q1", Some(1)), Response("q1", Some(1)), Response("q2", Some(3))];
    var b := [Response("q1", Some(5)), Response("q2", Some(3))];
    RepeatsExampleSums(a, b);
    assert Congruence(a, b) == Score(8, 3);
    assert Congruence(b, a) == Score(4, 2);
    assert RoundHalfUp(400, 12) == 33;
    assert RoundHalfUp(400, 8) == 50;
  }

  /** The filter and sum of the three-question example. */
  lemma ThreeExampleSum(a: seq<Response>, b: seq<Response>)
    requires a == [Response("q1", Some(2)), Response("q2", Some(5)), Response("q3", Some(4))]
    requires b == [Response("q1", Some(3)), Response("q2", Some(4)), Response("q3", Some(5))]
    ensures Shared(a, Index(b)) == a && TotalDiff(Ids(a), Index(a), Index(b)) == 3
  {
    IndexOfThree(a[0], a[1], a[2]);
    IndexOfThree(b[0], b[1], b[2]);
    var mapA, mapB := Index(a), Index(b);
    SharedKeepsAll(a, mapB);
    assert Ids(a) == ["q1", "q2", "q3"];
    TotalDiffOfThree("q1", "q2", "q3", mapA, mapB);
  }

  /** Partner A answers 2, 5, 4 and partner B 3, 4, 5 on the same three
      questions: differences 1, 1, 1 out of 12, score 75, intimate. */
  lemma ThreeQuestionExample()
    ensures Congruence([Response("q1", Some(2)), Response("q2", Some(5)), Response("q3", Some(4))],
                       [Response("q1", Some(3)), Response("q2", Some(4)), Response("q3", Some(5))]) == 75
    ensures CategoryOf(75) == Intimate
  {
    var a := [Response("q1", Some(2)), Response("q2", Some(5)), Response("q3", Some(4))];
    var b := [Response("q1", Some(3)), Response("q2", Some(4)), Response("q3", Some(5))];
    ThreeExampleSum(a, b);
    assert Congruence(a, b) == Score(3, 3);
    assert RoundHalfUp(900, 12) == 75;
  }

  // ---------------------------------------------------------------------------
  // Category and handler

  datatype Category = Intimate | Neutral | Platonic

  /** `score >= 70 ? 'intimate' : score < 50 ? 'platonic' : 'neutral'`:
      every score falls in exactly one band. */
  function CategoryOf(score: int): (c: Category)
    ensures c == Intimate <==> score >= 70
    ensures c == Platonic <==> score < 50
    ensures c == Neutral <==> 50 <= score < 70
  {
    if score >= 70 then Intimate else if score < 50 then Platonic else Neutral
  }

  lemma CategoryBoundaries()
    ensures CategoryOf(70) == Intimate && CategoryOf(69) == Neutral
    ensures CategoryOf(50) == Neutral && CategoryOf(49) == Platonic
  {
  }

  /** A partner who answered fewer questions than this yields `incomplete`. */
  const MinResponses := 3

  const DefaultSuggestion := "Enjoy your day together."

  /** The row upserted into `daily_syncs`. */
  datatype DailySync = DailySync(coupleId: string, date: string, score: int, category: Category)

  datatype Body =
    | NoBody
    | Message(text: string)
    | ServerError
    | Incomplete
    | Scored(score: int, suggestion: string, category: Category)

  datatype Reply = Reply(statusCode: int, body: Body)

  /** `activity?.text || 'Enjoy your day together.'`: the randomly picked
      activity text of the category, unless there is none or it is empty. */
  function Suggestion(picked: map<Category, string>, c: Category): (s: string)
    ensures s == DefaultSuggestion || (c in picked && s == picked[c] != "")
    ensures c in picked && picked[c] != "" ==> s == picked[c]
  {
    if c in picked && picked[c] != "" then picked[c] else DefaultSuggestion
  }

  /** Today's responses of a user; a user with none has no entry. */
  function RowsOf(responses: map<UserId, seq<Response>>, id: UserId): (rows: seq<Response>)
  {
    if id in responses then responses[id] else []
  }

  /** Both partners have answered enough for a score. */
  predicate Complete(mine: seq<Response>, theirs: seq<Response>)
  {
    |mine| >= MinResponses && |theirs| >= MinResponses
  }

  /** The handler of the congruence function. `profiles` and `responses` are
      the store's tables for today, `picked` the random activity the store
      returns per category, `hash` the digest behind the couple identifier. */
  method Handler(httpMethod: string, userId: Option<UserId>, profiles: map<UserId, Profile>,
                 responses: map<UserId, seq<Response>>, picked: map<Category, string>,
                 hash: string -> string, today: string)
    returns (reply: Reply, sync: Option<DailySync>)
    ensures sync.Some? <==> reply.body.Scored?
    ensures httpMethod != "POST" ==> reply == Reply(405, NoBody)
    ensures httpMethod == "POST" && !Present(userId) ==> reply == Reply(400, NoBody)
    ensures httpMethod == "POST" && Present(userId) && userId.value !in profiles ==> reply == Reply(500, ServerError)
    ensures httpMethod == "POST" && Present(userId) && userId.value in profiles ==>
      var partnerId := profiles[userId.value].partnerId;
      if !Present(partnerId) || partnerId.value !in profiles then
        reply == Reply(400, Message("No partner"))
      else
        var mine := RowsOf(responses, userId.value);
        var theirs := RowsOf(responses, partnerId.value);
        if !Complete(mine, theirs) then
          reply == Reply(200, Incomplete)
        else
          var score := Congruence(mine, theirs);
          var category := CategoryOf(score);
          && sync == Some(DailySync(CoupleIdentity.CoupleId(hash, userId.value, partnerId.value), today, score, category))
          && reply == Reply(200, Scored(score, Suggestion(picked, category), category))
  {
    sync := None;
    if httpMethod != "POST" {
      return Reply(405, NoBody), None;
    }
    if !Present(userId) {
      return Reply(400, NoBody), None;
    }
    var uid := userId.value;
    // getPartner dereferences a null profile: the TypeError lands in the catch.
    var profile := Lookup(profiles, uid);
    if profile.None? {
      return Reply(500, ServerError), None;
    }
    var partnerId := profile.value.partnerId;
    if !Present(partnerId) || Lookup(profiles, partnerId.value).None? {
      return Reply(400, Message("No partner")), None;
    }
    var pid := partnerId.value;
    var coupleId := CoupleIdentity.CoupleId(hash, uid, pid);
    var mine := RowsOf(responses, uid);
    var theirs := RowsOf(responses, pid);
    if |mine| < MinResponses || |theirs| < MinResponses {
      return Reply(200, Incomplete), None;
    }
    var score := CalculateCongruence(mine, theirs);
    var category := CategoryOf(score);
    sync := Some(DailySync(coupleId, today, score, category));
    reply := Reply(200, Scored(score, Suggestion(picked, category), category));
  }

  /** With no repeated question ids, whichever partner triggers the engine
      writes the same row, so the last-write-wins upsert is idempotent. */
  lemma SameSyncFromEitherPartner(hash: string -> string, u: UserId, p: UserId, date: string,
                                  mine: seq<Response>, theirs: seq<Response>)
    requires Distinct(Ids(mine)) && Distinct(Ids(theirs))
    ensures DailySync(CoupleIdentity.CoupleId(hash, u, p), date, Congruence(mine, theirs), CategoryOf(Congruence(mine, theirs)))
         == DailySync(CoupleIdentity.CoupleId(hash, p, u), date, Congruence(theirs, mine), CategoryOf(Congruence(theirs, mine)))
  {
    SwapSymmetric(mine, theirs);
    CoupleIdentity.CoupleIdSymmetric(hash, u, p);
  }
}
