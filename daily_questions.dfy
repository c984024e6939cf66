/** The daily question selector of netlify/functions/daily-questions.js: a
    weighted quota per construct, a random draw from each construct's
    candidates, then a random draw of the day's questions from the pool.
    The store's answer to each construct's query is an input, and each random
    shuffle is an arbitrary reordering. */
module DailyQuestions {
  import opened Wrappers
  import opened Profiles

  /** A question row as selected: `id, text, type`. */
  datatype Question = Question(id: QuestionId, text: string, kind: string)

  /** `import.meta.env.VITE_DAILY_QUESTION_COUNT || 6` when the variable is unset. */
  const DefaultQuestionCount: nat := 6

  function Min(x: int, y: int): (m: int)
  {
    if x <= y then x else y
  }

  /** `Math.max(1, Math.floor(questionCount * weight))` with `weight = level / 5`:
      the floor of `n * level / 5`, raised to 1 when it is smaller. */
  function QuestionCount(n: nat, level: int): (count: nat)
    ensures count >= 1
    ensures count > 1 ==> 5 * count <= n * level < 5 * (count + 1)
    ensures count == 1 ==> n * level < 10
  {
    var scaled := (n * level) / 5;
    if scaled < 1 then 1 else scaled
  }

  /** A weight in [0, 1] never asks for more questions than the day has. */
  lemma CountAtMostTotal(n: nat, level: int)
    requires n >= 1 && 0 <= level <= 5
    ensures QuestionCount(n, level) <= n
  {
    assert n * level <= n * 5;
  }

  /** `t` is `from` reordered: what `sort(() => 0.5 - Math.random())` may return. */
  method Shuffle(from: seq<Question>) returns (t: seq<Question>)
    ensures multiset(t) == multiset(from)
  {
    t :| multiset(t) == multiset(from);
  }

  /** `taken` could be `shuffled.slice(0, count)` for some reordering
      `shuffled` of `from`: as many as asked for, or all there are, and
      nothing that `from` does not hold as often. */
  ghost predicate Drawn(from: seq<Question>, count: int, taken: seq<Question>)
  {
    |taken| == Min(count, |from|) && multiset(taken) <= multiset(from)
  }

  lemma PrefixIsDrawn(from: seq<Question>, shuffled: seq<Question>, count: nat)
    requires multiset(shuffled) == multiset(from)
    ensures Drawn(from, count, shuffled[..Min(count, |shuffled|)])
  {
    var k := Min(count, |shuffled|);
    assert shuffled == shuffled[..k] + shuffled[k..];
    assert |shuffled| == |multiset(shuffled)| == |multiset(from)| == |from|;
  }

  /** The pool: the constructs' contributions appended in order. */
  function Concat(parts: seq<seq<Question>>): (pool: seq<Question>)
  {
    if parts == [] then [] else Concat(parts[..|parts| - 1]) + parts[|parts| - 1]
  }

  /** `picks[i]` is what construct `Constructs[i]` contributed and `questions`
      what the handler returns: each a draw as the source makes it. */
  ghost predicate Selected(n: nat, weights: Weights, fetched: seq<seq<Question>>,
                           picks: seq<seq<Question>>, questions: seq<Question>)
  {
    && |fetched| == |Constructs| && |picks| == |Constructs|
    && (forall i :: 0 <= i < |Constructs| ==>
          Drawn(fetched[i], QuestionCount(n, Level(weights, Constructs[i])), picks[i]))
    && Drawn(Concat(picks), n, questions)
  }

  /** How many questions the first `k` constructs put in the pool: each
      gives its quota, or all its candidates when there are fewer. */
  function PoolSize(n: nat, weights: Weights, fetched: seq<seq<Question>>, k: nat): (size: nat)
    requires k <= |Constructs| <= |fetched|
  {
    if k == 0 then 0
    else PoolSize(n, weights, fetched, k - 1)
         + Min(QuestionCount(n, Level(weights, Constructs[k - 1])), |fetched[k - 1]|)
  }

  /** The selection loop: for each construct in order, shuffle the rows the
      store returned, keep `count` of them and append them to the pool; then
      shuffle the pool and keep `n`. `fetched[i]` is the store's answer to the
      query for `Constructs[i]`. */
  method SelectQuestions(n: nat, weights: Weights, fetched: seq<seq<Question>>)
    returns (questions: seq<Question>, ghost picks: seq<seq<Question>>)
    requires |fetched| == |Constructs|
    ensures Selected(n, weights, fetched, picks, questions)
    ensures |questions| == Min(n, PoolSize(n, weights, fetched, |Constructs|))
    ensures forall q :: q in questions ==> exists i :: 0 <= i < |fetched| && q in fetched[i]
  {
    var pool: seq<Question> := [];
    picks := [];
    for i := 0 to |Constructs|
      invariant |picks| == i
      invariant pool == Concat(picks)
      invariant |pool| == PoolSize(n, weights, fetched, i)
      invariant forall j :: 0 <= j < i ==>
        Drawn(fetched[j], QuestionCount(n, Level(weights, Constructs[j])), picks[j])
    {
      var count := QuestionCount(n, Level(weights, Constructs[i]));
      var shuffled := Shuffle(fetched[i]);
      var chosen := shuffled[..Min(count, |shuffled|)];
      PrefixIsDrawn(fetched[i], shuffled, count);
      pool := pool + chosen;
      picks := picks + [chosen];
      assert picks[..i] == picks[..|picks| - 1];
    }
    var mixed := Shuffle(pool);
    questions := mixed[..Min(n, |mixed|)];
    PrefixIsDrawn(pool, mixed, n);
    ReturnedWereCandidates(n, weights, fetched, picks, questions);
  }

  // ---------------------------------------------------------------------------
  // Properties of a selection

  lemma {:induction false} InConcat(parts: seq<seq<Question>>, q: Question)
    requires q in Concat(parts)
    ensures exists i :: 0 <= i < |parts| && q in parts[i]
    decreases |parts|
  {
    var init := parts[..|parts| - 1];
    if q in Concat(init) {
      InConcat(init, q);
      var i :| 0 <= i < |init| && q in init[i];
      assert parts[i] == init[i];
    } else {
      assert q in parts[|parts| - 1];
    }
  }

  /** Everything returned was a candidate of some construct. */
  lemma ReturnedWereCandidates(n: nat, weights: Weights, fetched: seq<seq<Question>>,
                               picks: seq<seq<Question>>, questions: seq<Question>)
    requires Selected(n, weights, fetched, picks, questions)
    ensures forall q :: q in questions ==> exists i :: 0 <= i < |fetched| && q in fetched[i]
  {
    forall q | q in questions
      ensures exists i :: 0 <= i < |fetched| && q in fetched[i]
    {
      assert q in multiset(questions);
      assert q in Concat(picks);
      InConcat(picks, q);
      var i :| 0 <= i < |picks| && q in picks[i];
      assert q in multiset(picks[i]);
      assert q in fetched[i];
    }
  }

  /** None of the questions has an id of the list. */
  predicate Avoids(qs: seq<Question>, excluded: seq<QuestionId>)
  {
    forall q :: q in qs ==> q.id !in excluded
  }

  /** When every candidate list leaves out the excluded ids, as the query
      asks the store to, so does the result. */
  lemma ExcludedNeverReturned(n: nat, weights: Weights, fetched: seq<seq<Question>>,
                              picks: seq<seq<Question>>, questions: seq<Question>,
                              excluded: seq<QuestionId>)
    requires Selected(n, weights, fetched, picks, questions)
    requires forall i :: 0 <= i < |fetched| ==> Avoids(fetched[i], excluded)
    ensures Avoids(questions, excluded)
  {
    ReturnedWereCandidates(n, weights, fetched, picks, questions);
  }

  /** Never more than the day's count; a pool that falls short of it is
      returned whole, and no error is raised. */
  lemma SmallPoolReturnedWhole(n: nat, weights: Weights, fetched: seq<seq<Question>>,
                               picks: seq<seq<Question>>, questions: seq<Question>)
    requires Selected(n, weights, fetched, picks, questions)
    ensures |questions| <= n
    ensures |Concat(picks)| <= n ==> multiset(questions) == multiset(Concat(picks))
  {
    var pool := Concat(picks);
    if |pool| <= n {
      var rest := multiset(pool) - multiset(questions);
      assert multiset(pool) == multiset(questions) + rest;
      assert |rest| == 0;
    }
  }

  lemma {:induction false} AllSame(s: seq<Question>, q: Question)
    requires forall x :: x in s ==> x == q
    ensures multiset(s)[q] == |s|
    decreases |s|
  {
    if s != [] {
      var init := s[..|s| - 1];
      assert s == init + [s[|s| - 1]];
      assert forall x :: x in init ==> x in s;
      assert s[|s| - 1] in s;
      AllSame(init, q);
    }
  }

  lemma {:induction false} ConcatOfSingles(parts: seq<seq<Question>>, q: Question)
    requires forall i :: 0 <= i < |parts| ==> parts[i] == [q]
    ensures |Concat(parts)| == |parts| && forall x :: x in Concat(parts) ==> x == q
    decreases |parts|
  {
    if parts != [] {
      ConcatOfSingles(parts[..|parts| - 1], q);
    }
  }

  /** Nothing removes repeats: when every construct's candidates are the same
      single question, the day holds that question as many times as there
      are slots, up to one per construct. */
  lemma RepeatsAreKept(n: nat, weights: Weights, q: Question,
                       picks: seq<seq<Question>>, questions: seq<Question>)
    requires Selected(n, weights, [[q], [q], [q], [q], [q], [q], [q]], picks, questions)
    ensures multiset(questions)[q] == Min(n, |Constructs|)
  {
    var fetched := [[q], [q], [q], [q], [q], [q], [q]];
    forall i | 0 <= i < |Constructs|
      ensures picks[i] == [q]
    {
      assert fetched[i] == [q];
      assert |picks[i]| == 1;
      assert picks[i][0] in multiset(picks[i]);
    }
    ConcatOfSingles(picks, q);
    forall x | x in questions
      ensures x == q
    {
      assert x in multiset(questions);
      assert x in multiset(Concat(picks));
      assert x in Concat(picks);
    }
    AllSame(questions, q);
  }

  // ---------------------------------------------------------------------------
  // Handler

  datatype Body = Message(text: string) | QuestionList(questions: seq<Question>)

  datatype Reply = Reply(statusCode: int, body: Body)

  /** The day's count: the configured value when the variable is set, and
      otherwise the default of 6. */
  function DayCount(configured: Option<nat>): (n: nat)
    ensures configured.Some? ==> n == configured.value
    ensures configured.None? ==> n == DefaultQuestionCount == 6
  {
    if configured.Some? then configured.value else DefaultQuestionCount
  }

  /** The handler of the question function. `profiles` is the profile table,
      `configured` the question-count variable, and `fetched[i]` the rows the
      store returns for the query of `Constructs[i]`. */
  method Handler(httpMethod: string, userId: Option<UserId>, profiles: map<UserId, Profile>,
                 configured: Option<nat>, fetched: seq<seq<Question>>)
    returns (reply: Reply, ghost picks: seq<seq<Question>>)
    requires |fetched| == |Constructs|
    ensures httpMethod != "POST" ==> reply == Reply(405, Message("Method Not Allowed"))
    ensures httpMethod == "POST" && !Present(userId) ==> reply == Reply(400, Message("user_id required"))
    ensures httpMethod == "POST" && Present(userId) && userId.value !in profiles ==>
      reply == Reply(404, Message("Profile not found"))
    ensures httpMethod == "POST" && Present(userId) && userId.value in profiles ==>
      && reply.statusCode == 200 && reply.body.QuestionList?
      && Selected(DayCount(configured), profiles[userId.value].weights, fetched, picks, reply.body.questions)
    ensures reply.body.QuestionList? ==>
      var excluded := profiles[userId.value].outOfBounds;
      (forall i :: 0 <= i < |fetched| ==> Avoids(fetched[i], excluded)) ==> Avoids(reply.body.questions, excluded)
  {
    picks := [];
    if httpMethod != "POST" {
      return Reply(405, Message("Method Not Allowed")), picks;
    }
    if !Present(userId) {
      return Reply(400, Message("user_id required")), picks;
    }
    var profile := Lookup(profiles, userId.value);
    if profile.None? {
      return Reply(404, Message("Profile not found")), picks;
    }
    var questions;
    questions, picks := SelectQuestions(DayCount(configured), profile.value.weights, fetched);
    if forall i :: 0 <= i < |fetched| ==> Avoids(fetched[i], profile.value.outOfBounds) {
      ExcludedNeverReturned(DayCount(configured), profile.value.weights, fetched, picks, questions,
                            profile.value.outOfBounds);
    }
    reply := Reply(200, QuestionList(questions));
  }
}
