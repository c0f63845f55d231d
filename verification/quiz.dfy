/** The answer list `/quiz` builds once the question row is in hand: the correct answer
    followed by the sampled wrong answers, duplicates removed, topped up to four by further
    queries, then shuffled. */
module Quiz {
  import opened Seqs
  import opened Wrappers

  /** Answers shown per question. */
  const AnswerCount: nat := 4

  /** The row the first query returns: a root, its definition, and up to three other
      definitions. */
  datatype QuizRow = QuizRow(question: string, correctAnswer: string, wrongAnswers: seq<string>)

  /** `[...new Set(xs)]`: the first occurrence of each value, in insertion order. */
  function Unique(xs: seq<string>): (r: seq<string>)
    ensures Distinct(r)
    ensures forall x :: x in r <==> x in xs
    ensures |r| <= |xs|
    ensures |xs| > 0 ==> |r| > 0 && r[0] == xs[0]
  {
    if xs == [] then []
    else
      var prefix := Unique(xs[..|xs| - 1]);
      var last := xs[|xs| - 1];
      assert forall x :: x in xs <==> x in xs[..|xs| - 1] || x == last by {
        assert xs == xs[..|xs| - 1] + [last];
      }
      if last in prefix then prefix
      else
        DistinctConcat(prefix, [last]);
        prefix + [last]
  }

  /** Removing duplicates from a list that has none changes nothing. */
  lemma {:induction false} UniqueOfDistinct(xs: seq<string>)
    requires Distinct(xs)
    ensures Unique(xs) == xs
  {
    if xs != [] {
      var prefix := xs[..|xs| - 1];
      UniqueOfDistinct(prefix);
      assert xs[|xs| - 1] !in prefix by {
        forall i | 0 <= i < |prefix|
          ensures prefix[i] != xs[|xs| - 1]
        {
          assert prefix[i] == xs[i];
        }
      }
      assert xs == prefix + [xs[|xs| - 1]];
    }
  }

  /** What one top-up query can return for the answers `chosen` so far: distinct definitions,
      none equal to the correct answer or already chosen, and at most `4 - |chosen|` of them. */
  predicate FreshDraw(correct: string, chosen: seq<string>, extra: seq<string>) {
    && Distinct(extra)
    && |chosen| + |extra| <= AnswerCount
    && forall x :: x in extra ==> x != correct && x !in chosen
  }

  /** The top-up query as an oracle on the answers chosen so far. */
  ghost predicate DrawOracle(correct: string, draw: seq<string> -> seq<string>) {
    forall chosen {:trigger draw(chosen)} :: |chosen| < AnswerCount ==> FreshDraw(correct, chosen, draw(chosen))
  }

  /** How the top-up ends: four answers, or a query that returned nothing. */
  datatype TopUp = Full(answers: seq<string>) | NoCandidates(answers: seq<string>)

  /** The top-up loop as a recursive definition. A query that returns nothing ends it with
      `NoCandidates`: nothing could change on a later round. */
  function Fill(correct: string, answers: seq<string>, draw: seq<string> -> seq<string>): (r: TopUp)
    requires Distinct(answers) && correct in answers && |answers| <= AnswerCount
    requires DrawOracle(correct, draw)
    ensures Distinct(r.answers) && correct in r.answers && |r.answers| <= AnswerCount
    ensures answers <= r.answers
    ensures r.Full? <==> |r.answers| == AnswerCount
    ensures r.NoCandidates? ==> draw(r.answers) == []
    decreases AnswerCount - |answers|
  {
    if |answers| >= AnswerCount then Full(answers)
    else
      var extra := draw(answers);
      if extra == [] then NoCandidates(answers)
      else
        DistinctConcat(answers, extra);
        Fill(correct, answers + extra, draw)
  }

  /** The `while (uniqueAnswers.length < 4)` loop, with an exit when a round adds nothing. */
  method TopUpLoop(correct: string, initial: seq<string>, draw: seq<string> -> seq<string>) returns (r: TopUp)
    requires Distinct(initial) && correct in initial && |initial| <= AnswerCount
    requires DrawOracle(correct, draw)
    ensures r == Fill(correct, initial, draw)
    ensures Distinct(r.answers) && correct in r.answers && initial <= r.answers
    ensures r.Full? ==> |r.answers| == AnswerCount
    ensures r.NoCandidates? ==> |r.answers| < AnswerCount && draw(r.answers) == []
  {
    var answers := initial;
    while |answers| < AnswerCount
      invariant Distinct(answers) && correct in answers && |answers| <= AnswerCount
      invariant Fill(correct, answers, draw) == Fill(correct, initial, draw)
      decreases AnswerCount - |answers|
    {
      var extra := draw(answers);
      if extra == [] {
        return NoCandidates(answers);
      }
      DistinctConcat(answers, extra);
      answers := answers + extra;
    }
    return Full(answers);
  }

  /** Exchange two positions; out-of-range positions leave the list alone. */
  function Swap<T>(s: seq<T>, i: nat, j: nat): (r: seq<T>)
    ensures |r| == |s| && multiset(r) == multiset(s)
    ensures Distinct(s) ==> Distinct(r)
  {
    if i < |s| && j < |s| then
      ExchangeKeepsElements(s, i, j);
      s[i := s[j]][j := s[i]]
    else s
  }

  /** An exchange of two positions keeps the same elements. */
  lemma ExchangeKeepsElements<T>(s: seq<T>, i: nat, j: nat)
    requires i < |s| && j < |s|
    ensures multiset(s[i := s[j]][j := s[i]]) == multiset(s)
  {
  }

  /** The final `sort(() => Math.random() - 0.5)`, as the sequence of exchanges the sort
      happened to perform. */
  function Shuffle<T>(s: seq<T>, swaps: seq<(nat, nat)>): (r: seq<T>)
    ensures |r| == |s| && multiset(r) == multiset(s)
    ensures Distinct(s) ==> Distinct(r)
    decreases |swaps|
  {
    if swaps == [] then s
    else Shuffle(Swap(s, swaps[0].0, swaps[0].1), swaps[1..])
  }

  /** A shuffle keeps exactly the values of the list. */
  lemma ShuffleMembers<T>(s: seq<T>, swaps: seq<(nat, nat)>)
    ensures forall x :: x in Shuffle(s, swaps) <==> x in s
  {
    var r := Shuffle(s, swaps);
    forall x
      ensures x in r <==> x in s
    {
      assert x in r <==> x in multiset(r);
      assert x in s <==> x in multiset(s);
    }
  }

  /** An exchange of `k` with a later `j` keeps the prefix before `k`, brings `s[j]` to `k`,
      and only rearranges the suffix from `k`. */
  lemma SwapForward<T>(s: seq<T>, k: nat, j: nat)
    requires k <= j < |s|
    ensures Swap(s, k, j)[..k] == s[..k]
    ensures Swap(s, k, j)[k] == s[j]
    ensures multiset(Swap(s, k, j)[k..]) == multiset(s[k..])
  {
  }

  /** Rearrangements with the same head have rearranged tails. */
  lemma SameHeadTails<T>(a: seq<T>, b: seq<T>)
    requires a != [] && b != [] && a[0] == b[0]
    requires multiset(a) == multiset(b)
    ensures multiset(a[1..]) == multiset(b[1..])
  {
    assert a == [a[0]] + a[1..];
    assert b == [b[0]] + b[1..];
    assert multiset(a[1..]) == multiset(a) - multiset{a[0]};
    assert multiset(b[1..]) == multiset(b) - multiset{b[0]};
  }

  /** A value occurring in `s[k..]` has a position from `k` on. */
  lemma FindFrom<T>(s: seq<T>, k: nat, x: T) returns (i: nat)
    requires k <= |s| && x in multiset(s[k..])
    ensures k <= i < |s| && s[i] == x
  {
    assert x in s[k..];
    var m :| 0 <= m < |s| - k && s[k..][m] == x;
    i := k + m;
  }

  /** One step of the exchange construction: some exchange puts `t[k]` at position `k`
      and leaves the rest of `s` a rearrangement of the rest of `t`. */
  lemma PlaceNext<T>(s: seq<T>, t: seq<T>, k: nat) returns (j: nat)
    requires |s| == |t| && k < |s|
    requires s[..k] == t[..k]
    requires multiset(s[k..]) == multiset(t[k..])
    ensures k <= j < |s|
    ensures Swap(s, k, j)[..k + 1] == t[..k + 1]
    ensures multiset(Swap(s, k, j)[k + 1..]) == multiset(t[k + 1..])
  {
    assert t[k..][0] == t[k];
    j := FindFrom(s, k, t[k]);
    var s' := Swap(s, k, j);
    SwapForward(s, k, j);
    SameHeadTails(s'[k..], t[k..]);
    assert s'[k..][1..] == s'[k + 1..] && t[k..][1..] == t[k + 1..];
    assert s'[..k + 1] == s'[..k] + [s'[k]] && t[..k + 1] == t[..k] + [t[k]];
  }

  /** The exchange model restricts nothing: from positions `k` on, any rearrangement of the
      list is the outcome of some sequence of exchanges. */
  lemma {:induction false} ShuffleReachesFrom<T>(s: seq<T>, t: seq<T>, k: nat) returns (swaps: seq<(nat, nat)>)
    requires |s| == |t| && k <= |s|
    requires s[..k] == t[..k]
    requires multiset(s[k..]) == multiset(t[k..])
    ensures Shuffle(s, swaps) == t
    decreases |s| - k
  {
    if k == |s| {
      assert s == s[..k] && t == t[..k];
      swaps := [];
    } else {
      var j := PlaceNext(s, t, k);
      var rest := ShuffleReachesFrom(Swap(s, k, j), t, k + 1);
      swaps := [(k, j)] + rest;
      assert swaps[0] == (k, j) && swaps[1..] == rest;
    }
  }

  /** Every permutation of the answers is a possible shuffle. */
  lemma ShuffleReachesAll<T>(s: seq<T>, t: seq<T>) returns (swaps: seq<(nat, nat)>)
    requires multiset(s) == multiset(t)
    ensures Shuffle(s, swaps) == t
  {
    assert |s| == |multiset(s)| == |multiset(t)| == |t|;
    assert s[0..] == s && t[0..] == t;
    swaps := ShuffleReachesFrom(s, t, 0);
  }

  /** What the corrected `/quiz` responds: the question with four answers, the error thrown
      when the first query returns no row, or too few definitions to fill the list. */
  datatype QuizReply =
    | Served(question: string, correctAnswer: string, answers: seq<string>)
    | NoQuizQuestion
    | InsufficientData(answers: seq<string>)

  /** The part of the corrected `/quiz` after the first query: the top-up loop runs on the
      repaired query and exits when a round adds nothing. */
  method ServeQuiz(rows: Option<QuizRow>, draw: seq<string> -> seq<string>, swaps: seq<(nat, nat)>)
    returns (reply: QuizReply)
    requires rows.Some? ==> |rows.value.wrongAnswers| <= AnswerCount - 1
    requires rows.Some? ==> DrawOracle(rows.value.correctAnswer, draw)
    ensures rows.None? <==> reply == NoQuizQuestion
    ensures reply.Served? ==>
      && reply.question == rows.value.question
      && reply.correctAnswer == rows.value.correctAnswer
      && |reply.answers| == AnswerCount
      && Distinct(reply.answers)
      && reply.correctAnswer in reply.answers
      && (forall x :: x in rows.value.wrongAnswers ==> x in reply.answers)
    ensures reply.InsufficientData? ==>
      && |reply.answers| < AnswerCount
      && draw(reply.answers) == []
    ensures rows.Some? ==>
      var q := rows.value;
      var f := Fill(q.correctAnswer, Unique([q.correctAnswer] + q.wrongAnswers), draw);
      && (reply.InsufficientData? <==> f.NoCandidates?)
      && (reply.InsufficientData? ==> reply.answers == f.answers)
      && (reply.Served? ==> multiset(reply.answers) == multiset(f.answers))
  {
    if rows.None? {
      return NoQuizQuestion;
    }
    var quiz := rows.value;
    var all := [quiz.correctAnswer] + quiz.wrongAnswers;
    var unique := Unique(all);
    assert all[0] == quiz.correctAnswer;
    var filled := TopUpLoop(quiz.correctAnswer, unique, draw);
    if filled.NoCandidates? {
      return InsufficientData(filled.answers);
    }
    var shuffled := Shuffle(filled.answers, swaps);
    forall x | x in quiz.wrongAnswers
      ensures x in shuffled
    {
      assert x in all;
      assert x in filled.answers;
      assert x in multiset(shuffled);
    }
    assert quiz.correctAnswer in multiset(shuffled);
    reply := Served(quiz.question, quiz.correctAnswer, shuffled);
  }
}
