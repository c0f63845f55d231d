/** `updateUserPoints` and the two answer routes that call it: the score and the two word
    lists change together on every answer event. */
module Scoring {
  import opened Wrappers
  import opened Progress
  import opened Users

  /** Points `/correct` adds. */
  const Reward: int := 5
  /** Points `/incorrect` adds (a penalty). */
  const Penalty: int := -2

  /** The new score: the sum, raised to 0 when it would be negative. The contract pins it
      down as the least non-negative value not below the sum. */
  function ClampedPoints(points: int, delta: int): (p: int)
    ensures p >= 0 && p >= points + delta
    ensures p == 0 || p == points + delta
  {
    if points + delta < 0 then 0 else points + delta
  }

  /** The record `updateUserPoints` writes back for a user it found. */
  function ApplyAnswer(u: User, delta: int, word: string, isCorrect: bool): User {
    u.(points := ClampedPoints(u.points, delta),
       correctList := CorrectListAfter(u.correctList, word, isCorrect),
       wrongList := WrongListAfter(u.wrongList, word, isCorrect))
  }

  /** The `correctList` after one answer: only a correct answer touches it. */
  function CorrectListAfter(l: seq<Entry>, word: string, isCorrect: bool): seq<Entry> {
    if isCorrect then UpdateCorrectList(l, word) else l
  }

  /** The `wrongList` after one answer. */
  function WrongListAfter(m: map<string, nat>, word: string, isCorrect: bool): map<string, nat> {
    if isCorrect then ClearMiss(m, word) else RecordMiss(m, word)
  }

  datatype PointsUpdate = PointsUpdate(newPoints: Option<int>, users: Store)

  /** `updateUserPoints`: no user means a null result and no write; otherwise the clamped
      score is both returned and stored, alongside the list update for the answer. */
  function UpdateUserPoints(users: Store, email: string, delta: int, word: string, isCorrect: bool): (r: PointsUpdate)
    ensures email !in users ==> r.newPoints.None? && r.users == users
    ensures email in users ==> r.newPoints.Some? && email in r.users
    ensures email in users ==>
      var p := r.newPoints.value;
      && p >= 0 && p >= users[email].points + delta
      && (p == 0 || p == users[email].points + delta)
      && r.users[email].points == p
    ensures r.users.Keys == users.Keys
    ensures forall e :: e in users && e != email ==> r.users[e] == users[e]
    ensures email in users ==>
      && r.users[email].badges == users[email].badges
      && r.users[email].quizResults == users[email].quizResults
      && r.users[email].streak == users[email].streak
    ensures email in users && isCorrect ==>
      && r.users[email].correctList == UpdateCorrectList(users[email].correctList, word)
      && r.users[email].wrongList == ClearMiss(users[email].wrongList, word)
    ensures email in users && !isCorrect ==>
      && r.users[email].correctList == users[email].correctList
      && r.users[email].wrongList == RecordMiss(users[email].wrongList, word)
  {
    if email in users then
      var u := ApplyAnswer(users[email], delta, word, isCorrect);
      PointsUpdate(Some(u.points), users[email := u])
    else
      PointsUpdate(None, users)
  }

  /** `/correct`: a missing user is a 404 with nothing written; otherwise a non-negative
      score goes up by 5 and the word moves one step towards mastery. */
  function AnswerCorrect(users: Store, email: string, word: string): (r: PointsUpdate)
    ensures email !in users <==> r.newPoints.None?
    ensures email !in users ==> r.users == users
    ensures r.users.Keys == users.Keys
    ensures email in users && users[email].points >= 0 ==> r.newPoints == Some(users[email].points + 5)
    ensures email in users ==>
      StatusOf(r.users[email].correctList, word) == Advance(StatusOf(users[email].correctList, word))
  {
    if email in users then
      CorrectAnswerAdvances(users[email].correctList, word);
      UpdateUserPoints(users, email, Reward, word, true)
    else
      UpdateUserPoints(users, email, Reward, word, true)
  }

  /** `/incorrect`: a missing user is a 404 with nothing written; otherwise the score drops
      by 2 but not below 0, and the word's miss count goes up by one. */
  function AnswerIncorrect(users: Store, email: string, word: string): (r: PointsUpdate)
    ensures email !in users <==> r.newPoints.None?
    ensures email !in users ==> r.users == users
    ensures r.users.Keys == users.Keys
    ensures email in users ==>
      r.newPoints == Some(if users[email].points >= 2 then users[email].points - 2 else 0)
    ensures email in users ==>
      Misses(r.users[email].wrongList, word) == Misses(users[email].wrongList, word) + 1
    ensures email in users ==> r.users[email].correctList == users[email].correctList
  {
    UpdateUserPoints(users, email, Penalty, word, false)
  }

  /** A correct answer removes the word from `wrongList` whatever its miss count was, and
      leaves every other key and count alone. */
  lemma CorrectAnswerClearsMisses(users: Store, email: string, word: string)
    requires email in users && PositiveMisses(users[email].wrongList)
    ensures var m := AnswerCorrect(users, email, word).users[email].wrongList;
      && word !in m
      && m.Keys == users[email].wrongList.Keys - {word}
      && (forall v :: v in m ==> m[v] == users[email].wrongList[v])
  {
  }

  /** A miss adds one to the word's count (starting from 0), touching no other key and not
      the `correctList`. */
  lemma IncorrectAnswerCountsMiss(users: Store, email: string, word: string)
    requires email in users
    ensures var u := users[email];
      var v := AnswerIncorrect(users, email, word).users[email];
      && v.wrongList.Keys == u.wrongList.Keys + {word}
      && v.wrongList[word] == Misses(u.wrongList, word) + 1
      && (forall k :: k in u.wrongList && k != word ==> v.wrongList[k] == u.wrongList[k])
      && v.correctList == u.correctList
  {
  }

  /** An answer event keeps a consistent user consistent. */
  lemma AnswerKeepsConsistent(u: User, delta: int, word: string, isCorrect: bool)
    requires Consistent(u)
    ensures Consistent(ApplyAnswer(u, delta, word, isCorrect))
  {
    if isCorrect {
      CorrectListKeepsWellFormed(u.correctList, word);
    }
  }

  // ---------------------------------------------------------------------------
  // Replaying a user's answers

  datatype Answer = Answer(word: string, isCorrect: bool)

  function Delta(isCorrect: bool): int {
    if isCorrect then Reward else Penalty
  }

  /** The user after the answers in order, each through `/correct` or `/incorrect`. */
  function Replay(u: User, answers: seq<Answer>): User {
    if answers == [] then u
    else
      var last := answers[|answers| - 1];
      ApplyAnswer(Replay(u, answers[..|answers| - 1]), Delta(last.isCorrect), last.word, last.isCorrect)
  }

  /** How many of the answers were correct answers for `w`. */
  function CorrectCount(answers: seq<Answer>, w: string): nat {
    if answers == [] then 0
    else
      var last := answers[|answers| - 1];
      CorrectCount(answers[..|answers| - 1], w) + (if last.word == w && last.isCorrect then 1 else 0)
  }

  /** Misses for `w` counted from `start`, reset to 0 by each correct answer for `w`. */
  function MissesSinceCorrect(start: nat, answers: seq<Answer>, w: string): nat {
    if answers == [] then start
    else
      var last := answers[|answers| - 1];
      var before := MissesSinceCorrect(start, answers[..|answers| - 1], w);
      if last.word != w then before else if last.isCorrect then 0 else before + 1
  }

  /** The state of a word in `correctList` depends only on how many correct answers it got:
      misses never reset the count. */
  lemma {:induction false} ReplayStatus(u: User, answers: seq<Answer>, w: string)
    ensures StatusOf(Replay(u, answers).correctList, w)
         == AdvanceN(StatusOf(u.correctList, w), CorrectCount(answers, w))
  {
    if answers != [] {
      var prefix := answers[..|answers| - 1];
      var last := answers[|answers| - 1];
      ReplayStatus(u, prefix, w);
      StatusAfter(Replay(u, prefix).correctList, last.word, last.isCorrect, w);
    }
  }

  lemma StatusAfter(l: seq<Entry>, word: string, isCorrect: bool, w: string)
    ensures StatusOf(CorrectListAfter(l, word, isCorrect), w)
         == if word == w && isCorrect then Advance(StatusOf(l, w)) else StatusOf(l, w)
  {
    if isCorrect {
      if word == w {
        CorrectAnswerAdvances(l, w);
      } else {
        CorrectAnswerFrame(l, word, w);
      }
    }
  }

  /** From an unseen word, `k` correct answers give count `k` below the threshold and mastery
      from then on. */
  lemma {:induction false} AdvanceFromUnseen(k: nat)
    ensures AdvanceN(Unseen, k)
         == if k == 0 then Unseen else if k < MasteryCount then Learning(k) else Known
  {
    if k > 0 {
      AdvanceFromUnseen(k - 1);
    }
  }

  /** For a freshly created user, a word is mastered exactly when it has been answered
      correctly at least three times, and is otherwise counting its correct answers. */
  lemma FreshUserMastery(answers: seq<Answer>, w: string)
    ensures var s := StatusOf(Replay(CreateUser(0), answers).correctList, w);
      var k := CorrectCount(answers, w);
      && (s == Known <==> k >= MasteryCount)
      && (0 < k < MasteryCount ==> s == Learning(k))
      && (k == 0 ==> s == Unseen)
  {
    ReplayStatus(CreateUser(0), answers, w);
    AdvanceFromUnseen(CorrectCount(answers, w));
  }

  /** The stored miss count of a word is the number of misses since its last correct answer,
      and the key is present exactly when that number is positive. */
  lemma {:induction false} ReplayMisses(u: User, answers: seq<Answer>, w: string)
    requires PositiveMisses(u.wrongList)
    ensures PositiveMisses(Replay(u, answers).wrongList)
    ensures Misses(Replay(u, answers).wrongList, w) == MissesSinceCorrect(Misses(u.wrongList, w), answers, w)
    ensures w in Replay(u, answers).wrongList <==> MissesSinceCorrect(Misses(u.wrongList, w), answers, w) > 0
  {
    if answers != [] {
      ReplayMisses(u, answers[..|answers| - 1], w);
    }
  }

  /** Two misses on "bene" from 0 points: the word holds 2 misses and points stay at 0. */
  lemma TwoMissesScenario()
    ensures var u := Replay(CreateUser(0), [Answer("bene", false), Answer("bene", false)]);
      u.wrongList == map["bene" := 2] && u.points == 0 && u.correctList == []
  {
  }

  /** Three correct answers on "bene": the bare mastered word replaces the counting entry
      and the score is 15. */
  lemma ThreeCorrectScenario()
    ensures var u := Replay(CreateUser(0), [Answer("bene", true), Answer("bene", true), Answer("bene", true)]);
      u.correctList == [Mastered("bene")] && u.points == 15 && u.wrongList == map[]
  {
    var a := [Answer("bene", true), Answer("bene", true), Answer("bene", true)];
    assert a[..2] == [Answer("bene", true), Answer("bene", true)];
    assert a[..2][..1] == [Answer("bene", true)];
    assert [Answer("bene", true)][..0] == [];
    var u0 := CreateUser(0);
    assert Replay(u0, a[..1][..0]) == u0;
    var u1 := Replay(u0, a[..1]);
    assert UpdateCorrectList([], "bene") == [Counting("bene", 1)];
    assert u1.correctList == [Counting("bene", 1)];
    assert a[..2][..1] == a[..1];
    var u2 := Replay(u0, a[..2]);
    assert FirstCounting([Counting("bene", 1)], "bene") == Some(0);
    assert Mastered("bene") !in [Counting("bene", 1)];
    assert UpdateCorrectList([Counting("bene", 1)], "bene") == [Counting("bene", 2)];
    assert u2.correctList == [Counting("bene", 2)];
    assert FirstCounting([Counting("bene", 2)], "bene") == Some(0);
    assert DropCounting([Counting("bene", 2)], "bene") == [];
  }
}
