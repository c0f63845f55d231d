/** A user's quiz results: `/submitQuiz` appends them and `/analytics` counts them. */
module UserAnalytics {
  import opened Wrappers
  import opened Users

  datatype Report = Report(totalQuizzes: nat, correctAnswers: nat, incorrectAnswers: nat, streak: int)

  /** `Failed` is the exception the route turns into a 500. */
  datatype AnalyticsReply = Stats(report: Report) | UserNotFound | Failed

  /** The length of `filter(result => result.correct)` (want = true) or of its negation. */
  function CountWhere(results: seq<QuizResult>, want: bool): nat {
    if results == [] then 0
    else CountWhere(results[..|results| - 1], want)
         + (if Truthy(results[|results| - 1].correct) == want then 1 else 0)
  }

  /** The positions of the results whose `correct` has truthiness `want`. */
  function Marked(results: seq<QuizResult>, want: bool): set<nat> {
    set i: nat | i < |results| && Truthy(results[i].correct) == want
  }

  /** The filtered length counts exactly the positions whose `correct` has the wanted
      truthiness. */
  lemma {:induction false} CountWhereMarked(results: seq<QuizResult>, want: bool)
    ensures CountWhere(results, want) == |Marked(results, want)|
  {
    if results != [] {
      var n := |results| - 1;
      var prefix := results[..n];
      CountWhereMarked(prefix, want);
      var extra: set<nat> := if Truthy(results[n].correct) == want then {n} else {};
      assert Marked(results, want) == Marked(prefix, want) + extra by {
        forall i: nat | i < n
          ensures prefix[i] == results[i]
        {
        }
      }
      assert n !in Marked(prefix, want);
    }
  }

  /** The two filters use a predicate and its negation, so they split the results. */
  lemma {:induction false} CountsPartition(results: seq<QuizResult>)
    ensures CountWhere(results, true) + CountWhere(results, false) == |results|
  {
    if results != [] {
      CountsPartition(results[..|results| - 1]);
    }
  }

  /** The report for a user's results; `streak` is `user.streak || 0`. */
  function ReportOf(results: seq<QuizResult>, streak: Option<int>): (r: Report)
    ensures r.totalQuizzes == |results|
    ensures r.correctAnswers == |Marked(results, true)|
    ensures r.incorrectAnswers == |Marked(results, false)|
    ensures r.correctAnswers + r.incorrectAnswers == r.totalQuizzes
    ensures streak.Some? ==> r.streak == streak.value
    ensures streak.None? ==> r.streak == 0
  {
    CountsPartition(results);
    CountWhereMarked(results, true);
    CountWhereMarked(results, false);
    Report(|results|, CountWhere(results, true), CountWhere(results, false), streak.GetOr(0))
  }

  /** `/submitQuiz`: `$push` one result onto the user's `quizResults`, creating the field when
      absent; an email that matches no user changes nothing. The timestamp is a parameter. */
  function SubmitQuiz(users: Store, email: string, result: QuizResult): (r: Store)
    ensures r.Keys == users.Keys
    ensures forall e :: e in users && e != email ==> r[e] == users[e]
    ensures email in users ==>
      && r[email].quizResults == Some(users[email].quizResults.GetOr([]) + [result])
      && r[email].(quizResults := users[email].quizResults) == users[email]
  {
    if email in users then
      var u := users[email];
      users[email := u.(quizResults := Some(u.quizResults.GetOr([]) + [result]))]
    else users
  }

  /** One submission adds one to the total and one to exactly the count its `correct`
      value selects. */
  lemma SubmitThenAnalytics(users: Store, email: string, result: QuizResult)
    requires email in users
    ensures Analytics(users, email).Stats? && Analytics(SubmitQuiz(users, email, result), email).Stats?
    ensures var before := Analytics(users, email).report;
      var after := Analytics(SubmitQuiz(users, email, result), email).report;
      && after.totalQuizzes == before.totalQuizzes + 1
      && after.correctAnswers == before.correctAnswers + (if Truthy(result.correct) then 1 else 0)
      && after.incorrectAnswers == before.incorrectAnswers + (if Truthy(result.correct) then 0 else 1)
      && after.streak == before.streak
  {
  }

  /** The route as written: reading `quizResults.length` on a document without the field
      throws. */
  function AnalyticsAsWritten(users: Store, email: string): (r: AnalyticsReply)
    ensures email !in users <==> r == UserNotFound
    ensures r == Failed <==> email in users && users[email].quizResults.None?
    ensures email in users && users[email].quizResults.Some? ==> r == Analytics(users, email)
  {
    if email !in users then UserNotFound
    else if users[email].quizResults.None? then Failed
    else Analytics(users, email)
  }

  /** The route with an absent `quizResults` read as no results. */
  function Analytics(users: Store, email: string): (r: AnalyticsReply)
    ensures email !in users <==> r == UserNotFound
    ensures r != Failed
    ensures r.Stats? ==>
      var results := users[email].quizResults.GetOr([]);
      && r.report.totalQuizzes == |results|
      && r.report.correctAnswers == |Marked(results, true)|
      && r.report.incorrectAnswers == |Marked(results, false)|
      && r.report.correctAnswers + r.report.incorrectAnswers == r.report.totalQuizzes
      && r.report.streak == users[email].streak.GetOr(0)
  {
    if email !in users then UserNotFound
    else
      var u := users[email];
      Stats(ReportOf(u.quizResults.GetOr([]), u.streak))
  }

  /** As written, a newly registered user who has submitted nothing gets an error. */
  lemma FreshUserAnalyticsFails(users: Store, email: string, password: string)
    requires Register(users, email, password).reply == Created
    ensures AnalyticsAsWritten(Register(users, email, password).users, email) == Failed
  {
  }

  /** Corrected, the same user gets a report of zeros. */
  lemma FreshUserAnalyticsEmpty(users: Store, email: string, password: string)
    requires Register(users, email, password).reply == Created
    ensures Analytics(Register(users, email, password).users, email) == Stats(Report(0, 0, 0, 0))
  {
  }
}
