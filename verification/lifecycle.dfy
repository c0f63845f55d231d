/** Sequences of requests against the user collection, starting from an empty collection:
    the invariants every reachable user document keeps. */
module Lifecycle {
  import opened Users
  import opened Scoring
  import opened Badges
  import opened UserAnalytics

  /** A request that writes user documents: `/register`, `/correct` or `/incorrect`,
      `/awardBadge` (the corrected award, which reads an absent `badges` field as empty),
      `/submitQuiz`, and a `/deleteAccount` whose password check passed. */
  datatype Event =
    | Registered(email: string, password: string)
    | Answered(email: string, word: string, isCorrect: bool)
    | BadgeAwarded(email: string, badge: string)
    | QuizSubmitted(email: string, result: QuizResult)
    | AccountDeleted(email: string)

  function Step(users: Store, ev: Event): Store {
    match ev
    case Registered(email, password) => Register(users, email, password).users
    case Answered(email, word, isCorrect) =>
      if isCorrect then AnswerCorrect(users, email, word).users
      else AnswerIncorrect(users, email, word).users
    case BadgeAwarded(email, badge) => AssignBadge(users, email, badge).users
    case QuizSubmitted(email, result) => SubmitQuiz(users, email, result)
    case AccountDeleted(email) => users - {email}
  }

  function Run(users: Store, events: seq<Event>): Store {
    if events == [] then users
    else Step(Run(users, events[..|events| - 1]), events[|events| - 1])
  }

  /** Each request keeps every document consistent. */
  lemma StepKeepsConsistent(users: Store, ev: Event)
    requires AllConsistent(users)
    ensures AllConsistent(Step(users, ev))
  {
    match ev
    case Registered(email, password) =>
    case Answered(email, word, isCorrect) =>
      if email in users {
        AnswerKeepsConsistent(users[email], Delta(isCorrect), word, isCorrect);
      }
    case BadgeAwarded(email, badge) =>
      AssignBadgeKeepsConsistent(users, email, badge);
    case QuizSubmitted(email, result) =>
    case AccountDeleted(email) =>
  }

  /** Starting from no users, every document ever stored has non-negative points, at most
      one `correctList` entry per word with counts in 1..2, miss counts of at least 1, and
      no badge twice. */
  lemma {:induction false} ReachableUsersConsistent(events: seq<Event>)
    ensures AllConsistent(Run(map[], events))
  {
    if events != [] {
      ReachableUsersConsistent(events[..|events| - 1]);
      StepKeepsConsistent(Run(map[], events[..|events| - 1]), events[|events| - 1]);
    }
  }
}
