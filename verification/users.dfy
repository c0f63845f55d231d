/** The user document kept in the `users` collection, and its creation at registration. */
module Users {
  import opened Seqs
  import opened Wrappers
  import opened Progress

  /** The JSON values whose truthiness the handlers test; objects, arrays and fractional
      numbers are not modelled. */
  datatype Json = JUndefined | JNull | JBool(b: bool) | JNum(n: int) | JStr(s: string)

  /** JavaScript truthiness of a JSON value. */
  predicate Truthy(v: Json) {
    match v
    case JUndefined => false
    case JNull => false
    case JBool(b) => b
    case JNum(n) => n != 0
    case JStr(s) => s != ""
  }

  /** One element of `quizResults`, as `/submitQuiz` pushes it; `correct` is whatever the
      client posted. */
  datatype QuizResult = QuizResult(question: string, correct: Json, timestamp: int)

  /** A user document. Fields the source may leave absent are options: `badges` and
      `quizResults` are never set at creation, and `streak` is never written at all. */
  datatype User = User(
    points: int,
    wrongList: map<string, nat>,
    correctList: seq<Entry>,
    badges: Option<seq<string>>,
    quizResults: Option<seq<QuizResult>>,
    streak: Option<int>)

  /** The collection, keyed by the unique email. */
  type Store = map<string, User>

  /** `createUser`: the record inserted for a new account (the password hash is not modelled). */
  function CreateUser(points: int): (u: User)
    ensures u.points == points && u.wrongList == map[] && u.correctList == []
    ensures u.badges.None? && u.quizResults.None? && u.streak.None?
  {
    User(points, map[], [], None, None, None)
  }

  datatype RegisterReply = Created | MissingField | AlreadyExists

  datatype Registration = Registration(reply: RegisterReply, users: Store)

  /** `/register`: an empty email or password is refused, an existing email is a conflict,
      and otherwise a user with 0 points and empty lists is inserted. */
  function Register(users: Store, email: string, password: string): (r: Registration)
    ensures email == "" || password == "" ==> r == Registration(MissingField, users)
    ensures email != "" && password != "" && email in users ==> r == Registration(AlreadyExists, users)
    ensures r.reply.Created? <==> email != "" && password != "" && email !in users
    ensures r.reply.Created? ==> r.users == users[email := CreateUser(0)]
    ensures !r.reply.Created? ==> r.users == users
  {
    if email == "" || password == "" then Registration(MissingField, users)
    else if email in users then Registration(AlreadyExists, users)
    else Registration(Created, users[email := CreateUser(0)])
  }

  /** The badges a user holds, reading an absent field as none. */
  function Held(u: User): seq<string> {
    u.badges.GetOr([])
  }

  /** What every document reachable through the modelled operations satisfies. */
  predicate Consistent(u: User) {
    && u.points >= 0
    && WellFormed(u.correctList)
    && PositiveMisses(u.wrongList)
    && Distinct(Held(u))
  }

  predicate AllConsistent(users: Store) {
    forall e :: e in users ==> Consistent(users[e])
  }
}
