/** `assignBadge`: award a named badge to a user at most once. */
module Badges {
  import opened Wrappers
  import opened Users

  /** `Awarded` is the "Badge awarded!" message, `NotAwarded` the shared "already assigned or
      user not found" message, `Failed` the exception that `/awardBadge` turns into a 500. */
  datatype BadgeReply = Awarded | NotAwarded | Failed

  datatype BadgeOutcome = BadgeOutcome(reply: BadgeReply, users: Store)

  /** `assignBadge` as written: reading `badges.includes` on a document without a `badges`
      field throws. */
  function AssignBadgeAsWritten(users: Store, email: string, badge: string): (r: BadgeOutcome)
    ensures email !in users ==> r == BadgeOutcome(NotAwarded, users)
    ensures email in users && users[email].badges.None? ==> r == BadgeOutcome(Failed, users)
    ensures email in users && users[email].badges.Some? ==> r == AssignBadge(users, email, badge)
  {
    if email !in users then BadgeOutcome(NotAwarded, users)
    else if users[email].badges.None? then BadgeOutcome(Failed, users)
    else AssignBadge(users, email, badge)
  }

  /** `assignBadge` with an absent `badges` field read as empty, which is also what `$push`
      does to a missing field. A badge already held, or a missing user, changes nothing. */
  function AssignBadge(users: Store, email: string, badge: string): (r: BadgeOutcome)
    ensures r.reply != Failed
    ensures r.reply == Awarded <==> email in users && badge !in Held(users[email])
    ensures r.reply == NotAwarded ==> r.users == users
    ensures r.users.Keys == users.Keys
    ensures forall e :: e in users && e != email ==> r.users[e] == users[e]
    ensures r.reply == Awarded ==>
      r.users[email] == users[email].(badges := Some(Held(users[email]) + [badge]))
  {
    if email in users && badge !in Held(users[email]) then
      var u := users[email];
      BadgeOutcome(Awarded, users[email := u.(badges := Some(Held(u) + [badge]))])
    else
      BadgeOutcome(NotAwarded, users)
  }

  /** Awarding is idempotent: a second award of the same badge changes nothing. */
  lemma AssignBadgeIdempotent(users: Store, email: string, badge: string)
    ensures var once := AssignBadge(users, email, badge).users;
      AssignBadge(once, email, badge) == BadgeOutcome(NotAwarded, once)
  {
  }

  /** Awarding a badge twice to a user who lacked it leaves exactly one copy. */
  lemma AwardTwiceLeavesOneCopy(users: Store, email: string, badge: string)
    requires email in users && badge !in Held(users[email])
    ensures var twice := AssignBadge(AssignBadge(users, email, badge).users, email, badge).users;
      multiset(Held(twice[email]))[badge] == 1
  {
  }

  /** Awarding keeps a consistent store consistent: badges stay duplicate-free. */
  lemma AssignBadgeKeepsConsistent(users: Store, email: string, badge: string)
    requires AllConsistent(users)
    ensures AllConsistent(AssignBadge(users, email, badge).users)
  {
  }

  /** As written, the first badge for a newly registered user throws: `createUser` never
      sets `badges`. */
  lemma FreshUserBadgeFails(users: Store, email: string, password: string, badge: string)
    requires Register(users, email, password).reply == Created
    ensures AssignBadgeAsWritten(Register(users, email, password).users, email, badge).reply == Failed
  {
  }

  /** Corrected, the same award succeeds and the user then holds exactly that badge. */
  lemma FreshUserBadgeAwarded(users: Store, email: string, password: string, badge: string)
    requires Register(users, email, password).reply == Created
    ensures var r := AssignBadge(Register(users, email, password).users, email, badge);
      r.reply == Awarded && Held(r.users[email]) == [badge]
  {
  }
}
