/** The date rule shared by both controllers: once a meetup's date has
    passed, nobody can edit it, delete it or subscribe to it. */
module PastMeetups {
  import opened Wrappers
  import opened Temporal
  import opened Models
  import opened MeetupController
  import opened SubscriptionController

  /** For a meetup dated before `now`, every `update`, `delete` and subscription
      `store` naming it is refused: by the date rule, or by the ownership or
      user check that precedes it (a delete fails outright when the meetup's
      organiser row is missing). */
  lemma PastMeetupIsFrozen(
    ms: seq<Meetup>, us: seq<User>, ss: seq<Subscription>,
    k: nat, userId: nat, req: UpdateRequest, now: int)
    requires UniqueMeetupIds(ms) && k < |ms| && IsPast(ms[k].date, now)
    ensures var m := ms[k];
      CheckUpdate(ms, userId, req.(id := Some(m.id)), now) ==
        (if m.userId == userId then Err(EventPassed) else Err(NotYourEvent))
    ensures var m := ms[k];
      CheckDelete(ms, us, userId, m.id, now) ==
        (if FindUser(us, m.userId).None? then Err(HandlerFault)
         else if m.userId == userId then Err(DeletePast) else Err(DeleteForbidden))
    ensures var m := ms[k];
      CheckSubscribe(ms, us, ss, userId, Some(m.id), now) ==
        (if FindUser(us, userId).None? then Err(InvalidUser)
         else if m.userId == userId then Err(OwnMeetup)
         else Err(PastMeetup))
  {
    var m := ms[k];
    FindMeetupUnique(ms, m.id, m);
    var i := MeetupIndex(ms, m.id).value;
    assert !(i < k) && !(k < i);
  }
}
