/** `SubscriptionController.store`: may the requesting user subscribe to a
    meetup? Six checks run in a fixed order and the first that fails decides
    the answer; on success one Subscription row is inserted and one mail job
    is queued. */
module SubscriptionController {
  import opened Wrappers
  import opened Temporal
  import opened Models

  /** Why a subscription request is refused. */
  datatype SubscribeError =
    | ValidationFails
    | MeetupNotFound
    | InvalidUser
    | OwnMeetup
    | PastMeetup
    | AlreadySubscribed
      /** The user already holds a subscription in the same calendar hour. */
    | HourConflict(title: string, id: nat)
      /** The handler throws: one of the user's subscriptions joins to no
          meetup, and reading its date fails. */
    | Fault
  {
    /** 400 for a malformed request and the two failed lookups, 401 for the
        business rules, 500 when the handler throws. */
    function Status(): (r: nat)
      ensures r == 400 <==> this in {ValidationFails, MeetupNotFound, InvalidUser}
      ensures r == 500 <==> this == Fault
      ensures r == 401 <==> this in {OwnMeetup, PastMeetup, AlreadySubscribed} || this.HourConflict?
    {
      match this
      case ValidationFails | MeetupNotFound | InvalidUser => 400
      case Fault => 500
      case _ => 401
    }

    /** The `error` text of the JSON answer; a thrown handler sends none. */
    function Message(): (r: string)
      ensures r == "" <==> this == Fault
    {
      match this
      case ValidationFails => "Validation fails"
      case MeetupNotFound => "Meetup does not exists"
      case InvalidUser => "Invalid User"
      case OwnMeetup => "You can not subscribe for your own meetup"
      case PastMeetup => "You can not subscribe for past meetup"
      case AlreadySubscribed => "You have already subscribe for this meetup"
      case HourConflict(title, id) =>
        "Meetups in same hour that " + title + " (id: " + Decimal(id) + ")"
      case Fault => ""
    }
  }

  /** A client can tell the refusals apart: two different errors other than
      two hour conflicts answer with different texts. */
  lemma SubscribeMessagesDistinct(a: SubscribeError, b: SubscribeError)
    requires a != b && !(a.HourConflict? && b.HourConflict?)
    ensures a.Message() != b.Message()
  {
    if a.HourConflict? {
      HourConflictMessageHead(a, b);
    } else if b.HourConflict? {
      HourConflictMessageHead(b, a);
    }
  }

  /** An hour-conflict text starts with a head no other refusal text has. */
  lemma HourConflictMessageHead(a: SubscribeError, b: SubscribeError)
    requires a.HourConflict? && !b.HourConflict?
    ensures a.Message() != b.Message()
  {
    var prefix := "Meetups in same hour that ";
    var m := a.Message();
    assert m[..|prefix|] == prefix;
    assert |m| >= |prefix|;
    match b {
      case MeetupNotFound => assert m[6] == 's' != b.Message()[6];
      case OwnMeetup => assert m[0] == 'M' != b.Message()[0];
      case PastMeetup => assert m[0] == 'M' != b.Message()[0];
      case AlreadySubscribed => assert m[0] == 'M' != b.Message()[0];
      case ValidationFails => assert |b.Message()| < |prefix|;
      case InvalidUser => assert |b.Message()| < |prefix|;
      case Fault => assert |b.Message()| < |prefix|;
    }
  }

  /** Decimal digits of `n`, as a JavaScript template literal prints a number. */
  function Decimal(n: nat): (r: string)
    ensures |r| > 0
  {
    if n < 10 then ["0123456789"[n]] else Decimal(n / 10) + ["0123456789"[n % 10]]
  }

  /** The meetup and the user a successful request was checked against. */
  datatype Grant = Grant(meetup: Meetup, user: User)

  /** The job a successful subscription queues. */
  function Notification(g: Grant): (j: MailJob)
    ensures j.organizer == g.meetup.userId && j.meetup == g.meetup.title
    ensures j.description == g.meetup.description
    ensures j.user == g.user.name && j.email == g.user.email
  {
    MailJob(g.meetup.userId, g.meetup.title, g.meetup.description, g.user.name, g.user.email)
  }

  /** The user's own subscriptions, in table order. */
  ghost function Mine(ss: seq<Subscription>, userId: nat): (r: seq<Subscription>)
    ensures |r| <= |ss|
    ensures forall s :: s in r <==> s in ss && s.userId == userId
  {
    if |ss| == 0 then []
    else
      var rest := Mine(ss[..|ss| - 1], userId);
      assert ss == ss[..|ss| - 1] + [ss[|ss| - 1]];
      if ss[|ss| - 1].userId == userId then rest + [ss[|ss| - 1]] else rest
  }

  /** Row `i` is the meetup joined to subscription `i`, `None` when it is gone. */
  ghost function Joins(mine: seq<Subscription>, ms: seq<Meetup>): (rows: seq<Option<Meetup>>)
    ensures |rows| == |mine|
    ensures forall i :: 0 <= i < |rows| ==> rows[i] == FindMeetup(ms, mine[i].meetupId)
  {
    seq(|mine|, i requires 0 <= i < |mine| => FindMeetup(ms, mine[i].meetupId))
  }

  /** `Subscription.findAll({ where: { user_id }, include: [Meetup] })`: the
      user's subscriptions in table order, each with its joined meetup, `None`
      where the meetup no longer exists (the join is an outer join). */
  function UserRows(ss: seq<Subscription>, ms: seq<Meetup>, userId: nat): (rows: seq<Option<Meetup>>)
    ensures |rows| <= |ss|
    ensures rows == Joins(Mine(ss, userId), ms)
    ensures forall r :: r in rows <==>
      exists s :: s in ss && s.userId == userId && r == FindMeetup(ms, s.meetupId)
  {
    if |ss| == 0 then []
    else
      var rest := UserRows(ss[..|ss| - 1], ms, userId);
      var s := ss[|ss| - 1];
      if s.userId == userId then rest + [FindMeetup(ms, s.meetupId)] else rest
  }

  /** Outcome of the `forEach` over the joined rows: it throws at the first row
      without a meetup, and otherwise ends holding the LAST meetup met that
      shares the target's hour (the variable is overwritten on every match). */
  datatype ScanResult = Crash | Done(conflict: Option<Meetup>)

  function Scan(rows: seq<Option<Meetup>>, date: int): (r: ScanResult)
    ensures r == Crash <==> None in rows
  {
    if |rows| == 0 then Done(None)
    else match Scan(rows[..|rows| - 1], date)
      case Crash => Crash
      case Done(c) =>
        match rows[|rows| - 1]
        case None => Crash
        case Some(mt) => Done(if SameHour(mt.date, date) then Some(mt) else c)
  }

  /** The whole chain of checks, in the source's order. */
  function CheckSubscribe(
    ms: seq<Meetup>, us: seq<User>, ss: seq<Subscription>,
    userId: nat, meetupId: Option<int>, now: int): (r: Result<Grant, SubscribeError>)
    ensures r.Ok? ==>
      meetupId.Some? && FindMeetup(ms, meetupId.value) == Some(r.value.meetup) &&
      FindUser(us, userId) == Some(r.value.user) &&
      r.value.meetup.userId != userId && !IsPast(r.value.meetup.date, now) &&
      FindSubscription(ss, meetupId.value, userId).None? && Joined(ss, ms, userId) &&
      forall s :: s in ss && s.userId == userId ==> !ClashesWith(ms, s, r.value.meetup.date)
  {
    if meetupId.None? then Err(ValidationFails)
    else
      var found := FindMeetup(ms, meetupId.value);
      if found.None? then Err(MeetupNotFound)
      else
        var m := found.value;
        var user := FindUser(us, userId);
        if user.None? then Err(InvalidUser)
        else if m.userId == userId then Err(OwnMeetup)
        else if IsPast(m.date, now) then Err(PastMeetup)
        else if FindSubscription(ss, meetupId.value, userId).Some? then Err(AlreadySubscribed)
        else
          ScanClearIff(ss, ms, userId, m.date);
          match Scan(UserRows(ss, ms, userId), m.date)
          case Crash => Err(Fault)
          case Done(Some(c)) => Err(HourConflict(c.title, c.id))
          case Done(None) => Ok(Grant(m, user.value))
  }

  // ---------------------------------------------------------------------
  // The controller action

  /** `store`: runs the checks against the tables, then inserts the
      subscription and queues its mail job. */
  method Store(db: Db, userId: nat, meetupId: Option<int>, now: int)
    returns (res: Result<Subscription, SubscribeError>)
    requires db.Valid()
    modifies db
    ensures db.Valid()
    ensures db.users == old(db.users) && db.files == old(db.files)
    ensures db.meetups == old(db.meetups) && db.nextMeetupId == old(db.nextMeetupId)
    ensures match CheckSubscribe(old(db.meetups), old(db.users), old(db.subscriptions), userId, meetupId, now)
      case Err(e) =>
        res == Err(e) && db.subscriptions == old(db.subscriptions) &&
        db.jobs == old(db.jobs) && db.nextSubscriptionId == old(db.nextSubscriptionId)
      case Ok(g) =>
        res == Ok(Subscription(old(db.nextSubscriptionId), g.meetup.id, userId)) &&
        db.subscriptions == old(db.subscriptions) + [res.value] &&
        db.jobs == old(db.jobs) + [Notification(g)] &&
        db.nextSubscriptionId == old(db.nextSubscriptionId) + 1
  {
    if meetupId.None? {
      return Err(ValidationFails);
    }
    var meetupExists := FindMeetup(db.meetups, meetupId.value);
    if meetupExists.None? {
      return Err(MeetupNotFound);
    }
    var m := meetupExists.value;
    var userExists := FindUser(db.users, userId);
    if userExists.None? {
      return Err(InvalidUser);
    }
    if m.userId == userId {
      return Err(OwnMeetup);
    }
    if IsPast(m.date, now) {
      return Err(PastMeetup);
    }
    var userMeetup := FindSubscription(db.subscriptions, meetupId.value, userId);
    if userMeetup.Some? {
      return Err(AlreadySubscribed);
    }

    var dateMeetups := UserRows(db.subscriptions, db.meetups, userId);
    var scan := ScanRows(dateMeetups, m.date);
    if scan.Crash? {
      return Err(Fault);
    }
    var hourConflict := scan.conflict;
    if hourConflict.Some? {
      return Err(HourConflict(hourConflict.value.title, hourConflict.value.id));
    }

    var subscription := Subscription(db.nextSubscriptionId, m.id, userId);
    AppendKeepsKeysUnique(db.subscriptions, subscription, db.nextSubscriptionId);
    db.subscriptions := db.subscriptions + [subscription];
    db.nextSubscriptionId := db.nextSubscriptionId + 1;
    db.jobs := db.jobs + [Notification(Grant(m, userExists.value))];
    res := Ok(subscription);
  }

  /** Appending a row keyed by the counter keeps keys unique and below the
      incremented counter. */
  lemma AppendKeepsKeysUnique(ss: seq<Subscription>, s: Subscription, next: nat)
    requires UniqueSubscriptionIds(ss) && (forall x :: x in ss ==> x.id < next) && s.id == next
    ensures UniqueSubscriptionIds(ss + [s]) && forall x :: x in ss + [s] ==> x.id < next + 1
  {
    var after := ss + [s];
    forall i, j | 0 <= i < j < |after| ensures after[i].id != after[j].id {
      assert after[i] in ss;
    }
  }

  /** The `forEach` of `store` over the joined rows. */
  method ScanRows(dateMeetups: seq<Option<Meetup>>, date: int) returns (r: ScanResult)
    ensures r == Scan(dateMeetups, date)
  {
    var hourConflict: Option<Meetup> := None;
    var i := 0;
    while i < |dateMeetups|
      invariant 0 <= i <= |dateMeetups|
      invariant Scan(dateMeetups[..i], date) == Done(hourConflict)
    {
      assert dateMeetups[..i + 1][..i] == dateMeetups[..i];
      match dateMeetups[i]
      case None =>
        ScanCrashExtends(dateMeetups, i + 1, date);
        return Crash;
      case Some(row) =>
        if SameHour(row.date, date) {
          hourConflict := Some(row);
        }
      i := i + 1;
    }
    assert dateMeetups[..i] == dateMeetups;
    return Done(hourConflict);
  }

  /** Once the scan has thrown on a prefix it throws on the whole sequence. */
  lemma {:induction false} ScanCrashExtends(rows: seq<Option<Meetup>>, i: nat, date: int)
    requires i <= |rows| && Scan(rows[..i], date) == Crash
    ensures Scan(rows, date) == Crash
  {
    if i < |rows| {
      var n := |rows|;
      assert rows[..n - 1][..i] == rows[..i];
      ScanCrashExtends(rows[..n - 1], i, date);
    } else {
      assert rows[..i] == rows;
    }
  }

  // ---------------------------------------------------------------------
  // The same-hour scan, related to the subscription table

  /** Every subscription of `userId` still joins to an existing meetup. */
  ghost predicate Joined(ss: seq<Subscription>, ms: seq<Meetup>, userId: nat) {
    forall s :: s in ss && s.userId == userId ==> FindMeetup(ms, s.meetupId).Some?
  }

  /** Subscription `s` targets a meetup in the calendar hour of `date`. */
  predicate ClashesWith(ms: seq<Meetup>, s: Subscription, date: int) {
    var o := FindMeetup(ms, s.meetupId);
    o.Some? && SameHour(o.value.date, date)
  }

  /** Unfolds `UserRows` and `Scan` one subscription at the end. */
  lemma ScanStep(ss: seq<Subscription>, ms: seq<Meetup>, userId: nat, date: int)
    requires |ss| > 0
    ensures var pre, s := ss[..|ss| - 1], ss[|ss| - 1];
      var before := Scan(UserRows(pre, ms, userId), date);
      Scan(UserRows(ss, ms, userId), date) ==
        if s.userId != userId then before
        else match before
          case Crash => Crash
          case Done(c) =>
            match FindMeetup(ms, s.meetupId)
            case None => Crash
            case Some(mt) => Done(if SameHour(mt.date, date) then Some(mt) else c)
  {
    var pre, s := ss[..|ss| - 1], ss[|ss| - 1];
    var rows := UserRows(pre, ms, userId);
    if s.userId == userId {
      var all := rows + [FindMeetup(ms, s.meetupId)];
      assert all[..|all| - 1] == rows;
    }
  }

  /** The scan throws exactly when some subscription of the user has lost its meetup. */
  lemma {:induction false} ScanCrashIff(ss: seq<Subscription>, ms: seq<Meetup>, userId: nat, date: int)
    ensures Scan(UserRows(ss, ms, userId), date) == Crash <==> !Joined(ss, ms, userId)
  {
    if |ss| > 0 {
      var pre, s := ss[..|ss| - 1], ss[|ss| - 1];
      assert ss == pre + [s];
      ScanCrashIff(pre, ms, userId, date);
      ScanStep(ss, ms, userId, date);
    }
  }

  /** The scan finds nothing exactly when every subscription of the user
      joins to a meetup outside the target's hour. */
  lemma {:induction false} ScanClearIff(ss: seq<Subscription>, ms: seq<Meetup>, userId: nat, date: int)
    ensures Scan(UserRows(ss, ms, userId), date) == Done(None) <==>
      Joined(ss, ms, userId) &&
      forall s :: s in ss && s.userId == userId ==> !ClashesWith(ms, s, date)
  {
    if |ss| > 0 {
      var pre, s := ss[..|ss| - 1], ss[|ss| - 1];
      assert ss == pre + [s];
      ScanClearIff(pre, ms, userId, date);
      ScanCrashIff(pre, ms, userId, date);
      ScanStep(ss, ms, userId, date);
    }
  }

  /** Row `i` is a subscription of the user whose meetup `c` shares the hour
      of `date`, and no later subscription of the user does. */
  ghost predicate LastClash(ss: seq<Subscription>, ms: seq<Meetup>, userId: nat, date: int, c: Meetup, i: int) {
    0 <= i < |ss| && ss[i].userId == userId &&
    FindMeetup(ms, ss[i].meetupId) == Some(c) && SameHour(c.date, date) &&
    forall j :: i < j < |ss| && ss[j].userId == userId ==> !ClashesWith(ms, ss[j], date)
  }

  /** A last clash in a prefix stays the last clash when a row that does not
      clash is added. */
  lemma LastClashExtends(ss: seq<Subscription>, ms: seq<Meetup>, userId: nat, date: int, c: Meetup, i: int)
    requires |ss| > 0 && LastClash(ss[..|ss| - 1], ms, userId, date, c, i)
    requires ss[|ss| - 1].userId == userId ==> !ClashesWith(ms, ss[|ss| - 1], date)
    ensures LastClash(ss, ms, userId, date, c, i)
  {
    var pre := ss[..|ss| - 1];
    assert forall j :: 0 <= j < |pre| ==> ss[j] == pre[j];
  }

  /** What the scan reports is the last subscription of the user, in table
      order, whose meetup shares the target's hour. */
  lemma {:induction false} ScanReportsLast(ss: seq<Subscription>, ms: seq<Meetup>, userId: nat, date: int, c: Meetup)
    requires Scan(UserRows(ss, ms, userId), date) == Done(Some(c))
    ensures exists i :: LastClash(ss, ms, userId, date, c, i)
  {
    var n := |ss|;
    var pre, s := ss[..n - 1], ss[n - 1];
    ScanStep(ss, ms, userId, date);
    if s.userId == userId && ClashesWith(ms, s, date) {
      assert LastClash(ss, ms, userId, date, c, n - 1);
    } else {
      ScanReportsLast(pre, ms, userId, date, c);
      var i :| LastClash(pre, ms, userId, date, c, i);
      LastClashExtends(ss, ms, userId, date, c, i);
    }
  }

  // ---------------------------------------------------------------------
  // Properties of the decision

  /** The checks run in the source's order and the first that fails decides
      the answer (`SubscribeError.Status` gives its status). */
  lemma SubscribeCheckOrder(
    ms: seq<Meetup>, us: seq<User>, ss: seq<Subscription>, userId: nat, meetupId: Option<int>, now: int)
    ensures var r := CheckSubscribe(ms, us, ss, userId, meetupId, now);
      (meetupId.None? ==> r == Err(ValidationFails)) &&
      (meetupId.Some? && FindMeetup(ms, meetupId.value).None? ==> r == Err(MeetupNotFound)) &&
      (meetupId.Some? && FindMeetup(ms, meetupId.value).Some? ==>
        var m := FindMeetup(ms, meetupId.value).value;
        (FindUser(us, userId).None? ==> r == Err(InvalidUser)) &&
        (FindUser(us, userId).Some? && m.userId == userId ==> r == Err(OwnMeetup)) &&
        (FindUser(us, userId).Some? && m.userId != userId && IsPast(m.date, now) ==>
          r == Err(PastMeetup)) &&
        ((FindUser(us, userId).Some? && m.userId != userId && !IsPast(m.date, now) &&
          FindSubscription(ss, meetupId.value, userId).Some?) ==> r == Err(AlreadySubscribed)))
  {
  }

  /** The organiser of a meetup is refused, whatever the meetup's date and
      whatever else the tables hold: the ownership check comes before the date
      check. */
  lemma OrganiserAlwaysRejected(
    ms: seq<Meetup>, us: seq<User>, ss: seq<Subscription>, id: int, now: int)
    requires FindMeetup(ms, id).Some?
    ensures var m := FindMeetup(ms, id).value;
      var r := CheckSubscribe(ms, us, ss, m.userId, Some(id), now);
      r == if FindUser(us, m.userId).Some? then Err(OwnMeetup) else Err(InvalidUser)
  {
  }

  /** The past test is strict: a meetup dated exactly `now`, or later, is
      never refused as past; one dated earlier is refused as past once the
      lookups and the ownership check pass. */
  lemma PastCheckIsStrict(
    ms: seq<Meetup>, us: seq<User>, ss: seq<Subscription>, userId: nat, id: int, now: int)
    requires FindMeetup(ms, id).Some?
    ensures var m := FindMeetup(ms, id).value;
      var r := CheckSubscribe(ms, us, ss, userId, Some(id), now);
      (r == Err(PastMeetup) <==>
        FindUser(us, userId).Some? && m.userId != userId && m.date < now)
  {
    var m := FindMeetup(ms, id).value;
    if FindUser(us, userId).Some? && m.userId != userId && !(m.date < now) &&
       FindSubscription(ss, id, userId).None? {
      match Scan(UserRows(ss, ms, userId), m.date)
      case Crash =>
      case Done(c) =>
    }
  }

  /** The five checks before the scan all pass. */
  ghost predicate ReachesScan(
    ms: seq<Meetup>, us: seq<User>, ss: seq<Subscription>, userId: nat, meetupId: Option<int>, now: int)
  {
    meetupId.Some? && FindMeetup(ms, meetupId.value).Some? && FindUser(us, userId).Some? &&
    var m := FindMeetup(ms, meetupId.value).value;
    m.userId != userId && !IsPast(m.date, now) &&
    FindSubscription(ss, meetupId.value, userId).None?
  }

  /** Once the earlier checks pass: the handler throws exactly when a
      subscription of the user has lost its meetup; otherwise the request is
      refused for an hour conflict exactly when some subscription of the user
      targets a meetup in the target's calendar hour, and the conflict named in
      the message is the last such subscription in table order. */
  lemma SubscribeConflictIff(
    ms: seq<Meetup>, us: seq<User>, ss: seq<Subscription>, userId: nat, meetupId: Option<int>, now: int)
    requires ReachesScan(ms, us, ss, userId, meetupId, now)
    ensures var r := CheckSubscribe(ms, us, ss, userId, meetupId, now);
      var m := FindMeetup(ms, meetupId.value).value;
      (r == Err(Fault) <==> !Joined(ss, ms, userId)) &&
      (Joined(ss, ms, userId) ==>
        ((r.Err? && r.error.HourConflict?) <==>
          exists s :: s in ss && s.userId == userId && ClashesWith(ms, s, m.date))) &&
      (r.Ok? <==> (Joined(ss, ms, userId) &&
        forall s :: s in ss && s.userId == userId ==> !ClashesWith(ms, s, m.date))) &&
      (r.Err? && r.error.HourConflict? ==>
        exists i, c :: LastClash(ss, ms, userId, m.date, c, i) &&
          r.error == HourConflict(c.title, c.id))
  {
    var m := FindMeetup(ms, meetupId.value).value;
    ScanCrashIff(ss, ms, userId, m.date);
    ScanClearIff(ss, ms, userId, m.date);
    var scan := Scan(UserRows(ss, ms, userId), m.date);
    if scan.Done? && scan.conflict.Some? {
      var c := scan.conflict.value;
      ScanReportsLast(ss, ms, userId, m.date, c);
      var i :| LastClash(ss, ms, userId, m.date, c, i);
      assert ss[i] in ss && ClashesWith(ms, ss[i], m.date);
    }
  }

  /** Subscriptions `a` and `b` target meetups in one calendar hour. */
  predicate SharesHour(ms: seq<Meetup>, a: Subscription, b: Subscription) {
    var ma := FindMeetup(ms, a.meetupId);
    ma.Some? && ClashesWith(ms, b, ma.value.date)
  }

  /** No two subscriptions of one user target meetups in the same hour slot. */
  ghost predicate HoursDistinct(ss: seq<Subscription>, ms: seq<Meetup>) {
    forall i, j :: 0 <= i < j < |ss| && ss[i].userId == ss[j].userId ==> !SharesHour(ms, ss[i], ss[j])
  }

  /** A successful `store` keeps every user's subscriptions in distinct hour slots. */
  lemma StorePreservesHoursDistinct(
    ms: seq<Meetup>, us: seq<User>, ss: seq<Subscription>,
    userId: nat, meetupId: Option<int>, now: int, sid: nat)
    requires HoursDistinct(ss, ms)
    requires CheckSubscribe(ms, us, ss, userId, meetupId, now).Ok?
    ensures var g := CheckSubscribe(ms, us, ss, userId, meetupId, now).value;
      HoursDistinct(ss + [Subscription(sid, g.meetup.id, userId)], ms)
  {
    var g := CheckSubscribe(ms, us, ss, userId, meetupId, now).value;
    var added := Subscription(sid, g.meetup.id, userId);
    var all := ss + [added];
    assert ReachesScan(ms, us, ss, userId, meetupId, now);
    SubscribeConflictIff(ms, us, ss, userId, meetupId, now);
    assert FindMeetup(ms, added.meetupId) == Some(g.meetup);
    forall i, j | 0 <= i < j < |all| && all[i].userId == all[j].userId
      ensures !SharesHour(ms, all[i], all[j])
    {
      if j == |ss| {
        assert all[i] == ss[i] && ss[i] in ss && !ClashesWith(ms, ss[i], g.meetup.date);
      } else {
        assert all[i] == ss[i] && all[j] == ss[j];
      }
    }
  }

  /** No user holds two subscriptions to one meetup. */
  ghost predicate NoDuplicatePairs(ss: seq<Subscription>) {
    forall i, j :: 0 <= i < j < |ss| ==>
      !(ss[i].userId == ss[j].userId && ss[i].meetupId == ss[j].meetupId)
  }

  /** In sequential execution `store` never creates a second subscription of
      one user to one meetup. */
  lemma StoreNeverDuplicates(
    ms: seq<Meetup>, us: seq<User>, ss: seq<Subscription>,
    userId: nat, meetupId: Option<int>, now: int, sid: nat)
    requires NoDuplicatePairs(ss)
    requires CheckSubscribe(ms, us, ss, userId, meetupId, now).Ok?
    ensures var g := CheckSubscribe(ms, us, ss, userId, meetupId, now).value;
      NoDuplicatePairs(ss + [Subscription(sid, g.meetup.id, userId)])
  {
    var g := CheckSubscribe(ms, us, ss, userId, meetupId, now).value;
    var all := ss + [Subscription(sid, g.meetup.id, userId)];
    forall i, j | 0 <= i < j < |all|
      ensures !(all[i].userId == all[j].userId && all[i].meetupId == all[j].meetupId)
    {
      if j == |ss| {
        assert all[i] == ss[i] && ss[i] in ss;
      } else {
        assert all[i] == ss[i] && all[j] == ss[j];
      }
    }
  }

  /** After a successful subscription, the same request, at the same or any
      later time, is refused: as already subscribed, or as past once the meetup
      has begun. */
  lemma ResubscribeRejected(
    ms: seq<Meetup>, us: seq<User>, ss: seq<Subscription>,
    userId: nat, id: int, now: int, later: int, sid: nat)
    requires CheckSubscribe(ms, us, ss, userId, Some(id), now).Ok?
    requires now <= later
    ensures var g := CheckSubscribe(ms, us, ss, userId, Some(id), now).value;
      var r := CheckSubscribe(ms, us, ss + [Subscription(sid, g.meetup.id, userId)], userId, Some(id), later);
      r == (if g.meetup.date < later then Err(PastMeetup) else Err(AlreadySubscribed))
  {
    var g := CheckSubscribe(ms, us, ss, userId, Some(id), now).value;
    var added := Subscription(sid, g.meetup.id, userId);
    assert added in ss + [added];
  }
}
