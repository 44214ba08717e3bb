/** `MeetupController`: creation, partial update and deletion of meetups, each
    a chain of ownership and date checks in a fixed order before the table is
    written, and the two listings `index` and `myMeetups`. */
module MeetupController {
  import opened Wrappers
  import opened Temporal
  import opened Models

  /** Why a meetup request is refused. */
  datatype MeetupError =
    | ValidationFails
    | InvalidImage
    | PastDateForbidden
    | NotYourEvent
    | EventPassed
    | NewDatePassed
    | MeetupMissing
    | DeleteForbidden
    | DeletePast
    | QueryValidationFails
      /** The handler's promise rejects: a listing query with a page below 1
          (a negative OFFSET), or a delete whose organiser row is missing
          (reading `id` of an absent `organizer`). */
    | HandlerFault
  {
    /** 400 for a malformed request, a missing banner or meetup; 401 for the
        ownership and date rules; 500 for a rejected handler. */
    function Status(): (r: nat)
      ensures r == 400 <==> this in {ValidationFails, InvalidImage, MeetupMissing, QueryValidationFails}
      ensures r == 500 <==> this == HandlerFault
      ensures r == 401 <==>
        this in {PastDateForbidden, NotYourEvent, EventPassed, NewDatePassed, DeleteForbidden, DeletePast}
    {
      match this
      case ValidationFails | InvalidImage | MeetupMissing | QueryValidationFails => 400
      case HandlerFault => 500
      case _ => 401
    }

    /** The `error` text of the JSON answer; a failed query sends none. */
    function Message(): (r: string)
      ensures r == "" <==> this == HandlerFault
    {
      match this
      case ValidationFails => "Validation fails"
      case InvalidImage => "Invalid image"
      case PastDateForbidden => "Past dates are not permited"
      case NotYourEvent => "You can only edit your events"
      case EventPassed => "You can not edit passed events"
      case NewDatePassed => "You can not set passed date"
      case MeetupMissing => "This meetup does not exists"
      case DeleteForbidden => "You do not have permission to delete this meetup"
      case DeletePast => "You can not delete a past meetup"
      case QueryValidationFails => "Validation Fails"
      case HandlerFault => ""
    }
  }

  /** No two refusals share a text; the two validation messages differ in
      the case of one letter. */
  lemma MeetupMessagesDistinct(a: MeetupError, b: MeetupError)
    requires a != b
    ensures a.Message() != b.Message()
  {
  }

  // ---------------------------------------------------------------------
  // store

  /** The body of `POST /meetup`; `None` is a field the client left out. */
  datatype CreateRequest = CreateRequest(
    title: Option<string>, description: Option<string>, location: Option<string>,
    date: Option<int>, image: Option<int>)

  /** Yup `string().required()`: present, and not the empty string. */
  predicate RequiredString(s: Option<string>) {
    s.Some? && s.value != ""
  }

  /** The Yup schema of `store`: every field is required. */
  predicate CreateShapeValid(req: CreateRequest) {
    RequiredString(req.title) && RequiredString(req.description) &&
    RequiredString(req.location) && req.date.Some? && req.image.Some?
  }

  /** The checks of `store`, and the row it would insert under key `id`. */
  function CheckCreate(fs: seq<File>, userId: nat, req: CreateRequest, now: int, id: nat): (r: Result<Meetup, MeetupError>)
    ensures r.Ok? ==>
      r.value.id == id && r.value.userId == userId &&
      Some(r.value.title) == req.title && Some(r.value.description) == req.description &&
      Some(r.value.location) == req.location && Some(r.value.date) == req.date &&
      Some(r.value.image) == req.image &&
      FindFile(fs, r.value.image).Some? && now <= r.value.date
  {
    if !CreateShapeValid(req) then Err(ValidationFails)
    else if FindFile(fs, req.image.value).None? then Err(InvalidImage)
    else if IsPast(req.date.value, now) then Err(PastDateForbidden)
    else Ok(Meetup(id, req.title.value, req.description.value, req.location.value,
                   req.date.value, userId, req.image.value))
  }

  /** `store`: runs the checks, then appends the new meetup. */
  method Store(db: Db, userId: nat, req: CreateRequest, now: int) returns (res: Result<Meetup, MeetupError>)
    requires db.Valid()
    modifies db
    ensures db.Valid()
    ensures db.users == old(db.users) && db.files == old(db.files)
    ensures db.subscriptions == old(db.subscriptions) && db.jobs == old(db.jobs)
    ensures db.nextSubscriptionId == old(db.nextSubscriptionId)
    ensures match CheckCreate(old(db.files), userId, req, now, old(db.nextMeetupId))
      case Err(e) =>
        res == Err(e) && db.meetups == old(db.meetups) && db.nextMeetupId == old(db.nextMeetupId)
      case Ok(m) =>
        res == Ok(m) && db.meetups == old(db.meetups) + [m] &&
        db.nextMeetupId == old(db.nextMeetupId) + 1
  {
    if !CreateShapeValid(req) {
      return Err(ValidationFails);
    }
    var imageExists := FindFile(db.files, req.image.value);
    if imageExists.None? {
      return Err(InvalidImage);
    }
    if IsPast(req.date.value, now) {
      return Err(PastDateForbidden);
    }
    var meetup := Meetup(db.nextMeetupId, req.title.value, req.description.value,
                         req.location.value, req.date.value, userId, req.image.value);
    db.meetups := db.meetups + [meetup];
    db.nextMeetupId := db.nextMeetupId + 1;
    res := Ok(meetup);
  }

  /** `store` refuses, in this order, a request with a missing field (400), one
      whose image is not an existing File (400) and one dated strictly before
      `now` (401); it accepts exactly the requests passing all three, and the new meetup carries the request's fields, its
      banner exists, its date is not past, and its organiser is the requester. */
  lemma CreateSpec(fs: seq<File>, userId: nat, req: CreateRequest, now: int, id: nat)
    ensures var r := CheckCreate(fs, userId, req, now, id);
      (r == Err(ValidationFails) <==> !CreateShapeValid(req)) &&
      (r == Err(InvalidImage) <==> CreateShapeValid(req) && FindFile(fs, req.image.value).None?) &&
      (r == Err(PastDateForbidden) <==>
        CreateShapeValid(req) && FindFile(fs, req.image.value).Some? && req.date.value < now) &&
      (r.Ok? <==> CreateShapeValid(req) && FindFile(fs, req.image.value).Some? && now <= req.date.value) &&
      (r.Err? ==> r.error.Status() == if r.error == PastDateForbidden then 401 else 400)
  {
  }

  // ---------------------------------------------------------------------
  // update

  /** The body of `PUT /meetup`: the meetup's id and the fields to change.
      The schema does not mention `user_id`, and Yup lets unknown keys through,
      so a body may carry one as well. */
  datatype UpdateRequest = UpdateRequest(
    id: Option<int>, title: Option<string>, description: Option<string>,
    location: Option<string>, date: Option<int>, image: Option<int>,
    userId: Option<nat>)

  /** `event.update(req.body)`: the supplied fields overwrite the stored ones,
      `user_id` included. The body's `id` is the stored one, so the key stays. */
  function ApplyUpdate(m: Meetup, req: UpdateRequest): (r: Meetup)
    ensures r.id == m.id
    ensures r.userId == if req.userId.Some? then req.userId.value else m.userId
  {
    m.(userId := req.userId.GetOr(m.userId),
       title := req.title.GetOr(m.title),
       description := req.description.GetOr(m.description),
       location := req.location.GetOr(m.location),
       date := req.date.GetOr(m.date),
       image := req.image.GetOr(m.image))
  }

  /** The checks of `update`; on success, the position of the meetup to change.
      The source looks the meetup up by id and organiser together; with unique
      ids that is the meetup with this id, if the requester organises it. */
  function CheckUpdate(ms: seq<Meetup>, userId: nat, req: UpdateRequest, now: int): (r: Result<nat, MeetupError>)
    ensures r.Ok? ==>
      req.id.Some? && r.value < |ms| && ms[r.value].id == req.id.value &&
      ms[r.value].userId == userId && now <= ms[r.value].date &&
      (req.date.Some? ==> now <= req.date.value)
  {
    if req.id.None? then Err(ValidationFails)
    else match MeetupIndex(ms, req.id.value)
      case None => Err(NotYourEvent)
      case Some(k) =>
        if ms[k].userId != userId then Err(NotYourEvent)
        else if IsPast(ms[k].date, now) then Err(EventPassed)
        else if req.date.Some? && IsPast(req.date.value, now) then Err(NewDatePassed)
        else Ok(k)
  }

  /** `update`: runs the checks, then overwrites the supplied fields of that one meetup. */
  method Update(db: Db, userId: nat, req: UpdateRequest, now: int) returns (res: Result<Meetup, MeetupError>)
    requires db.Valid()
    modifies db
    ensures db.Valid()
    ensures db.users == old(db.users) && db.files == old(db.files)
    ensures db.subscriptions == old(db.subscriptions) && db.jobs == old(db.jobs)
    ensures db.nextMeetupId == old(db.nextMeetupId) && db.nextSubscriptionId == old(db.nextSubscriptionId)
    ensures match CheckUpdate(old(db.meetups), userId, req, now)
      case Err(e) => res == Err(e) && db.meetups == old(db.meetups)
      case Ok(k) =>
        res == Ok(ApplyUpdate(old(db.meetups)[k], req)) &&
        db.meetups == old(db.meetups)[k := res.value]
  {
    if req.id.None? {
      return Err(ValidationFails);
    }
    var k := MeetupIndex(db.meetups, req.id.value);
    if k.None? || db.meetups[k.value].userId != userId {
      return Err(NotYourEvent);
    }
    var event := db.meetups[k.value];
    if IsPast(event.date, now) {
      return Err(EventPassed);
    }
    if req.date.Some? && IsPast(req.date.value, now) {
      return Err(NewDatePassed);
    }
    var meetup := ApplyUpdate(event, req);
    db.meetups := db.meetups[k.value := meetup];
    res := Ok(meetup);
  }

  /** `update` refuses, in this order: a request without id (400); a meetup
      that is missing or organised by someone else, with one and the same
      answer (401); a meetup whose current date is past, since past events are
      frozen (401); a supplied new date that is past (401). Every request passing
      all of these is accepted. */
  lemma UpdateCheckOrder(ms: seq<Meetup>, userId: nat, req: UpdateRequest, now: int)
    requires UniqueMeetupIds(ms)
    ensures var r := CheckUpdate(ms, userId, req, now);
      (r == Err(ValidationFails) <==> req.id.None?) &&
      (req.id.Some? ==>
        var found := FindMeetup(ms, req.id.value);
        (r == Err(NotYourEvent) <==> found.None? || found.value.userId != userId) &&
        (r == Err(EventPassed) <==>
          found.Some? && found.value.userId == userId && found.value.date < now) &&
        (r == Err(NewDatePassed) <==>
          found.Some? && found.value.userId == userId && now <= found.value.date &&
          req.date.Some? && req.date.value < now) &&
        (r.Ok? <==>
          found.Some? && found.value.userId == userId && now <= found.value.date &&
          (req.date.Some? ==> now <= req.date.value)) &&
        (r.Ok? ==> ms[r.value] == found.value)) &&
      (r.Err? ==> r.error.Status() == if r.error == ValidationFails then 400 else 401)
  {
  }

  /** The partial update overwrites exactly the supplied fields. */
  lemma UpdateOverwritesSuppliedFields(m: Meetup, req: UpdateRequest)
    ensures var r := ApplyUpdate(m, req);
      r.id == m.id &&
      (if req.userId.Some? then r.userId == req.userId.value else r.userId == m.userId) &&
      (if req.title.Some? then r.title == req.title.value else r.title == m.title) &&
      (if req.description.Some? then r.description == req.description.value else r.description == m.description) &&
      (if req.location.Some? then r.location == req.location.value else r.location == m.location) &&
      (if req.date.Some? then r.date == req.date.value else r.date == m.date) &&
      (if req.image.Some? then r.image == req.image.value else r.image == m.image)
  {
  }

  /** With unique ids, the meetup with key `x` is the one stored under `x`. */
  lemma FindMeetupUnique(ms: seq<Meetup>, x: int, m: Meetup)
    requires UniqueMeetupIds(ms) && m in ms && m.id == x
    ensures FindMeetup(ms, x) == Some(m)
  {
    var k := MeetupIndex(ms, x).value;
    var j :| 0 <= j < |ms| && ms[j] == m;
    assert !(k < j) && !(j < k);
  }

  /** A successful update changes that one meetup and no other: looking up
      any other id gives what it gave before, looking up this id gives the
      updated meetup, and ids stay unique. */
  lemma UpdateChangesOnlyTarget(ms: seq<Meetup>, userId: nat, req: UpdateRequest, now: int)
    requires UniqueMeetupIds(ms)
    requires CheckUpdate(ms, userId, req, now).Ok?
    ensures var k := CheckUpdate(ms, userId, req, now).value;
      var after := ms[k := ApplyUpdate(ms[k], req)];
      UniqueMeetupIds(after) && |after| == |ms| &&
      FindMeetup(after, req.id.value) == Some(ApplyUpdate(ms[k], req)) &&
      forall x :: x != req.id.value ==> FindMeetup(after, x) == FindMeetup(ms, x)
  {
    var k := CheckUpdate(ms, userId, req, now).value;
    var updated := ApplyUpdate(ms[k], req);
    var after := ms[k := updated];
    assert UniqueMeetupIds(after) by {
      forall i, j | 0 <= i < j < |after| ensures after[i].id != after[j].id {
        assert after[i].id == ms[i].id && after[j].id == ms[j].id;
      }
    }
    assert after[k] == updated && updated.id == req.id.value;
    FindMeetupUnique(after, req.id.value, updated);
    forall x | x != req.id.value ensures FindMeetup(after, x) == FindMeetup(ms, x) {
      var before := FindMeetup(ms, x);
      if before.Some? {
        var j :| 0 <= j < |ms| && ms[j] == before.value;
        assert j != k && after[j] == before.value;
        FindMeetupUnique(after, x, before.value);
      } else {
        forall m | m in after ensures m.id != x {
          var j :| 0 <= j < |after| && after[j] == m;
          if j != k { assert ms[j] == m; }
        }
      }
    }
  }

  /** `event.update(req.body)` writes a `user_id` sent in the body, so the
      organiser can hand the meetup to any other user. From then on the former
      organiser's edits of it are refused as not theirs. */
  lemma UpdateHandsOverMeetup(ms: seq<Meetup>, userId: nat, req: UpdateRequest, now: int,
                              next: UpdateRequest, later: int)
    requires UniqueMeetupIds(ms)
    requires CheckUpdate(ms, userId, req, now).Ok?
    requires req.userId.Some? && req.userId.value != userId
    requires next.id == req.id
    ensures var k := CheckUpdate(ms, userId, req, now).value;
      var after := ms[k := ApplyUpdate(ms[k], req)];
      FindMeetup(after, req.id.value).Some? &&
      FindMeetup(after, req.id.value).value.userId == req.userId.value &&
      CheckUpdate(after, userId, next, later) == Err(NotYourEvent)
  {
    UpdateChangesOnlyTarget(ms, userId, req, now);
  }

  /** The update as evidently intended: the supplied fields overwrite the
      stored ones except the organiser, which stays the requester. */
  function ApplyEdit(m: Meetup, req: UpdateRequest): (r: Meetup)
    ensures r.id == m.id && r.userId == m.userId
    ensures r.title == req.title.GetOr(m.title) && r.description == req.description.GetOr(m.description)
    ensures r.location == req.location.GetOr(m.location) && r.date == req.date.GetOr(m.date)
    ensures r.image == req.image.GetOr(m.image)
  {
    ApplyUpdate(m, req.(userId := None))
  }

  /** With `ApplyEdit`, an accepted update leaves the requester organising the
      meetup, so their next edit of it is never refused as not theirs. */
  lemma EditKeepsOrganiser(ms: seq<Meetup>, userId: nat, req: UpdateRequest, now: int,
                           next: UpdateRequest, later: int)
    requires UniqueMeetupIds(ms)
    requires CheckUpdate(ms, userId, req, now).Ok?
    requires next.id == req.id
    ensures var k := CheckUpdate(ms, userId, req, now).value;
      var after := ms[k := ApplyEdit(ms[k], req)];
      FindMeetup(after, req.id.value) == Some(ApplyEdit(ms[k], req)) &&
      ApplyEdit(ms[k], req).userId == userId &&
      CheckUpdate(after, userId, next, later) != Err(NotYourEvent)
  {
    var plain := req.(userId := None);
    assert CheckUpdate(ms, userId, plain, now) == CheckUpdate(ms, userId, req, now);
    UpdateChangesOnlyTarget(ms, userId, plain, now);
    assert ApplyEdit(ms[CheckUpdate(ms, userId, req, now).value], req) ==
      ApplyUpdate(ms[CheckUpdate(ms, userId, req, now).value], plain);
  }

  /** Applying the same partial update twice is the same as applying it once. */
  lemma UpdateIdempotent(m: Meetup, req: UpdateRequest)
    ensures ApplyUpdate(ApplyUpdate(m, req), req) == ApplyUpdate(m, req)
  {
  }

  // ---------------------------------------------------------------------
  // delete

  const DeletedMessage := "The meetup was been delete"

  /** The checks of `delete`; on success, the position of the meetup to remove.
      The ownership test reads the eager-loaded `organizer` row, so a meetup
      whose `user_id` names no stored user makes the handler fail. */
  function CheckDelete(ms: seq<Meetup>, us: seq<User>, userId: nat, id: int, now: int): (r: Result<nat, MeetupError>)
    ensures r.Ok? ==>
      r.value < |ms| && ms[r.value].id == id && FindUser(us, ms[r.value].userId).Some? &&
      ms[r.value].userId == userId && now <= ms[r.value].date
  {
    match MeetupIndex(ms, id)
    case None => Err(MeetupMissing)
    case Some(k) =>
      if FindUser(us, ms[k].userId).None? then Err(HandlerFault)
      else if ms[k].userId != userId then Err(DeleteForbidden)
      else if IsPast(ms[k].date, now) then Err(DeletePast)
      else Ok(k)
  }

  /** `meetup.destroy()`: the table without row `k`. */
  function RemoveAt(ms: seq<Meetup>, k: nat): (r: seq<Meetup>)
    requires k < |ms|
    ensures |r| == |ms| - 1 && multiset(r) + multiset{ms[k]} == multiset(ms)
  {
    assert ms == ms[..k] + [ms[k]] + ms[k + 1..];
    ms[..k] + ms[k + 1..]
  }

  /** `delete`: runs the checks, then removes that one meetup. */
  method Delete(db: Db, userId: nat, id: int, now: int) returns (res: Result<string, MeetupError>)
    requires db.Valid()
    modifies db
    ensures db.Valid()
    ensures db.users == old(db.users) && db.files == old(db.files)
    ensures db.subscriptions == old(db.subscriptions) && db.jobs == old(db.jobs)
    ensures db.nextMeetupId == old(db.nextMeetupId) && db.nextSubscriptionId == old(db.nextSubscriptionId)
    ensures match CheckDelete(old(db.meetups), old(db.users), userId, id, now)
      case Err(e) => res == Err(e) && db.meetups == old(db.meetups)
      case Ok(k) => res == Ok(DeletedMessage) && db.meetups == RemoveAt(old(db.meetups), k)
  {
    var k := MeetupIndex(db.meetups, id);
    if k.None? {
      return Err(MeetupMissing);
    }
    var meetup := db.meetups[k.value];
    if FindUser(db.users, meetup.userId).None? {
      return Err(HandlerFault);
    }
    if meetup.userId != userId {
      return Err(DeleteForbidden);
    }
    if IsPast(meetup.date, now) {
      return Err(DeletePast);
    }
    ghost var before := db.meetups;
    db.meetups := RemoveAt(db.meetups, k.value);
    assert forall m :: m in db.meetups ==> m in before;
    assert UniqueMeetupIds(db.meetups) by { RemoveAtKeepsUnique(before, k.value); }
    res := Ok(DeletedMessage);
  }

  lemma RemoveAtKeepsUnique(ms: seq<Meetup>, k: nat)
    requires k < |ms| && UniqueMeetupIds(ms)
    ensures UniqueMeetupIds(RemoveAt(ms, k))
  {
    var after := RemoveAt(ms, k);
    forall i, j | 0 <= i < j < |after| ensures after[i].id != after[j].id {
      var i0 := if i < k then i else i + 1;
      var j0 := if j < k then j else j + 1;
      assert after[i] == ms[i0] && after[j] == ms[j0];
    }
  }

  /** `delete` answers 400 for a missing meetup, 500 for one without an
      organiser row, 401 for a requester who is not the organiser and 401 for
      a past meetup, in that order, and accepts every request passing all four. */
  lemma DeleteCheckOrder(ms: seq<Meetup>, us: seq<User>, userId: nat, id: int, now: int)
    ensures var r := CheckDelete(ms, us, userId, id, now);
      var found := FindMeetup(ms, id);
      (r == Err(MeetupMissing) <==> found.None?) &&
      (r == Err(HandlerFault) <==> found.Some? && FindUser(us, found.value.userId).None?) &&
      (r == Err(DeleteForbidden) <==>
        found.Some? && FindUser(us, found.value.userId).Some? && found.value.userId != userId) &&
      (r == Err(DeletePast) <==>
        found.Some? && FindUser(us, found.value.userId).Some? && found.value.userId == userId &&
        found.value.date < now) &&
      (r.Ok? <==>
        found.Some? && FindUser(us, found.value.userId).Some? && found.value.userId == userId &&
        now <= found.value.date) &&
      (r.Ok? ==> ms[r.value] == found.value) &&
      (r.Err? ==>
        r.error.Status() == if r.error == MeetupMissing then 400 else if r.error == HandlerFault then 500 else 401)
  {
  }

  /** Row `j` of the table after removing row `k`. */
  lemma RemoveAtIndex(ms: seq<Meetup>, k: nat, j: nat)
    requires k < |ms| && j < |ms| - 1
    ensures RemoveAt(ms, k)[j] == ms[if j < k then j else j + 1]
  {
  }

  /** Removing row `k` keeps every other row. */
  lemma RemoveAtKeeps(ms: seq<Meetup>, k: nat, j: nat)
    requires k < |ms| && j < |ms| && j != k
    ensures ms[j] in RemoveAt(ms, k)
  {
    if j < k { RemoveAtIndex(ms, k, j); } else { RemoveAtIndex(ms, k, j - 1); }
  }

  /** With unique ids, no row left after removing row `k` has its id. */
  lemma RemoveAtDropsId(ms: seq<Meetup>, k: nat)
    requires k < |ms| && UniqueMeetupIds(ms)
    ensures forall m :: m in RemoveAt(ms, k) ==> m in ms && m.id != ms[k].id
  {
    var after := RemoveAt(ms, k);
    forall m | m in after ensures m in ms && m.id != ms[k].id {
      var j :| 0 <= j < |after| && after[j] == m;
      RemoveAtIndex(ms, k, j);
    }
  }

  /** A successful delete removes exactly that meetup: it can no longer be
      found, every other id finds what it found before, and the table loses
      that one row. */
  lemma DeleteRemovesExactlyTarget(ms: seq<Meetup>, us: seq<User>, userId: nat, id: int, now: int)
    requires UniqueMeetupIds(ms)
    requires CheckDelete(ms, us, userId, id, now).Ok?
    ensures var k := CheckDelete(ms, us, userId, id, now).value;
      var after := RemoveAt(ms, k);
      UniqueMeetupIds(after) && FindMeetup(after, id).None? &&
      multiset(after) + multiset{ms[k]} == multiset(ms) &&
      forall x :: x != id ==> FindMeetup(after, x) == FindMeetup(ms, x)
  {
    var k := CheckDelete(ms, us, userId, id, now).value;
    var after := RemoveAt(ms, k);
    RemoveAtKeepsUnique(ms, k);
    RemoveAtDropsId(ms, k);
    forall x | x != id ensures FindMeetup(after, x) == FindMeetup(ms, x) {
      var before := FindMeetup(ms, x);
      if before.Some? {
        var j :| 0 <= j < |ms| && ms[j] == before.value;
        RemoveAtKeeps(ms, k, j);
        FindMeetupUnique(after, x, before.value);
      }
    }
  }

  // ---------------------------------------------------------------------
  // Listings: `order: ['date']`, then `limit` and `offset`

  ghost predicate SortedByDate(ms: seq<Meetup>) {
    forall i, j :: 0 <= i < j < |ms| ==> ms[i].date <= ms[j].date
  }

  /** A meetup dated no later than every row of a sorted sequence can head it. */
  lemma SortedCons(x: Meetup, s: seq<Meetup>)
    requires SortedByDate(s) && forall y :: y in s ==> x.date <= y.date
    ensures SortedByDate([x] + s)
  {
    var r := [x] + s;
    forall i, j | 0 <= i < j < |r| ensures r[i].date <= r[j].date {
      assert r[j] == s[j - 1];
      if i > 0 { assert r[i] == s[i - 1]; }
    }
  }

  /** Inserts `m` before the first meetup dated at or after it. */
  function InsertByDate(m: Meetup, ms: seq<Meetup>): (r: seq<Meetup>)
    requires SortedByDate(ms)
    ensures SortedByDate(r) && multiset(r) == multiset(ms) + multiset{m}
    ensures forall x :: x in r ==> x == m || x in ms
  {
    if |ms| == 0 || m.date <= ms[0].date then
      SortedCons(m, ms);
      [m] + ms
    else
      var rest := InsertByDate(m, ms[1..]);
      assert ms == [ms[0]] + ms[1..];
      SortedCons(ms[0], rest);
      [ms[0]] + rest
  }

  /** The rows in date order; a permutation of its input. */
  function SortByDate(ms: seq<Meetup>): (r: seq<Meetup>)
    ensures SortedByDate(r) && multiset(r) == multiset(ms)
  {
    if |ms| == 0 then []
    else
      assert ms == [ms[0]] + ms[1..];
      InsertByDate(ms[0], SortByDate(ms[1..]))
  }

  /** `where: { user_id }`. */
  function OwnedBy(ms: seq<Meetup>, userId: nat): (r: seq<Meetup>)
    ensures forall m :: multiset(r)[m] == if m.userId == userId then multiset(ms)[m] else 0
  {
    if |ms| == 0 then []
    else
      var rest := OwnedBy(ms[1..], userId);
      assert ms == [ms[0]] + ms[1..];
      if ms[0].userId == userId then [ms[0]] + rest else rest
  }

  /** `where: { date: { [Op.between]: [startOfDay(d), endOfDay(d)] } }`. */
  function Between(ms: seq<Meetup>, lo: int, hi: int): (r: seq<Meetup>)
    ensures forall m :: multiset(r)[m] == if lo <= m.date <= hi then multiset(ms)[m] else 0
  {
    if |ms| == 0 then []
    else
      var rest := Between(ms[1..], lo, hi);
      assert ms == [ms[0]] + ms[1..];
      if lo <= ms[0].date <= hi then [ms[0]] + rest else rest
  }

  /** `myMeetups`: each of the requester's meetups once, ordered by date. */
  function MyMeetups(ms: seq<Meetup>, userId: nat): (r: seq<Meetup>)
    ensures SortedByDate(r)
    ensures forall m :: multiset(r)[m] == if m.userId == userId then multiset(ms)[m] else 0
  {
    SortByDate(OwnedBy(ms, userId))
  }

  /** The query of `GET /meetups`: `page` defaults to 1 when left out. */
  datatype IndexQuery = IndexQuery(date: Option<int>, page: Option<int>)

  /** `limit` rows after skipping `offset`. */
  function Window(s: seq<Meetup>, offset: nat, limit: nat): (r: seq<Meetup>)
    ensures |r| == if offset >= |s| then 0 else if offset + limit <= |s| then limit else |s| - offset
    ensures forall i :: 0 <= i < |r| ==> offset + i < |s| && r[i] == s[offset + i]
    ensures forall m :: m in r ==> m in s
  {
    if offset >= |s| then []
    else s[offset .. if offset + limit <= |s| then offset + limit else |s|]
  }

  /** Each meetup on the calendar day of `date` once, in date order. */
  function DayListing(ms: seq<Meetup>, date: int): (r: seq<Meetup>)
    ensures SortedByDate(r)
    ensures forall m :: multiset(r)[m] == if Day(m.date) == Day(date) then multiset(ms)[m] else 0
  {
    assert forall m: Meetup :: StartOfDay(date) <= m.date <= EndOfDay(date) <==> Day(m.date) == Day(date) by {
      forall m: Meetup ensures StartOfDay(date) <= m.date <= EndOfDay(date) <==> Day(m.date) == Day(date) {
        BetweenDayBoundsIffSameDay(m.date, date);
      }
    }
    SortByDate(Between(ms, StartOfDay(date), EndOfDay(date)))
  }

  /** `index`. */
  function Index(ms: seq<Meetup>, q: IndexQuery): (r: Result<seq<Meetup>, MeetupError>)
    ensures r == Err(QueryValidationFails) <==> q.date.None?
    ensures r == Err(HandlerFault) <==> q.date.Some? && q.page.GetOr(1) < 1
    ensures r.Ok? <==> q.date.Some? && q.page.GetOr(1) >= 1
  {
    if q.date.None? then Err(QueryValidationFails)
    else
      var offset := (q.page.GetOr(1) - 1) * 10;
      if offset < 0 then Err(HandlerFault)
      else Ok(Window(DayListing(ms, q.date.value), offset, 10))
  }

  /** An answered `index` query holds at most 10 meetups, in date order, all
      on the query's calendar day, namely those at positions `(page - 1) * 10`
      onward of that day's listing. */
  lemma IndexSpec(ms: seq<Meetup>, q: IndexQuery)
    ensures var r := Index(ms, q);
      r.Ok? ==>
        var listing := DayListing(ms, q.date.value);
        var offset := (q.page.GetOr(1) - 1) * 10;
        |r.value| <= 10 && SortedByDate(r.value) &&
        (forall m :: m in r.value ==> m in ms && Day(m.date) == Day(q.date.value)) &&
        forall i :: 0 <= i < |r.value| ==> r.value[i] == listing[offset + i]
  {
    var r := Index(ms, q);
    if r.Ok? {
      var listing := DayListing(ms, q.date.value);
      var offset := (q.page.GetOr(1) - 1) * 10;
      assert r.value == Window(listing, offset, 10);
      DayListingMembers(ms, q.date.value);
    }
  }

  /** Every meetup of the day's listing is stored and on that day. */
  lemma DayListingMembers(ms: seq<Meetup>, date: int)
    ensures forall m :: m in DayListing(ms, date) ==> m in ms && Day(m.date) == Day(date)
  {
    var listing := DayListing(ms, date);
    forall m | m in listing ensures m in ms && Day(m.date) == Day(date) {
      assert multiset(listing)[m] > 0;
    }
  }

  /** Position `k` of a listing is item `k % 10` of the page that starts at
      `(k / 10 + 1 - 1) * 10`. */
  lemma PagePosition(s: seq<Meetup>, k: nat)
    requires k < |s|
    ensures var page := Window(s, (k / 10 + 1 - 1) * 10, 10);
      k % 10 < |page| && page[k % 10] == s[k]
  {
    var offset := (k / 10 + 1 - 1) * 10;
    assert 0 <= offset && offset + k % 10 == k;
  }

  /** Paging reaches every meetup of the day: the one at position `k` of the
      day's listing is item `k % 10` of page `k / 10 + 1`. */
  lemma {:induction false} IndexPagesCoverDay(ms: seq<Meetup>, date: int, k: nat)
    requires k < |DayListing(ms, date)|
    ensures var r := Index(ms, IndexQuery(Some(date), Some(k / 10 + 1)));
      r.Ok? && k % 10 < |r.value| && r.value[k % 10] == DayListing(ms, date)[k]
  {
    var listing := DayListing(ms, date);
    PagePosition(listing, k);
    assert Index(ms, IndexQuery(Some(date), Some(k / 10 + 1))) == Ok(Window(listing, (k / 10 + 1 - 1) * 10, 10));
  }
}
