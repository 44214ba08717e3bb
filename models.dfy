/** The four tables the controllers read and write (User, File, Meetup,
    Subscription), the mail job queue, and the primary-key lookups that stand
    in for Sequelize's `findByPk` and `findOne`. */
module Models {
  import opened Wrappers

  datatype User = User(id: nat, name: string, email: string)

  /** An uploaded banner image. */
  datatype File = File(id: nat, path: string, url: string)

  /** `userId` is the organiser (column `user_id`); `image` is the banner's File id. */
  datatype Meetup = Meetup(
    id: nat, title: string, description: string, location: string,
    date: int, userId: nat, image: int)

  datatype Subscription = Subscription(id: nat, meetupId: nat, userId: nat)

  /** The payload of one SubscriptionMail job handed to the queue. */
  datatype MailJob = MailJob(
    organizer: nat, meetup: string, description: string, user: string, email: string)

  ghost predicate UniqueUserIds(us: seq<User>) {
    forall i, j :: 0 <= i < j < |us| ==> us[i].id != us[j].id
  }

  ghost predicate UniqueFileIds(fs: seq<File>) {
    forall i, j :: 0 <= i < j < |fs| ==> fs[i].id != fs[j].id
  }

  ghost predicate UniqueMeetupIds(ms: seq<Meetup>) {
    forall i, j :: 0 <= i < j < |ms| ==> ms[i].id != ms[j].id
  }

  ghost predicate UniqueSubscriptionIds(ss: seq<Subscription>) {
    forall i, j :: 0 <= i < j < |ss| ==> ss[i].id != ss[j].id
  }

  /** Position of the first meetup with primary key `id`. */
  function MeetupIndex(ms: seq<Meetup>, id: int): (r: Option<nat>)
    ensures r.Some? ==> r.value < |ms| && ms[r.value].id == id
    ensures r.Some? ==> forall j :: 0 <= j < r.value ==> ms[j].id != id
    ensures r.None? <==> forall j :: 0 <= j < |ms| ==> ms[j].id != id
  {
    if |ms| == 0 then None
    else if ms[0].id == id then Some(0)
    else match MeetupIndex(ms[1..], id)
      case None => None
      case Some(k) => Some(k + 1)
  }

  /** `Meetup.findByPk(id)`. */
  function FindMeetup(ms: seq<Meetup>, id: int): (r: Option<Meetup>)
    ensures r.Some? ==> r.value in ms && r.value.id == id
    ensures r.None? <==> forall m :: m in ms ==> m.id != id
  {
    match MeetupIndex(ms, id)
    case None => None
    case Some(k) => Some(ms[k])
  }

  /** `User.findByPk(id)`. */
  function FindUser(us: seq<User>, id: nat): (r: Option<User>)
    ensures r.Some? ==> r.value in us && r.value.id == id
    ensures r.None? <==> forall u :: u in us ==> u.id != id
  {
    if |us| == 0 then None
    else if us[0].id == id then Some(us[0])
    else FindUser(us[1..], id)
  }

  /** `File.findByPk(id)`. */
  function FindFile(fs: seq<File>, id: int): (r: Option<File>)
    ensures r.Some? ==> r.value in fs && r.value.id == id
    ensures r.None? <==> forall f :: f in fs ==> f.id != id
  {
    if |fs| == 0 then None
    else if fs[0].id == id then Some(fs[0])
    else FindFile(fs[1..], id)
  }

  /** `Subscription.findOne({ where: { meetup_id, user_id } })`. */
  function FindSubscription(ss: seq<Subscription>, meetupId: int, userId: nat): (r: Option<Subscription>)
    ensures r.Some? ==> r.value in ss && r.value.meetupId == meetupId && r.value.userId == userId
    ensures r.None? <==> forall s :: s in ss ==> !(s.meetupId == meetupId && s.userId == userId)
  {
    if |ss| == 0 then None
    else if ss[0].meetupId == meetupId && ss[0].userId == userId then Some(ss[0])
    else FindSubscription(ss[1..], meetupId, userId)
  }

  /** The database and the job queue. Rows are kept in insertion order; the
      two counters are the auto-increment sequences of the Meetup and
      Subscription primary keys. */
  class Db {
    var users: seq<User>
    var files: seq<File>
    var meetups: seq<Meetup>
    var subscriptions: seq<Subscription>
    var jobs: seq<MailJob>
    var nextMeetupId: nat
    var nextSubscriptionId: nat

    /** Primary keys are unique, and every key handed out is below its counter. */
    ghost predicate Valid()
      reads this
    {
      UniqueUserIds(users) && UniqueFileIds(files) &&
      UniqueMeetupIds(meetups) && UniqueSubscriptionIds(subscriptions) &&
      (forall m :: m in meetups ==> m.id < nextMeetupId) &&
      (forall s :: s in subscriptions ==> s.id < nextSubscriptionId)
    }

    /** A database holding the given users and files, with no meetups, no
        subscriptions and an empty queue. */
    constructor (users: seq<User>, files: seq<File>)
      requires UniqueUserIds(users) && UniqueFileIds(files)
      ensures Valid()
      ensures this.users == users && this.files == files
      ensures meetups == [] && subscriptions == [] && jobs == []
      ensures nextMeetupId == 1 && nextSubscriptionId == 1
    {
      this.users := users;
      this.files := files;
      meetups := [];
      subscriptions := [];
      jobs := [];
      nextMeetupId := 1;
      nextSubscriptionId := 1;
    }
  }
}
