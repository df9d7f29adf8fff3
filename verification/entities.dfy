/** The records the controllers read and write, and the state of the data
    store and the job queue between two requests. */
module Entities {
  import opened Common

  type UserId = nat
  type MeetupId = nat

  /** The public part of a user row: what a join on the user returns. */
  datatype Profile = Profile(name: string, email: string)

  /** A meetup row. `owner` is the `user_id` of the organizer and `banner` the
      `banner_id` of the banner file. */
  datatype Meetup = Meetup(
    id: MeetupId,
    title: string,
    description: string,
    location: string,
    date: int,
    banner: int,
    owner: UserId)

  /** The model's virtual `past` attribute: the date is strictly before now. */
  predicate Past(m: Meetup, now: int)
  {
    m.date < now
  }

  /** A request body for creating or updating a meetup; an omitted field is `None`. */
  datatype Payload = Payload(
    title: Option<string>,
    description: Option<string>,
    location: Option<string>,
    date: Option<int>,
    banner: Option<int>)

  /** A meetup joined with its organizer's name and email; the organizer is
      `None` when the user row is gone (the join is not required). */
  datatype MeetupView = MeetupView(meetup: Meetup, organizer: Option<Profile>)

  /** A subscription row: `user` attends `meetup`. */
  datatype Subscription = Subscription(user: UserId, meetup: MeetupId)

  /** What a queued confirmation job carries: the meetup joined with its
      organizer, and the subscriber's name and email. */
  datatype MailData = MailData(meetup: MeetupView, name: string, email: string)

  /** A job handed to the queue under the key of its handler. */
  datatype Job = Job(key: string, data: MailData)

  /** The store: user rows (only read here), meetup rows by primary key, the
      next primary key the meetup table hands out, subscription rows in
      insertion order, and the jobs enqueued so far. */
  datatype Db = Db(
    users: map<UserId, Profile>,
    meetups: map<MeetupId, Meetup>,
    nextId: MeetupId,
    subscriptions: seq<Subscription>,
    outbox: seq<Job>)

  /** The answer of a writing operation: the new store and the response value,
      or an error. A refusal carries no store: the old one is kept as it was. */
  datatype Outcome<+T> = Done(db: Db, value: T) | Refused(error: ErrorKind)

  /** The error an outcome answers with, if any. */
  function ErrorOf<T>(r: Outcome<T>): (e: Option<ErrorKind>)
  {
    if r.Done? then None else Some(r.error)
  }

  /** The store after an operation: the new one on success, the old one on refusal. */
  function After<T>(db: Db, r: Outcome<T>): (db': Db)
  {
    if r.Done? then r.db else db
  }

  /** Meetup `id` joined with its organizer. */
  function View(db: Db, id: MeetupId): (v: MeetupView)
    requires id in db.meetups
  {
    MeetupView(db.meetups[id], Lookup(db.users, db.meetups[id].owner))
  }
}
