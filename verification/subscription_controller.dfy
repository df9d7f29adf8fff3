/** The subscription rules: a user subscribes to someone else's future meetup
    once, never to two meetups at the same instant, and each subscription
    queues one confirmation mail for the organizer. */
module SubscriptionController {
  import opened Common
  import opened Guards
  import opened Entities
  import opened SubscriptionMail
  import MeetupController

  /** `user` already holds a subscription row for `meetup`. */
  predicate Subscribed(db: Db, user: UserId, meetup: MeetupId)
  {
    Subscription(user, meetup) in db.subscriptions
  }

  /** `user` holds a subscription to an existing meetup dated exactly `date`.
      The meetup join is required, so rows whose meetup is gone do not count. */
  predicate Clashes(db: Db, user: UserId, date: int)
  {
    exists i :: 0 <= i < |db.subscriptions| && ClashAt(db, i, user, date)
  }

  /** Subscription row `i` belongs to `user` and its meetup exists and is dated `date`. */
  predicate ClashAt(db: Db, i: int, user: UserId, date: int)
    requires 0 <= i < |db.subscriptions|
  {
    var s := db.subscriptions[i];
    s.user == user && s.meetup in db.meetups && db.meetups[s.meetup].date == date
  }

  /** The guards of `store`, in order: the meetup exists, is not the caller's,
      is not past, is not already subscribed, does not clash, and the caller's
      own user row can be read. */
  function SubscribeChecks(db: Db, caller: UserId, id: MeetupId, now: int): (checks: seq<Check>)
  {
    [ Check(id in db.meetups, MeetupNotFound),
      Check(id !in db.meetups || db.meetups[id].owner != caller, OwnMeetup),
      Check(id !in db.meetups || !Past(db.meetups[id], now), PastMeetup),
      Check(!Subscribed(db, caller, id), AlreadySubscribed),
      Check(id !in db.meetups || !Clashes(db, caller, db.meetups[id].date), TimeClash),
      Check(caller in db.users, SubscriberMissing) ]
  }

  /** `store`: `caller` subscribes to meetup `id`. On success one subscription
      row is added and one confirmation job is queued, carrying the meetup
      joined with its organizer and the subscriber's name and email. */
  function Subscribe(db: Db, caller: UserId, id: MeetupId, now: int): (r: Outcome<Subscription>)
    ensures r.Done? ==>
      && id in db.meetups
      && db.meetups[id].owner != caller
      && !Past(db.meetups[id], now)
      && !Subscribed(db, caller, id)
      && !Clashes(db, caller, db.meetups[id].date)
      && caller in db.users
    ensures r.Done? ==>
      && r.value == Subscription(caller, id)
      && r.db.subscriptions == db.subscriptions + [r.value]
      && |r.db.outbox| == |db.outbox| + 1
      && r.db.outbox[..|db.outbox|] == db.outbox
      && r.db.outbox[|db.outbox|].key == Key
      && r.db.outbox[|db.outbox|].data.meetup == View(db, id)
      && Some(Profile(r.db.outbox[|db.outbox|].data.name, r.db.outbox[|db.outbox|].data.email))
         == Lookup(db.users, caller)
      && r.db.meetups == db.meetups
      && r.db.users == db.users
      && r.db.nextId == db.nextId
  {
    if id !in db.meetups then Refused(MeetupNotFound)
    else
      var meetup := db.meetups[id];
      if meetup.owner == caller then Refused(OwnMeetup)
      else if Past(meetup, now) then Refused(PastMeetup)
      else if Subscribed(db, caller, id) then Refused(AlreadySubscribed)
      else if Clashes(db, caller, meetup.date) then Refused(TimeClash)
      else if caller !in db.users then Refused(SubscriberMissing)
      else
        var subscriber := db.users[caller];
        var s := Subscription(caller, id);
        var job := NewJob(View(db, id), subscriber.name, subscriber.email);
        Done(db.(subscriptions := db.subscriptions + [s], outbox := db.outbox + [job]), s)
  }

  /** `store` answers with the error of the first failing guard of its chain. */
  lemma SubscribeFollowsChecks(db: Db, caller: UserId, id: MeetupId, now: int)
    ensures ErrorOf(Subscribe(db, caller, id, now)) == FirstFailure(SubscribeChecks(db, caller, id, now))
  {
    var c := SubscribeChecks(db, caller, id, now);
    assert c[1..] == [c[1], c[2], c[3], c[4], c[5]];
    assert c[1..][1..] == [c[2], c[3], c[4], c[5]];
    assert c[1..][1..][1..] == [c[3], c[4], c[5]];
    assert c[1..][1..][1..][1..] == [c[4], c[5]];
    assert c[1..][1..][1..][1..][1..] == [c[5]];
  }

  /** Each refusal of `store`, with the exact condition that produces it: its
      own guard fails and every earlier guard passes. */
  lemma SubscribeRefusals(db: Db, caller: UserId, id: MeetupId, now: int)
    ensures var r := Subscribe(db, caller, id, now);
      var found := id in db.meetups;
      var others := found && db.meetups[id].owner != caller;
      var future := others && !Past(db.meetups[id], now);
      var newPair := future && !Subscribed(db, caller, id);
      var free := newPair && !Clashes(db, caller, db.meetups[id].date);
      && (r == Refused(MeetupNotFound) <==> !found)
      && (r == Refused(OwnMeetup) <==> found && !others)
      && (r == Refused(PastMeetup) <==> others && !future)
      && (r == Refused(AlreadySubscribed) <==> future && !newPair)
      && (r == Refused(TimeClash) <==> newPair && !free)
      && (r == Refused(SubscriberMissing) <==> free && caller !in db.users)
      && (r.Done? <==> free && caller in db.users)
  {
    var c := SubscribeChecks(db, caller, id, now);
    SubscribeFollowsChecks(db, caller, id, now);
    if FirstFailure(c).Some? {
      var i :| FailsFirstAt(c, i) && c[i].error == FirstFailure(c).value;
    }
  }

  /** Refusals are answered with 400 for a missing meetup and a time clash,
      with 401 for one's own, a past or an already subscribed meetup. */
  lemma SubscribeStatus(db: Db, caller: UserId, id: MeetupId, now: int)
    ensures var r := Subscribe(db, caller, id, now);
      r.Refused? ==>
        && (Status(r.error) == 400 <==> r.error in {MeetupNotFound, TimeClash})
        && (Status(r.error) == 401 <==> r.error in {OwnMeetup, PastMeetup, AlreadySubscribed})
  {
  }

  /** Subscribing twice to the same meetup: the second request is refused as
      already subscribed, as long as the meetup is still in the future. */
  lemma SubscribeTwiceRefused(db: Db, caller: UserId, id: MeetupId, now: int, later: int)
    requires Subscribe(db, caller, id, now).Done?
    requires !Past(db.meetups[id], later)
    ensures var db' := Subscribe(db, caller, id, now).db;
      Subscribe(db', caller, id, later) == Refused(AlreadySubscribed)
  {
    var db' := Subscribe(db, caller, id, now).db;
    assert db'.subscriptions[|db.subscriptions|] == Subscription(caller, id);
  }

  /** After subscribing to one meetup, subscribing to a different meetup at the
      same instant is refused as a time clash. */
  lemma SameInstantRefused(db: Db, caller: UserId, id: MeetupId, other: MeetupId, now: int, later: int)
    requires Subscribe(db, caller, id, now).Done?
    requires other in db.meetups && other != id
    requires db.meetups[other].date == db.meetups[id].date
    requires db.meetups[other].owner != caller && !Past(db.meetups[other], later)
    requires !Subscribed(db, caller, other)
    ensures var db' := Subscribe(db, caller, id, now).db;
      Subscribe(db', caller, other, later) == Refused(TimeClash)
  {
    var db' := Subscribe(db, caller, id, now).db;
    var i := |db.subscriptions|;
    assert db'.subscriptions[i] == Subscription(caller, id);
    assert ClashAt(db', i, caller, db'.meetups[other].date);
  }

  /** The queued mail goes to the meetup's organizer, who is not the subscriber. */
  lemma MailGoesToOrganizer(db: Db, caller: UserId, id: MeetupId, now: int)
    requires Subscribe(db, caller, id, now).Done?
    ensures var r := Subscribe(db, caller, id, now);
      var job := r.db.outbox[|db.outbox|];
      && Recipient(job) == Lookup(db.users, db.meetups[id].owner)
      && db.meetups[id].owner != caller
  {
  }

  /** A subscription changes no meetup and no user, so every listing page is
      the same before and after it. */
  lemma SubscribeKeepsListing(db: Db, caller: UserId, id: MeetupId, now: int,
                              scan: seq<MeetupId>, lo: int, hi: int, page: Option<int>)
    requires Subscribe(db, caller, id, now).Done?
    ensures var db' := Subscribe(db, caller, id, now).db;
      MeetupController.Index(db', scan, lo, hi, page) == MeetupController.Index(db, scan, lo, hi, page)
  {
    var db' := Subscribe(db, caller, id, now).db;
    assert MeetupController.DayMatches(db', scan, lo, hi) == MeetupController.DayMatches(db, scan, lo, hi) by {
      DayMatchesReadsOnlyMeetups(db, db', scan, lo, hi);
    }
    var before := MeetupController.Index(db, scan, lo, hi, page);
    var after := MeetupController.Index(db', scan, lo, hi, page);
    if before.Ok? {
      assert after.value == before.value;
    }
  }

  /** The day's matches depend on the meetup table alone. */
  lemma {:induction false} DayMatchesReadsOnlyMeetups(db: Db, db': Db, scan: seq<MeetupId>, lo: int, hi: int)
    requires db'.meetups == db.meetups
    ensures MeetupController.DayMatches(db', scan, lo, hi) == MeetupController.DayMatches(db, scan, lo, hi)
  {
    if |scan| > 0 {
      DayMatchesReadsOnlyMeetups(db, db', scan[1..], lo, hi);
    }
  }
}
