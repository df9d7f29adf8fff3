/** Invariants of the store that the controllers' guards maintain, checked
    operation by operation and over any sequence of requests. */
module Invariants {
  import opened Common
  import opened Entities
  import opened SubscriptionMail
  import opened MeetupController
  import opened SubscriptionController

  /** Every meetup row is stored under its own key, below the next key the table hands out. */
  predicate KeysBelowNext(db: Db)
  {
    forall k :: k in db.meetups ==> k < db.nextId && db.meetups[k].id == k
  }

  /** Subscriptions only name meetups that were created at some point. */
  predicate SubscriptionsBelowNext(db: Db)
  {
    forall i :: 0 <= i < |db.subscriptions| ==> db.subscriptions[i].meetup < db.nextId
  }

  /** At most one subscription row per (user, meetup) pair. */
  predicate UniquePairs(db: Db)
  {
    forall i, j :: 0 <= i < j < |db.subscriptions| ==> db.subscriptions[i] != db.subscriptions[j]
  }

  /** Nobody is subscribed to a meetup they organize. */
  predicate NoSelfSubscription(db: Db)
  {
    forall i :: 0 <= i < |db.subscriptions| && db.subscriptions[i].meetup in db.meetups ==>
      db.meetups[db.subscriptions[i].meetup].owner != db.subscriptions[i].user
  }

  /** Job `i` of the queue confirms subscription `i`. */
  predicate MirrorAt(db: Db, i: int)
    requires 0 <= i < |db.subscriptions| && 0 <= i < |db.outbox|
  {
    var job := db.outbox[i];
    var s := db.subscriptions[i];
    && job.key == Key
    && job.data.meetup.meetup.id == s.meetup
    && Lookup(db.users, s.user) == Some(Profile(job.data.name, job.data.email))
  }

  /** Exactly one confirmation job was queued per subscription, in the same order. */
  predicate JobsMirrorSubscriptions(db: Db)
  {
    && |db.outbox| == |db.subscriptions|
    && forall i :: 0 <= i < |db.subscriptions| ==> MirrorAt(db, i)
  }

  /** The invariants every operation preserves. */
  predicate Valid(db: Db)
  {
    && KeysBelowNext(db)
    && SubscriptionsBelowNext(db)
    && UniquePairs(db)
    && NoSelfSubscription(db)
    && JobsMirrorSubscriptions(db)
  }

  /** No user holds two subscriptions to existing meetups at the same instant. */
  predicate NoClash(db: Db)
  {
    forall i, j :: 0 <= i < j < |db.subscriptions| && SameUserExisting(db, i, j) ==>
      db.meetups[db.subscriptions[i].meetup].date != db.meetups[db.subscriptions[j].meetup].date
  }

  /** Rows `i` and `j` belong to the same user and both their meetups exist. */
  predicate SameUserExisting(db: Db, i: int, j: int)
    requires 0 <= i < |db.subscriptions| && 0 <= j < |db.subscriptions|
  {
    && db.subscriptions[i].user == db.subscriptions[j].user
    && db.subscriptions[i].meetup in db.meetups
    && db.subscriptions[j].meetup in db.meetups
  }

  /** An empty store satisfies every invariant. */
  lemma EmptyStoreValid(users: map<UserId, Profile>)
    ensures Valid(Db(users, map[], 0, [], []))
    ensures NoClash(Db(users, map[], 0, [], []))
  {
  }

  // ---------------------------------------------------------------- per operation

  /** Creating a meetup keeps every invariant: its key is new, so no
      subscription refers to it. */
  lemma StorePreserves(db: Db, caller: UserId, p: Payload, now: int)
    requires Valid(db)
    ensures var db' := After(db, Store(db, caller, p, now));
      Valid(db') && (NoClash(db) ==> NoClash(db'))
  {
    var r := Store(db, caller, p, now);
    if r.Done? {
      var db' := r.db;
      assert forall i :: 0 <= i < |db.subscriptions| ==> db.subscriptions[i].meetup != r.value.id;
      assert forall i :: 0 <= i < |db'.subscriptions| && db'.subscriptions[i].meetup in db'.meetups ==>
        db'.meetups[db'.subscriptions[i].meetup] == db.meetups[db.subscriptions[i].meetup];
      assert forall i :: 0 <= i < |db'.subscriptions| ==> MirrorAt(db, i) && MirrorAt(db', i);
    }
  }

  /** Updating a meetup keeps its key and owner, so the invariants hold after
      it; the clash invariant survives only when the date is left alone. */
  lemma UpdatePreserves(db: Db, caller: UserId, id: MeetupId, p: Payload, now: int)
    requires Valid(db)
    ensures var db' := After(db, Update(db, caller, id, p, now));
      Valid(db') && (NoClash(db) && p.date.None? ==> NoClash(db'))
  {
    var r := Update(db, caller, id, p, now);
    if r.Done? {
      var db' := r.db;
      assert forall k :: k in db'.meetups ==> db'.meetups[k].owner == db.meetups[k].owner;
      assert forall k :: k in db'.meetups && p.date.None? ==> db'.meetups[k].date == db.meetups[k].date;
      assert forall i :: 0 <= i < |db'.subscriptions| ==> MirrorAt(db, i) && MirrorAt(db', i);
    }
  }

  /** Rescheduling a meetup is not checked against its subscribers' other
      meetups, so an update can create a time clash that `store` for
      subscriptions would have refused. */
  lemma UpdateCanCreateClash()
    ensures var a := Meetup(1, "a", "a", "a", 10 * Clock.HOUR, 0, 7);
      var b := Meetup(2, "b", "b", "b", 20 * Clock.HOUR, 0, 7);
      var db := Db(map[8 := Profile("n", "e")], map[1 := a, 2 := b], 3,
                   [Subscription(8, 1), Subscription(8, 2)],
                   [NewJob(MeetupView(a, None), "n", "e"), NewJob(MeetupView(b, None), "n", "e")]);
      var r := Update(db, 7, 2, Payload(None, None, None, Some(10 * Clock.HOUR), None), Clock.HOUR);
      && Valid(db) && NoClash(db)
      && r.Done? && Valid(r.db) && !NoClash(r.db)
  {
    var a := Meetup(1, "a", "a", "a", 10 * Clock.HOUR, 0, 7);
    var b := Meetup(2, "b", "b", "b", 20 * Clock.HOUR, 0, 7);
    var db := Db(map[8 := Profile("n", "e")], map[1 := a, 2 := b], 3,
                 [Subscription(8, 1), Subscription(8, 2)],
                 [NewJob(MeetupView(a, None), "n", "e"), NewJob(MeetupView(b, None), "n", "e")]);
    var r := Update(db, 7, 2, Payload(None, None, None, Some(10 * Clock.HOUR), None), Clock.HOUR);
    assert MirrorAt(db, 0) && MirrorAt(db, 1);
    UpdatePreserves(db, 7, 2, Payload(None, None, None, Some(10 * Clock.HOUR), None), Clock.HOUR);
    assert SameUserExisting(r.db, 0, 1);
  }

  /** Deleting a meetup keeps every invariant; its subscriptions stay behind
      but no longer take part in clashes. */
  lemma DeletePreserves(db: Db, caller: UserId, id: MeetupId, now: int)
    requires Valid(db)
    ensures var db' := After(db, Delete(db, caller, id, now));
      Valid(db') && (NoClash(db) ==> NoClash(db'))
  {
    var r := Delete(db, caller, id, now);
    if r.Done? {
      var db' := r.db;
      assert forall i :: 0 <= i < |db'.subscriptions| ==> MirrorAt(db, i) && MirrorAt(db', i);
      if NoClash(db) {
        forall i, j | 0 <= i < j < |db'.subscriptions| && SameUserExisting(db', i, j)
          ensures db'.meetups[db'.subscriptions[i].meetup].date != db'.meetups[db'.subscriptions[j].meetup].date
        {
          assert SameUserExisting(db, i, j);
        }
      }
    }
  }

  /** Subscribing keeps every invariant: the duplicate, own-meetup and clash
      guards refuse exactly the rows that would break them. */
  lemma SubscribePreserves(db: Db, caller: UserId, id: MeetupId, now: int)
    requires Valid(db)
    ensures var db' := After(db, Subscribe(db, caller, id, now));
      Valid(db') && (NoClash(db) ==> NoClash(db'))
  {
    var r := Subscribe(db, caller, id, now);
    if r.Done? {
      var db' := r.db;
      var n := |db.subscriptions|;
      assert db'.subscriptions[n] == Subscription(caller, id);
      assert forall i :: 0 <= i < n ==> db'.subscriptions[i] == db.subscriptions[i];
      assert forall i :: 0 <= i < n ==> db'.outbox[i] == db.outbox[i];
      assert forall i :: 0 <= i < n ==> MirrorAt(db, i) && MirrorAt(db', i);
      assert MirrorAt(db', n);
      assert UniquePairs(db') by {
        forall i, j | 0 <= i < j < |db'.subscriptions|
          ensures db'.subscriptions[i] != db'.subscriptions[j]
        {
          if j == n {
            assert db.subscriptions[i] in db.subscriptions;
          }
        }
      }
      if NoClash(db) {
        forall i, j | 0 <= i < j < |db'.subscriptions| && SameUserExisting(db', i, j)
          ensures db'.meetups[db'.subscriptions[i].meetup].date != db'.meetups[db'.subscriptions[j].meetup].date
        {
          if j == n {
            assert !ClashAt(db, i, caller, db.meetups[id].date);
          } else {
            assert SameUserExisting(db, i, j);
          }
        }
      }
    }
  }

  // ---------------------------------------------------------------- request sequences

  /** The writing requests of the two controllers. */
  datatype Request =
    | CreateMeetup(caller: UserId, payload: Payload, now: int)
    | UpdateMeetup(caller: UserId, id: MeetupId, payload: Payload, now: int)
    | DeleteMeetup(caller: UserId, id: MeetupId, now: int)
    | SubscribeTo(caller: UserId, id: MeetupId, now: int)

  /** The store after one request, refused or not. */
  function Step(db: Db, req: Request): (db': Db)
  {
    match req
    case CreateMeetup(caller, p, now) => After(db, Store(db, caller, p, now))
    case UpdateMeetup(caller, id, p, now) => After(db, Update(db, caller, id, p, now))
    case DeleteMeetup(caller, id, now) => After(db, Delete(db, caller, id, now))
    case SubscribeTo(caller, id, now) => After(db, Subscribe(db, caller, id, now))
  }

  /** The store after a sequence of requests, handled one at a time. */
  function Run(db: Db, reqs: seq<Request>): (db': Db)
    decreases |reqs|
  {
    if |reqs| == 0 then db else Run(Step(db, reqs[0]), reqs[1..])
  }

  /** A request that may move a meetup to another instant. */
  predicate Reschedules(req: Request)
  {
    req.UpdateMeetup? && req.payload.date.Some?
  }

  /** One request, refused or not, keeps the store valid. */
  lemma StepPreserves(db: Db, req: Request)
    requires Valid(db)
    ensures Valid(Step(db, req))
    ensures NoClash(db) && !Reschedules(req) ==> NoClash(Step(db, req))
  {
    match req
    case CreateMeetup(caller, p, now) => StorePreserves(db, caller, p, now);
    case UpdateMeetup(caller, id, p, now) => UpdatePreserves(db, caller, id, p, now);
    case DeleteMeetup(caller, id, now) => DeletePreserves(db, caller, id, now);
    case SubscribeTo(caller, id, now) => SubscribePreserves(db, caller, id, now);
  }

  /** Every sequence of requests keeps the store valid; one that reschedules
      no meetup also keeps it free of time clashes. */
  lemma {:induction false} RunPreserves(db: Db, reqs: seq<Request>)
    requires Valid(db)
    ensures Valid(Run(db, reqs))
    ensures NoClash(db) && (forall k :: 0 <= k < |reqs| ==> !Reschedules(reqs[k])) ==> NoClash(Run(db, reqs))
    decreases |reqs|
  {
    if |reqs| > 0 {
      StepPreserves(db, reqs[0]);
      assert forall k :: 0 <= k < |reqs| - 1 ==> reqs[1..][k] == reqs[k + 1];
      RunPreserves(Step(db, reqs[0]), reqs[1..]);
    }
  }
}
