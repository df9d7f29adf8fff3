/** The meetup rules: listing the meetups of a day one page at a time, and
    creating, updating and deleting a meetup. Every write runs a fixed chain of
    guards and either answers with the first failing guard's error, leaving the
    store as it was, or performs exactly one mutation. */
module MeetupController {
  import opened Common
  import opened Clock
  import opened Guards
  import opened Entities

  /** The listing's fixed page size. */
  const PageSize: int := 10

  predicate Distinct<T(==)>(s: seq<T>)
  {
    forall i, j :: 0 <= i < j < |s| ==> s[i] != s[j]
  }

  // ---------------------------------------------------------------- index

  /** Meetup `id` exists and its date lies in the closed window `[lo, hi]`. */
  predicate InWindow(db: Db, id: MeetupId, lo: int, hi: int)
  {
    id in db.meetups && lo <= db.meetups[id].date <= hi
  }

  /** The rows the query's `where` clause keeps, in the order the database
      visits the table (`scan`). */
  function DayMatches(db: Db, scan: seq<MeetupId>, lo: int, hi: int): (ids: seq<MeetupId>)
    ensures forall k :: 0 <= k < |ids| ==> InWindow(db, ids[k], lo, hi)
    ensures forall x :: x in ids <==> x in scan && InWindow(db, x, lo, hi)
    ensures Distinct(scan) ==> Distinct(ids)
  {
    if |scan| == 0 then []
    else
      var rest := DayMatches(db, scan[1..], lo, hi);
      assert forall x :: x in scan <==> x == scan[0] || x in scan[1..];
      if InWindow(db, scan[0], lo, hi) then
        assert Distinct(scan) ==> scan[0] !in scan[1..];
        [scan[0]] + rest
      else
        rest
  }

  /** Keys in strictly increasing order. */
  predicate Ascending(s: seq<MeetupId>)
  {
    forall i, j :: 0 <= i < j < |s| ==> s[i] < s[j]
  }

  /** The matches of a scan in ascending key order are in ascending key order. */
  lemma {:induction false} DayMatchesAscending(db: Db, scan: seq<MeetupId>, lo: int, hi: int)
    requires Ascending(scan)
    ensures Ascending(DayMatches(db, scan, lo, hi))
  {
    if |scan| > 0 {
      DayMatchesAscending(db, scan[1..], lo, hi);
      var rest := DayMatches(db, scan[1..], lo, hi);
      assert forall k :: 0 <= k < |rest| ==> rest[k] in scan[1..];
    }
  }

  /** Filtering keeps the scan's order: the matches of a scan read in two
      parts are the matches of the first part followed by those of the second. */
  lemma {:induction false} DayMatchesAppend(db: Db, s1: seq<MeetupId>, s2: seq<MeetupId>, lo: int, hi: int)
    ensures DayMatches(db, s1 + s2, lo, hi) == DayMatches(db, s1, lo, hi) + DayMatches(db, s2, lo, hi)
  {
    if |s1| == 0 {
      assert s1 + s2 == s2;
    } else {
      assert (s1 + s2)[1..] == s1[1..] + s2;
      DayMatchesAppend(db, s1[1..], s2, lo, hi);
    }
  }

  /** A scan of rows that all lie in the window is kept whole, in its order. */
  lemma {:induction false} DayMatchesKeepsAll(db: Db, scan: seq<MeetupId>, lo: int, hi: int)
    requires forall k :: 0 <= k < |scan| ==> InWindow(db, scan[k], lo, hi)
    ensures DayMatches(db, scan, lo, hi) == scan
  {
    if |scan| > 0 {
      DayMatchesKeepsAll(db, scan[1..], lo, hi);
    }
  }

  /** `req.query.page || 1`: an absent or empty page parameter means page 1.
      Query values are strings, so an explicit "0" is kept. */
  function ResolvedPage(page: Option<int>): (p: int)
  {
    if page.None? then 1 else page.value
  }

  /** The query's OFFSET, `(page - 1) * 10`. */
  function Offset(page: Option<int>): (skip: int)
  {
    (ResolvedPage(page) - 1) * PageSize
  }

  /** `index`: the meetups whose date lies in `[lo, hi]` (the start and end of
      the requested day), skipping the earlier pages, at most one page of them,
      each joined with its organizer. The query has no `order` clause, so each
      request may see the rows in a different `scan` order; see
      `UnorderedPagesOverlapAndMiss` and `IndexByKey`. */
  function Index(db: Db, scan: seq<MeetupId>, lo: int, hi: int, page: Option<int>): (r: Result<seq<MeetupView>>)
    ensures r.Err? <==> ResolvedPage(page) < 1
    ensures r.Err? ==> r.error == QueryRejected
    ensures r.Ok? ==> |r.value| <= PageSize
    ensures r.Ok? ==> forall k :: 0 <= k < |r.value| ==>
      lo <= r.value[k].meetup.date <= hi && r.value[k].meetup in db.meetups.Values
    ensures r.Ok? ==>
      var ids := DayMatches(db, scan, lo, hi);
      var skip := Offset(page);
      && |r.value| == (if |ids| <= skip then 0 else Min(PageSize, |ids| - skip))
      && forall k :: 0 <= k < |r.value| ==> r.value[k] == View(db, ids[skip + k])
  {
    var skip := Offset(page);
    if skip < 0 then Err(QueryRejected)
    else
      var ids := DayMatches(db, scan, lo, hi);
      var onPage := if |ids| <= skip then [] else ids[skip .. Min(skip + PageSize, |ids|)];
      Ok(seq(|onPage|, k requires 0 <= k < |onPage| => View(db, onPage[k])))
  }

  /** Meetup `id` is listed on page `p` when the request sees the rows in `scan` order. */
  predicate ListedOn(db: Db, scan: seq<MeetupId>, lo: int, hi: int, p: int, id: MeetupId)
    requires id in db.meetups
  {
    var r := Index(db, scan, lo, hi, Some(p));
    r.Ok? && View(db, id) in r.value
  }

  /** Match number `i` of the day is listed on page `i / 10 + 1`, at position `i % 10`. */
  lemma MatchListedOnItsPage(db: Db, scan: seq<MeetupId>, lo: int, hi: int, i: int)
    requires 0 <= i < |DayMatches(db, scan, lo, hi)|
    ensures var r := Index(db, scan, lo, hi, Some(i / PageSize + 1));
      && r.Ok?
      && i % PageSize < |r.value|
      && r.value[i % PageSize] == View(db, DayMatches(db, scan, lo, hi)[i])
  {
    var skip := Offset(Some(i / PageSize + 1));
    assert skip == i / PageSize * PageSize;
    assert skip + i % PageSize == i;
  }

  /** Every meetup of the day is listed on some page, provided every page
      request sees the rows in the same `scan` order and the scan visits the
      meetup. The query as written promises no such order. */
  lemma SameScanEveryMeetupListed(db: Db, scan: seq<MeetupId>, lo: int, hi: int, id: MeetupId)
    requires id in scan && InWindow(db, id, lo, hi)
    ensures exists p :: p >= 1 && ListedOn(db, scan, lo, hi, p, id)
  {
    var ids := DayMatches(db, scan, lo, hi);
    var i :| 0 <= i < |ids| && ids[i] == id;
    MatchListedOnItsPage(db, scan, lo, hi, i);
    assert ListedOn(db, scan, lo, hi, i / PageSize + 1, id);
  }

  /** Two different pages never list the same meetup, provided both requests
      see the rows in the same `scan` order, the scan visits each row once and
      rows carry their own key. The query as written promises no such order. */
  lemma SameScanPagesDisjoint(db: Db, scan: seq<MeetupId>, lo: int, hi: int, p: int, q: int)
    requires Distinct(scan) && p != q
    requires forall k :: k in db.meetups ==> db.meetups[k].id == k
    ensures var r1 := Index(db, scan, lo, hi, Some(p));
      var r2 := Index(db, scan, lo, hi, Some(q));
      r1.Ok? && r2.Ok? ==>
        forall a, b :: 0 <= a < |r1.value| && 0 <= b < |r2.value| ==>
          r1.value[a].meetup.id != r2.value[b].meetup.id
  {
    var r1 := Index(db, scan, lo, hi, Some(p));
    var r2 := Index(db, scan, lo, hi, Some(q));
    if r1.Ok? && r2.Ok? {
      var ids := DayMatches(db, scan, lo, hi);
      forall a, b | 0 <= a < |r1.value| && 0 <= b < |r2.value|
        ensures r1.value[a].meetup.id != r2.value[b].meetup.id
      {
        var i, j := Offset(Some(p)) + a, Offset(Some(q)) + b;
        assert r1.value[a].meetup.id == ids[i];
        assert r2.value[b].meetup.id == ids[j];
        assert i != j;
      }
    }
  }

  /** A store holding meetups `0` to `n - 1`, all dated `0`. */
  function OneDayStore(n: nat): (db: Db)
    ensures forall k: MeetupId :: k in db.meetups <==> k < n
    ensures forall k :: k in db.meetups ==> db.meetups[k].id == k && InWindow(db, k, 0, 0)
  {
    Db(map[], map i: MeetupId | i < n :: Meetup(i, "t", "d", "l", 0, 0, 1), n, [], [])
  }

  /** Keys `n - 1` down to `0`. */
  function Reversed(n: nat): (s: seq<MeetupId>)
    ensures |s| == n && forall i :: 0 <= i < n ==> s[i] == n - 1 - i
  {
    seq(n, i requires 0 <= i < n => (n - 1 - i) as MeetupId)
  }

  /** Without an `order` clause, page 1 and page 2 are separate queries that
      may see the rows in different orders. With `n` meetups on one day, for
      any `n` from 11 to 20, ascending order for page 1 and descending for
      page 2, meetup 0 is listed on both pages and meetup `n - 1`, which is of
      that day, on neither. */
  lemma UnorderedPagesOverlapAndMiss(n: nat)
    requires PageSize < n <= 2 * PageSize
    ensures var db := OneDayStore(n);
      var page1 := Index(db, KeyOrder(n), 0, 0, Some(1));
      var page2 := Index(db, Reversed(n), 0, 0, Some(2));
      && page1.Ok? && page2.Ok?
      && |page1.value| > 0 && |page2.value| > 0
      && page1.value[0].meetup.id == 0 && page2.value[|page2.value| - 1].meetup.id == 0
      && InWindow(db, n - 1, 0, 0)
      && (forall k :: 0 <= k < |page1.value| ==> page1.value[k].meetup.id != n - 1)
      && (forall k :: 0 <= k < |page2.value| ==> page2.value[k].meetup.id != n - 1)
  {
    AscendingFirstPage(n);
    DescendingSecondPage(n);
  }

  /** When every scanned row lies in the window, page `p` is the slice of
      the scan after the first `(p - 1) * 10` rows. */
  lemma PageOfWholeScan(db: Db, scan: seq<MeetupId>, lo: int, hi: int, p: int)
    requires forall k :: 0 <= k < |scan| ==> InWindow(db, scan[k], lo, hi)
    requires forall k :: k in db.meetups ==> db.meetups[k].id == k
    requires p >= 1
    ensures var page := Index(db, scan, lo, hi, Some(p));
      var skip := (p - 1) * PageSize;
      && page.Ok?
      && |page.value| == (if |scan| <= skip then 0 else Min(PageSize, |scan| - skip))
      && forall k :: 0 <= k < |page.value| ==> page.value[k].meetup.id == scan[skip + k]
  {
    DayMatchesKeepsAll(db, scan, lo, hi);
  }

  /** In ascending order, page 1 lists meetups 0 to 9. */
  lemma AscendingFirstPage(n: nat)
    requires PageSize < n
    ensures var page := Index(OneDayStore(n), KeyOrder(n), 0, 0, Some(1));
      page.Ok? && |page.value| == PageSize
      && forall k :: 0 <= k < |page.value| ==> page.value[k].meetup.id == k
  {
    PageOfWholeScan(OneDayStore(n), KeyOrder(n), 0, 0, 1);
  }

  /** In descending order, page 2 lists meetups `n - 11` down to 0. */
  lemma DescendingSecondPage(n: nat)
    requires PageSize < n <= 2 * PageSize
    ensures var page := Index(OneDayStore(n), Reversed(n), 0, 0, Some(2));
      page.Ok? && |page.value| == n - PageSize
      && forall k :: 0 <= k < |page.value| ==> page.value[k].meetup.id == n - 1 - PageSize - k
  {
    PageOfWholeScan(OneDayStore(n), Reversed(n), 0, 0, 2);
  }

  /** Every key the table has handed out, in ascending order. */
  function KeyOrder(n: nat): (s: seq<MeetupId>)
    ensures |s| == n && Ascending(s) && Distinct(s)
    ensures forall i :: 0 <= i < n ==> s[i] == i
    ensures forall x: MeetupId :: x in s <==> x < n
  {
    var s := seq(n, i requires 0 <= i < n => i as MeetupId);
    forall x: MeetupId | x < n ensures x in s {
      assert s[x] == x;
    }
    s
  }

  /** `index` with `order: [['id', 'ASC']]` added to the query: every page
      request sees the rows in ascending key order, so a page lists its
      meetups in ascending key order. */
  function IndexByKey(db: Db, lo: int, hi: int, page: Option<int>): (r: Result<seq<MeetupView>>)
    requires forall k :: k in db.meetups ==> db.meetups[k].id == k
    ensures r.Err? <==> ResolvedPage(page) < 1
    ensures r.Ok? ==> |r.value| <= PageSize
    ensures r.Ok? ==> forall a, b :: 0 <= a < b < |r.value| ==> r.value[a].meetup.id < r.value[b].meetup.id
  {
    DayMatchesAscending(db, KeyOrder(db.nextId), lo, hi);
    Index(db, KeyOrder(db.nextId), lo, hi, page)
  }

  /** With the key order, two different pages never list the same meetup. */
  lemma KeyOrderPagesDisjoint(db: Db, lo: int, hi: int, p: int, q: int)
    requires forall k :: k in db.meetups ==> db.meetups[k].id == k
    requires p != q
    ensures var r1 := IndexByKey(db, lo, hi, Some(p));
      var r2 := IndexByKey(db, lo, hi, Some(q));
      r1.Ok? && r2.Ok? ==>
        forall a, b :: 0 <= a < |r1.value| && 0 <= b < |r2.value| ==>
          r1.value[a].meetup.id != r2.value[b].meetup.id
  {
    SameScanPagesDisjoint(db, KeyOrder(db.nextId), lo, hi, p, q);
  }

  /** With the key order, every meetup of the day whose key is below the next
      key the table hands out (every meetup, in a valid store) is listed on
      some page. */
  lemma KeyOrderEveryMeetupListed(db: Db, lo: int, hi: int, id: MeetupId)
    requires forall k :: k in db.meetups ==> db.meetups[k].id == k
    requires InWindow(db, id, lo, hi) && id < db.nextId
    ensures exists p :: p >= 1 && ListedByKeyOn(db, lo, hi, p, id)
  {
    SameScanEveryMeetupListed(db, KeyOrder(db.nextId), lo, hi, id);
    var p :| p >= 1 && ListedOn(db, KeyOrder(db.nextId), lo, hi, p, id);
    assert ListedByKeyOn(db, lo, hi, p, id);
  }

  /** Meetup `id` is listed on page `p` of the key-ordered listing. */
  predicate ListedByKeyOn(db: Db, lo: int, hi: int, p: int, id: MeetupId)
    requires forall k :: k in db.meetups ==> db.meetups[k].id == k
    requires id in db.meetups
  {
    var r := IndexByKey(db, lo, hi, Some(p));
    r.Ok? && View(db, id) in r.value
  }

  // ---------------------------------------------------------------- store

  /** Every field the creation schema requires is present. */
  predicate Complete(p: Payload)
  {
    p.title.Some? && p.description.Some? && p.location.Some? && p.date.Some? && p.banner.Some?
  }

  /** Every field of the payload is present and equal to the meetup's. */
  predicate Carries(m: Meetup, p: Payload)
  {
    && p.title == Some(m.title)
    && p.description == Some(m.description)
    && p.location == Some(m.location)
    && p.date == Some(m.date)
    && p.banner == Some(m.banner)
  }

  /** The guards of `store`, in order. */
  function StoreChecks(p: Payload, now: int): (checks: seq<Check>)
  {
    [ Check(Complete(p), ValidationFails),
      Check(!Complete(p) || DateAccepted(p.date.value, now), DateInvalid) ]
  }

  /** `store`: create a meetup owned by `caller` from a complete payload whose
      date is accepted; the row gets the next primary key. */
  function Store(db: Db, caller: UserId, p: Payload, now: int): (r: Outcome<Meetup>)
    ensures r.Done? <==> Complete(p) && DateAccepted(p.date.value, now)
    ensures r.Done? ==>
      && r.value.owner == caller
      && Carries(r.value, p)
      && !Past(r.value, now)
      && r.db.meetups.Keys == db.meetups.Keys + {r.value.id}
      && r.db.meetups[r.value.id] == r.value
      && (forall k :: k in db.meetups && k != r.value.id ==> r.db.meetups[k] == db.meetups[k])
      && r.db.users == db.users
      && r.db.subscriptions == db.subscriptions
      && r.db.outbox == db.outbox
    ensures r.Done? && (forall k :: k in db.meetups ==> k < db.nextId) ==>
      && r.value.id !in db.meetups
      && |r.db.meetups| == |db.meetups| + 1
      && (forall k :: k in r.db.meetups ==> k < r.db.nextId)
  {
    if !Complete(p) then Refused(ValidationFails)
    else if IsBefore(StartOfHour(p.date.value), now) then Refused(DateInvalid)
    else
      var m := Meetup(db.nextId, p.title.value, p.description.value, p.location.value,
                      p.date.value, p.banner.value, caller);
      Done(db.(meetups := db.meetups[m.id := m], nextId := db.nextId + 1), m)
  }

  /** `store` answers with the error of the first failing guard of its chain. */
  lemma StoreFollowsChecks(db: Db, caller: UserId, p: Payload, now: int)
    ensures ErrorOf(Store(db, caller, p, now)) == FirstFailure(StoreChecks(p, now))
  {
    var checks := StoreChecks(p, now);
    assert checks[1..] == [checks[1]];
  }

  // ---------------------------------------------------------------- update

  /** A field after a partial update: the supplied value, or the old one when
      the field was omitted (the ORM drops undefined values). */
  predicate PatchedField<T(==)>(supplied: Option<T>, before: T, after: T)
  {
    && (supplied.Some? ==> after == supplied.value)
    && (supplied.None? ==> after == before)
  }

  /** The meetup after applying the supplied fields of `p`. */
  function Patch(m: Meetup, p: Payload): (m': Meetup)
    ensures m'.id == m.id && m'.owner == m.owner
    ensures PatchedField(p.title, m.title, m'.title)
    ensures PatchedField(p.description, m.description, m'.description)
    ensures PatchedField(p.location, m.location, m'.location)
    ensures PatchedField(p.date, m.date, m'.date)
    ensures PatchedField(p.banner, m.banner, m'.banner)
  {
    m.(title := if p.title.Some? then p.title.value else m.title,
       description := if p.description.Some? then p.description.value else m.description,
       location := if p.location.Some? then p.location.value else m.location,
       date := if p.date.Some? then p.date.value else m.date,
       banner := if p.banner.Some? then p.banner.value else m.banner)
  }

  /** An empty payload changes nothing; applying the same payload twice is
      applying it once; a complete payload replaces every editable field. */
  lemma PatchLaws(m: Meetup, p: Payload)
    ensures Patch(m, Payload(None, None, None, None, None)) == m
    ensures Patch(Patch(m, p), p) == Patch(m, p)
    ensures Complete(p) ==> Carries(Patch(m, p), p)
  {
  }

  /** The guards of `update`, in order (after the schema check, which every
      payload of present-or-absent fields passes). */
  function UpdateChecks(db: Db, caller: UserId, id: MeetupId, p: Payload, now: int): (checks: seq<Check>)
  {
    [ Check(id in db.meetups, MeetupNotFound),
      Check(id !in db.meetups || db.meetups[id].owner == caller, NotOwner),
      Check(id !in db.meetups || !Past(db.meetups[id], now), PastMeetup),
      Check(p.date.None? || DateAccepted(p.date.value, now), DateInvalid) ]
  }

  /** `update`: the intended guard sequence. The controller's `update` schema
      is built with `.schema(...)`, which throws; see `UpdateAsWritten`. This is
      the behaviour with `.shape(...)`, where every field is optional. An
      omitted date is parsed to an invalid date, which is before no date, so
      only a supplied date is checked. */
  function Update(db: Db, caller: UserId, id: MeetupId, p: Payload, now: int): (r: Outcome<Meetup>)
    ensures r.Done? ==>
      && id in db.meetups
      && db.meetups[id].owner == caller
      && !Past(db.meetups[id], now)
      && r.value == Patch(db.meetups[id], p)
      && !Past(r.value, now)
      && r.db.meetups.Keys == db.meetups.Keys
      && r.db.meetups[id] == r.value
      && (forall k :: k in db.meetups && k != id ==> r.db.meetups[k] == db.meetups[k])
      && r.db.users == db.users
      && r.db.nextId == db.nextId
      && r.db.subscriptions == db.subscriptions
      && r.db.outbox == db.outbox
  {
    if id !in db.meetups then Refused(MeetupNotFound)
    else
      var m := db.meetups[id];
      if m.owner != caller then Refused(NotOwner)
      else if Past(m, now) then Refused(PastMeetup)
      else if p.date.Some? && IsBefore(StartOfHour(p.date.value), now) then Refused(DateInvalid)
      else
        var m' := Patch(m, p);
        Done(db.(meetups := db.meetups[id := m']), m')
  }

  /** `update` answers with the error of the first failing guard of its chain. */
  lemma UpdateFollowsChecks(db: Db, caller: UserId, id: MeetupId, p: Payload, now: int)
    ensures ErrorOf(Update(db, caller, id, p, now)) == FirstFailure(UpdateChecks(db, caller, id, p, now))
  {
    var c := UpdateChecks(db, caller, id, p, now);
    assert c[1..] == [c[1], c[2], c[3]];
    assert c[1..][1..] == [c[2], c[3]];
    assert c[1..][1..][1..] == [c[3]];
  }

  /** The model as written: the schema construction throws a TypeError before
      the request is looked at, so every update fails with a server error and
      changes nothing. */
  function UpdateAsWritten(db: Db, caller: UserId, id: MeetupId, p: Payload, now: int): (r: Outcome<Meetup>)
    ensures r.Refused? && Status(r.error) == 500
  {
    Refused(SchemaTypeError)
  }

  /** The owner's update of a future meetup, which `Update` performs, fails as written. */
  lemma UpdateAsWrittenRefusesValidUpdate()
    ensures var m := Meetup(1, "t", "d", "l", 2 * HOUR, 7, 5);
      var db := Db(map[], map[1 := m], 2, [], []);
      var p := Payload(Some("new"), None, None, None, None);
      && Update(db, 5, 1, p, HOUR).Done?
      && UpdateAsWritten(db, 5, 1, p, HOUR).Refused?
  {
  }

  // ---------------------------------------------------------------- delete

  /** The guards of `delete`, in order. */
  function DeleteChecks(db: Db, caller: UserId, id: MeetupId, now: int): (checks: seq<Check>)
  {
    [ Check(id in db.meetups, MeetupNotFound),
      Check(id !in db.meetups || db.meetups[id].owner == caller, NotOwner),
      Check(id !in db.meetups || !Past(db.meetups[id], now), PastMeetup) ]
  }

  /** `delete`: the organizer removes a meetup that is not past. Subscription
      rows are not touched by the controller. */
  function Delete(db: Db, caller: UserId, id: MeetupId, now: int): (r: Outcome<()>)
    ensures r.Done? ==>
      && id in db.meetups
      && db.meetups[id].owner == caller
      && !Past(db.meetups[id], now)
      && r.db.meetups.Keys == db.meetups.Keys - {id}
      && (forall k :: k in r.db.meetups ==> r.db.meetups[k] == db.meetups[k])
      && r.db.users == db.users
      && r.db.nextId == db.nextId
      && r.db.subscriptions == db.subscriptions
      && r.db.outbox == db.outbox
  {
    if id !in db.meetups then Refused(MeetupNotFound)
    else
      var m := db.meetups[id];
      if m.owner != caller then Refused(NotOwner)
      else if Past(m, now) then Refused(PastMeetup)
      else Done(db.(meetups := db.meetups - {id}), ())
  }

  /** `delete` answers with the error of the first failing guard of its chain. */
  lemma DeleteFollowsChecks(db: Db, caller: UserId, id: MeetupId, now: int)
    ensures ErrorOf(Delete(db, caller, id, now)) == FirstFailure(DeleteChecks(db, caller, id, now))
  {
    var c := DeleteChecks(db, caller, id, now);
    assert c[1..] == [c[1], c[2]];
    assert c[1..][1..] == [c[2]];
  }

  // ---------------------------------------------------------------- guard order

  /** A missing meetup is reported before anything else is looked at. */
  lemma MissingMeetupReportedFirst(db: Db, caller: UserId, id: MeetupId, p: Payload, now: int)
    requires id !in db.meetups
    ensures Update(db, caller, id, p, now) == Refused(MeetupNotFound)
    ensures Delete(db, caller, id, now) == Refused(MeetupNotFound)
  {
    UpdateFollowsChecks(db, caller, id, p, now);
    DeleteFollowsChecks(db, caller, id, now);
    FirstFailureAt(UpdateChecks(db, caller, id, p, now), 0);
    FirstFailureAt(DeleteChecks(db, caller, id, now), 0);
  }

  /** Someone else's meetup is refused with 401 whatever the payload and
      whether or not it is past: ownership is checked before pastness. */
  lemma NonOwnerRefused(db: Db, caller: UserId, id: MeetupId, p: Payload, now: int)
    requires id in db.meetups && db.meetups[id].owner != caller
    ensures Update(db, caller, id, p, now) == Refused(NotOwner)
    ensures Delete(db, caller, id, now) == Refused(NotOwner)
    ensures Status(NotOwner) == 401
  {
    UpdateFollowsChecks(db, caller, id, p, now);
    DeleteFollowsChecks(db, caller, id, now);
    FirstFailureAt(UpdateChecks(db, caller, id, p, now), 1);
    FirstFailureAt(DeleteChecks(db, caller, id, now), 1);
  }

  /** A past meetup is frozen: even its organizer can neither update nor delete it. */
  lemma PastMeetupFrozen(db: Db, id: MeetupId, p: Payload, now: int)
    requires id in db.meetups && Past(db.meetups[id], now)
    ensures var owner := db.meetups[id].owner;
      && Update(db, owner, id, p, now) == Refused(PastMeetup)
      && Delete(db, owner, id, now) == Refused(PastMeetup)
    ensures Status(PastMeetup) == 401
  {
    var owner := db.meetups[id].owner;
    UpdateFollowsChecks(db, owner, id, p, now);
    DeleteFollowsChecks(db, owner, id, now);
    FirstFailureAt(UpdateChecks(db, owner, id, p, now), 2);
    FirstFailureAt(DeleteChecks(db, owner, id, now), 2);
  }

  /** The organizer of a future meetup moving it to a refused date gets 401. */
  lemma UpdateToRefusedDate(db: Db, id: MeetupId, p: Payload, now: int)
    requires id in db.meetups && !Past(db.meetups[id], now)
    requires p.date.Some? && !DateAccepted(p.date.value, now)
    ensures Update(db, db.meetups[id].owner, id, p, now) == Refused(DateInvalid)
    ensures Status(DateInvalid) == 401
  {
    var owner := db.meetups[id].owner;
    UpdateFollowsChecks(db, owner, id, p, now);
    FirstFailureAt(UpdateChecks(db, owner, id, p, now), 3);
  }
}
