/**
 * `TournamentStatusService.checkAndUpdateTournamentStatuses`: every upcoming
 * tournament whose date and "HH:MM" start time have been reached is set to live,
 * and the number of tournaments selected is reported.
 */
module StatusService {
  import opened Wrappers
  import opened Text
  import opened Records

  const MsPerMinute: int := 60_000
  const MsPerDay: int := 86_400_000

  /** Local midnight of the day `date` falls on; `setHours` keeps the day and replaces the time of day. */
  function DayStart(date: int): (d: int)
    ensures d <= date < d + MsPerDay
    ensures d % MsPerDay == 0
  {
    date - date % MsPerDay
  }

  /**
   * `const [hours, minutes] = time.split(':').map(Number)`. `None` when either
   * number is `NaN` or there is no second field, since `setHours` with `NaN` or
   * `undefined` yields an invalid date that no time is `>=`.
   */
  function ParseTime(time: string): Option<(nat, nat)> {
    var parts := Split(time, ':');
    var hours := JsNumber(parts[0]);
    var minutes := if |parts| >= 2 then JsNumber(parts[1]) else None;
    if hours.Some? && minutes.Some? then Some((hours.value, minutes.value)) else None
  }

  /** The instant `setHours(hours, minutes, 0, 0)` gives; hours and minutes past their range carry over, as `setHours` does. */
  function ScheduledAt(date: int, hours: nat, minutes: nat): int {
    DayStart(date) + (hours * 60 + minutes) * MsPerMinute
  }

  /** The filter of the service: upcoming, has a date and a time, and `now` is at or after the start. */
  predicate DueForLive(t: Tournament, now: int)
    ensures DueForLive(t, now) ==> t.status == Upcoming && t.date.Some? && t.time != []
  {
    && t.status == Upcoming
    && t.date.Some?
    && t.time != []
    && match ParseTime(t.time)
       case None => false
       case Some((hours, minutes)) => now >= ScheduledAt(t.date.value, hours, minutes)
  }

  /** `tournamentsToUpdate`: the due tournaments of a snapshot, in snapshot order. */
  function ToUpdate(ts: seq<Tournament>, now: int): (due: seq<Tournament>)
    ensures forall t :: t in due <==> t in ts && DueForLive(t, now)
    ensures |due| <= |ts|
  {
    if ts == [] then []
    else (if DueForLive(ts[0], now) then [ts[0]] else []) + ToUpdate(ts[1..], now)
  }

  /** The effect of `updateDoc(ref, { status: 'live' })` on a selected document. */
  function PromoteOne(t: Tournament, now: int): Tournament {
    if DueForLive(t, now) then t.(status := Live) else t
  }

  /**
   * The collection after one pass: the same documents, where only due ones
   * changed, and only in their status, from upcoming to live.
   */
  function Promote(docs: map<string, Tournament>, now: int): (after: map<string, Tournament>)
    ensures after.Keys == docs.Keys
  {
    map id | id in docs :: PromoteOne(docs[id], now)
  }

  /** A pass leaves every tournament that is not upcoming as it is, and changes a due one only in its status, to live. */
  lemma PromoteChangesOnlyDue(docs: map<string, Tournament>, now: int)
    ensures forall id :: id in docs && docs[id].status != Upcoming ==> Promote(docs, now)[id] == docs[id]
    ensures forall id :: id in docs ==>
      Promote(docs, now)[id] == (if DueForLive(docs[id], now) then docs[id].(status := Live) else docs[id])
  {
  }

  /** The ids that went from upcoming to live between two versions of the collection. */
  function PromotedIds(before: map<string, Tournament>, after: map<string, Tournament>): set<string> {
    set id | id in before && id in after && before[id].status == Upcoming && after[id].status == Live
  }

  /** Status order of the lifecycle: upcoming, then live, then completed. */
  predicate StatusAtMost(a: Status, b: Status) {
    a == b || (a == Upcoming && (b == Live || b == Completed)) || (a == Live && b == Completed)
  }

  /** The service's result object: `{ success: true, updatedCount }` or `{ success: false, error }`. */
  datatype StatusUpdate = Updated(updatedCount: nat) | Failed

  /**
   * The service run against the store. `readFails` stands for `getDocs`
   * throwing; the catch turns it into `Failed` before anything is written.
   */
  method CheckAndUpdateTournamentStatuses(db: Store, now: int, readFails: bool) returns (r: StatusUpdate)
    requires db.Valid()
    modifies db
    ensures db.Valid()
    ensures db.order == old(db.order) && db.users == old(db.users)
    ensures readFails ==> r == Failed && db.tournaments == old(db.tournaments)
    ensures !readFails ==> db.tournaments == Promote(old(db.tournaments), now)
    ensures !readFails ==> r == Updated(|ToUpdate(old(db.Snapshot()), now)|)
    ensures !readFails ==> r.updatedCount == |PromotedIds(old(db.tournaments), db.tournaments)|
  {
    if readFails {
      return Failed;
    }
    var tournaments := db.Snapshot();
    var toUpdate := ToUpdate(tournaments, now);
    ghost var before := db.tournaments;
    SelectedAreStored(db.order, before, now);
    SetStatusesLive(db, toUpdate);
    PromoteIsSetLive(db.order, before, now);
    SetLiveWellFormed(db.order, before, IdsOf(toUpdate));
    UpdatedCountIsPromoted(db.order, before, now);
    r := Updated(|toUpdate|);
  }

  /** `updateDoc(doc(db, 'tournaments', t.id), { status: 'live' })` for each selected tournament, one after another. */
  method SetStatusesLive(db: Store, toUpdate: seq<Tournament>)
    requires IdsOf(toUpdate) <= db.tournaments.Keys
    modifies db
    ensures db.tournaments == SetLive(old(db.tournaments), IdsOf(toUpdate))
    ensures db.order == old(db.order) && db.users == old(db.users)
  {
    ghost var before := db.tournaments;
    var i := 0;
    while i < |toUpdate|
      invariant 0 <= i <= |toUpdate|
      invariant db.order == old(db.order) && db.users == old(db.users)
      invariant db.tournaments == SetLive(before, IdsOf(toUpdate[..i]))
    {
      var t := toUpdate[i];
      assert t.id in IdsOf(toUpdate);
      SetLiveStep(before, IdsOf(toUpdate[..i]), t.id);
      db.tournaments := db.tournaments[t.id := db.tournaments[t.id].(status := Live)];
      assert toUpdate[..i + 1] == toUpdate[..i] + [t];
      IdsOfSnoc(toUpdate[..i], t);
      i := i + 1;
    }
    assert toUpdate[..i] == toUpdate;
  }

  /** The documents whose ids are in `ids`, set to live; the others as they are. */
  function SetLive(docs: map<string, Tournament>, ids: set<string>): (after: map<string, Tournament>)
    ensures after.Keys == docs.Keys
  {
    map id | id in docs :: if id in ids then docs[id].(status := Live) else docs[id]
  }

  lemma SetLiveStep(docs: map<string, Tournament>, ids: set<string>, x: string)
    requires x in docs
    ensures SetLive(docs, ids + {x}) == SetLive(docs, ids)[x := SetLive(docs, ids)[x].(status := Live)]
  {
  }

  lemma SetLiveWellFormed(order: seq<string>, docs: map<string, Tournament>, ids: set<string>)
    requires WellFormed(order, docs)
    ensures WellFormed(order, SetLive(docs, ids))
  {
  }

  /** Setting the selected documents live one by one is the pass `Promote` describes. */
  lemma PromoteIsSetLive(order: seq<string>, docs: map<string, Tournament>, now: int)
    requires WellFormed(order, docs)
    ensures Promote(docs, now) == SetLive(docs, IdsOf(ToUpdate(Collection(order, docs), now)))
  {
    ToUpdateIds(order, docs, now);
  }

  /** Every document the filter selects is stored under its own id. */
  lemma SelectedAreStored(order: seq<string>, docs: map<string, Tournament>, now: int)
    requires WellFormed(order, docs)
    ensures IdsOf(ToUpdate(Collection(order, docs), now)) <= docs.Keys
  {
    var due := ToUpdate(Collection(order, docs), now);
    forall id | id in IdsOf(due)
      ensures id in docs
    {
      var t :| t in due && t.id == id;
      CollectionMembers(order, docs, t);
    }
  }

  /** The ids the filter selects from a well-formed store are exactly the ids of the due documents. */
  lemma ToUpdateIds(order: seq<string>, docs: map<string, Tournament>, now: int)
    requires WellFormed(order, docs)
    ensures IdsOf(ToUpdate(Collection(order, docs), now)) <= docs.Keys
    ensures forall id :: id in docs ==>
      (id in IdsOf(ToUpdate(Collection(order, docs), now)) <==> DueForLive(docs[id], now))
  {
    var due := ToUpdate(Collection(order, docs), now);
    forall id | id in IdsOf(due)
      ensures id in docs && DueForLive(docs[id], now)
    {
      var t :| t in due && t.id == id;
      CollectionMembers(order, docs, t);
    }
    forall id | id in docs && DueForLive(docs[id], now)
      ensures id in IdsOf(due)
    {
      CollectionMembers(order, docs, docs[id]);
      assert docs[id] in due;
    }
  }

  /** Filtering keeps ids distinct. */
  lemma {:induction false} ToUpdateDistinct(ts: seq<Tournament>, now: int)
    requires DistinctIds(ts)
    ensures DistinctIds(ToUpdate(ts, now))
  {
    if ts != [] {
      ToUpdateDistinct(ts[1..], now);
      var rest := ToUpdate(ts[1..], now);
      forall u | u in rest
        ensures u.id != ts[0].id
      {
        var j :| 0 <= j < |ts[1..]| && ts[1..][j] == u;
        assert ts[j + 1] == u;
      }
    }
  }

  /** Documents with distinct ids have as many ids as documents. */
  lemma {:induction false} DistinctIdsCount(ts: seq<Tournament>)
    requires DistinctIds(ts)
    ensures |IdsOf(ts)| == |ts|
  {
    if ts != [] {
      var last := ts[|ts| - 1];
      var init := ts[..|ts| - 1];
      DistinctIdsCount(init);
      assert ts == init + [last];
      IdsOfSnoc(init, last);
      assert last.id !in IdsOf(init);
    }
  }

  /** `updatedCount` is the number of tournaments that went from upcoming to live. */
  lemma UpdatedCountIsPromoted(order: seq<string>, docs: map<string, Tournament>, now: int)
    requires WellFormed(order, docs)
    ensures |ToUpdate(Collection(order, docs), now)| == |PromotedIds(docs, Promote(docs, now))|
  {
    var ts := Collection(order, docs);
    assert DistinctIds(ts);
    ToUpdateDistinct(ts, now);
    DistinctIdsCount(ToUpdate(ts, now));
    ToUpdateIds(order, docs, now);
    assert IdsOf(ToUpdate(ts, now)) == PromotedIds(docs, Promote(docs, now));
  }

  /** A second pass with the same `now` changes nothing. */
  lemma PromoteIdempotent(docs: map<string, Tournament>, now: int)
    ensures Promote(Promote(docs, now), now) == Promote(docs, now)
  {
    var once := Promote(docs, now);
    forall id | id in once
      ensures Promote(once, now)[id] == once[id]
    {
      assert !DueForLive(once[id], now);
    }
  }

  /** After a pass, a second call with the same `now` selects nothing, so it reports `updatedCount = 0`. */
  lemma NothingDueAfterPromote(order: seq<string>, docs: map<string, Tournament>, now: int)
    requires WellFormed(order, docs)
    ensures ToUpdate(Collection(order, Promote(docs, now)), now) == []
  {
    ToUpdateNoneDue(Collection(order, Promote(docs, now)), now);
  }

  lemma {:induction false} ToUpdateNoneDue(ts: seq<Tournament>, now: int)
    requires forall i :: 0 <= i < |ts| ==> !DueForLive(ts[i], now)
    ensures ToUpdate(ts, now) == []
  {
    if ts != [] {
      ToUpdateNoneDue(ts[1..], now);
    }
  }

  /** No status moves backwards: upcoming may become live, and live and completed stay as they are. */
  lemma PromoteMonotonic(docs: map<string, Tournament>, now: int)
    ensures forall id :: id in docs ==> StatusAtMost(docs[id].status, Promote(docs, now)[id].status)
    ensures forall id :: id in docs && docs[id].status in {Live, Completed} ==>
      Promote(docs, now)[id].status == docs[id].status
  {
  }

  /** Once a tournament is due it stays due at every later time, so a late call still promotes it. */
  lemma DueStaysDue(t: Tournament, now: int, later: int)
    requires DueForLive(t, now) && now <= later
    ensures DueForLive(t, later)
  {
  }

  /** A stored "HH:MM" time is read as the hours and minutes it was written from. */
  lemma ParseFormattedTime(hours: nat, minutes: nat)
    requires hours < 100 && minutes < 100
    ensures ParseTime(TwoDigits(hours) + [':'] + TwoDigits(minutes)) == Some((hours, minutes))
  {
    var h, m := TwoDigits(hours), TwoDigits(minutes);
    assert ':' !in h by { DigitNotColon(h); }
    assert ':' !in m by { DigitNotColon(m); }
    assert JoinWith([h, m], ':') == h + [':'] + m;
    SplitJoin([h, m], ':');
    NumberOfTwoDigits(hours);
    NumberOfTwoDigits(minutes);
  }

  lemma DigitNotColon(s: string)
    requires AllDigits(s)
    ensures ':' !in s
  {
    forall k | 0 <= k < |s|
      ensures s[k] != ':'
    {
      assert IsDigit(s[k]);
    }
  }

  /** A time with no ':' has no minutes, so such a tournament is never promoted. */
  lemma TimeWithoutColonNeverDue(t: Tournament, now: int)
    requires ':' !in t.time
    ensures !DueForLive(t, now)
  {
    SplitNoSeparator(t.time, ':');
  }

  /**
   * An upcoming tournament with a date and an "HH:MM" time is promoted exactly
   * when `now` is at or after that day's start plus `hours * 60 + minutes` minutes.
   */
  lemma DueExactlyAtStart(t: Tournament, now: int, hours: nat, minutes: nat)
    requires t.status == Upcoming && t.date.Some?
    requires hours < 24 && minutes < 60
    requires t.time == TwoDigits(hours) + [':'] + TwoDigits(minutes)
    ensures DueForLive(t, now) <==> now >= DayStart(t.date.value) + (hours * 60 + minutes) * MsPerMinute
  {
    ParseFormattedTime(hours, minutes);
  }
}
