/**
 * The logic of the `MyTournaments` page: the tournaments the signed-in user
 * takes part in, newest first.
 */
module MyTournaments {
  import opened Wrappers
  import opened Records
  import StatusService

  // ---------------------------------------------------------------------------
  // The participant filter
  // ---------------------------------------------------------------------------

  /** The tournaments with a participant whose `userId` is `uid`, in snapshot order. */
  function JoinedBy(ts: seq<Tournament>, uid: string): (mine: seq<Tournament>)
    ensures |mine| <= |ts|
  {
    if ts == [] then []
    else (if HasParticipant(ts[0], uid) then [ts[0]] else []) + JoinedBy(ts[1..], uid)
  }

  /**
   * The filter keeps every tournament the user takes part in, as often as the
   * snapshot holds it, and drops every other one.
   */
  lemma {:induction false} JoinedByCount(ts: seq<Tournament>, uid: string, t: Tournament)
    ensures multiset(JoinedBy(ts, uid))[t] == if HasParticipant(t, uid) then multiset(ts)[t] else 0
    decreases |ts|
  {
    if ts != [] {
      JoinedByCount(ts[1..], uid, t);
      assert ts == [ts[0]] + ts[1..];
    }
  }

  /** A tournament is returned exactly when it is stored and the user takes part in it. */
  lemma JoinedByMembers(ts: seq<Tournament>, uid: string, t: Tournament)
    ensures t in JoinedBy(ts, uid) <==> t in ts && HasParticipant(t, uid)
  {
    JoinedByCount(ts, uid, t);
  }

  // ---------------------------------------------------------------------------
  // The newest-first sort
  // ---------------------------------------------------------------------------

  /** The comparator's date: `tournamentDate`, or the current time when the field is missing. */
  function SortKey(t: Tournament, now: int): int {
    if t.date.Some? then t.date.value else now
  }

  /** Dates never increase along the list. */
  predicate NewestFirst(ts: seq<Tournament>, now: int) {
    forall i, j :: 0 <= i < j < |ts| ==> SortKey(ts[i], now) >= SortKey(ts[j], now)
  }

  /** Puts `t` before the first tournament that is not newer than it. */
  function Insert(t: Tournament, sorted: seq<Tournament>, now: int): (r: seq<Tournament>)
    ensures |r| == |sorted| + 1
  {
    if sorted == [] || SortKey(sorted[0], now) <= SortKey(t, now) then [t] + sorted
    else [sorted[0]] + Insert(t, sorted[1..], now)
  }

  /**
   * `myTournaments.sort((a, b) => dateB - dateA)`: newest first, and, since
   * `Array.prototype.sort` is stable, tournaments with the same date keep their
   * snapshot order.
   */
  function SortNewestFirst(ts: seq<Tournament>, now: int): (r: seq<Tournament>)
    ensures |r| == |ts|
  {
    if ts == [] then [] else Insert(ts[0], SortNewestFirst(ts[1..], now), now)
  }

  lemma {:induction false} InsertPermutation(t: Tournament, sorted: seq<Tournament>, now: int)
    ensures multiset(Insert(t, sorted, now)) == multiset(sorted) + multiset{t}
    decreases |sorted|
  {
    if sorted != [] && SortKey(sorted[0], now) > SortKey(t, now) {
      InsertPermutation(t, sorted[1..], now);
      assert sorted == [sorted[0]] + sorted[1..];
    }
  }

  /** No tournament of the list is newer than `key`. */
  predicate NotNewerThan(ts: seq<Tournament>, key: int, now: int) {
    forall i :: 0 <= i < |ts| ==> SortKey(ts[i], now) <= key
  }

  lemma NewestFirstCons(t: Tournament, ts: seq<Tournament>, now: int)
    ensures NewestFirst([t] + ts, now) <==> NotNewerThan(ts, SortKey(t, now), now) && NewestFirst(ts, now)
  {
    var r := [t] + ts;
    if NotNewerThan(ts, SortKey(t, now), now) && NewestFirst(ts, now) {
      forall i, j | 0 <= i < j < |r|
        ensures SortKey(r[i], now) >= SortKey(r[j], now)
      {
        assert r[j] == ts[j - 1];
        if i > 0 {
          assert r[i] == ts[i - 1];
        }
      }
    }
    if NewestFirst(r, now) {
      forall i | 0 <= i < |ts|
        ensures SortKey(ts[i], now) <= SortKey(t, now)
      {
        assert r[0] == t && r[i + 1] == ts[i];
      }
      forall i, j | 0 <= i < j < |ts|
        ensures SortKey(ts[i], now) >= SortKey(ts[j], now)
      {
        assert r[i + 1] == ts[i] && r[j + 1] == ts[j];
      }
    }
  }

  lemma {:induction false} InsertNotNewer(t: Tournament, sorted: seq<Tournament>, key: int, now: int)
    requires NotNewerThan(sorted, key, now) && SortKey(t, now) <= key
    ensures NotNewerThan(Insert(t, sorted, now), key, now)
    decreases |sorted|
  {
    if sorted != [] && SortKey(sorted[0], now) > SortKey(t, now) {
      InsertNotNewer(t, sorted[1..], key, now);
      var r := Insert(t, sorted, now);
      forall i | 0 <= i < |r|
        ensures SortKey(r[i], now) <= key
      {
        if i > 0 {
          assert r[i] == Insert(t, sorted[1..], now)[i - 1];
        }
      }
    }
  }

  lemma {:induction false} InsertNewestFirst(t: Tournament, sorted: seq<Tournament>, now: int)
    requires NewestFirst(sorted, now)
    ensures NewestFirst(Insert(t, sorted, now), now)
    decreases |sorted|
  {
    if sorted == [] || SortKey(sorted[0], now) <= SortKey(t, now) {
      assert NotNewerThan(sorted, SortKey(t, now), now);
      NewestFirstCons(t, sorted, now);
    } else {
      assert sorted == [sorted[0]] + sorted[1..];
      NewestFirstCons(sorted[0], sorted[1..], now);
      InsertNewestFirst(t, sorted[1..], now);
      InsertNotNewer(t, sorted[1..], SortKey(sorted[0], now), now);
      NewestFirstCons(sorted[0], Insert(t, sorted[1..], now), now);
    }
  }

  /** The sorted list is newest first and holds exactly the tournaments it was given. */
  lemma {:induction false} SortNewestFirstSpec(ts: seq<Tournament>, now: int)
    ensures NewestFirst(SortNewestFirst(ts, now), now)
    ensures multiset(SortNewestFirst(ts, now)) == multiset(ts)
    decreases |ts|
  {
    if ts != [] {
      SortNewestFirstSpec(ts[1..], now);
      InsertNewestFirst(ts[0], SortNewestFirst(ts[1..], now), now);
      InsertPermutation(ts[0], SortNewestFirst(ts[1..], now), now);
      assert ts == [ts[0]] + ts[1..];
    }
  }

  /** The tournaments dated `key`, in list order. */
  function DatedAt(ts: seq<Tournament>, key: int, now: int): seq<Tournament> {
    if ts == [] then []
    else (if SortKey(ts[0], now) == key then [ts[0]] else []) + DatedAt(ts[1..], key, now)
  }

  lemma {:induction false} InsertDatedAt(t: Tournament, sorted: seq<Tournament>, key: int, now: int)
    ensures DatedAt(Insert(t, sorted, now), key, now) ==
      (if SortKey(t, now) == key then [t] else []) + DatedAt(sorted, key, now)
    decreases |sorted|
  {
    var mine := if SortKey(t, now) == key then [t] else [];
    if sorted == [] || SortKey(sorted[0], now) <= SortKey(t, now) {
      assert ([t] + sorted)[1..] == sorted;
    } else {
      var head, rest := sorted[0], Insert(t, sorted[1..], now);
      InsertDatedAt(t, sorted[1..], key, now);
      assert ([head] + rest)[1..] == rest;
      var theirs := if SortKey(head, now) == key then [head] else [];
      assert DatedAt(sorted, key, now) == theirs + DatedAt(sorted[1..], key, now);
      assert DatedAt([head] + rest, key, now) == theirs + mine + DatedAt(sorted[1..], key, now);
      assert mine == [] || theirs == [];
    }
  }

  /** Tournaments with equal dates keep the order they had in the snapshot. */
  lemma {:induction false} SortNewestFirstStable(ts: seq<Tournament>, key: int, now: int)
    ensures DatedAt(SortNewestFirst(ts, now), key, now) == DatedAt(ts, key, now)
    decreases |ts|
  {
    if ts != [] {
      SortNewestFirstStable(ts[1..], key, now);
      InsertDatedAt(ts[0], SortNewestFirst(ts[1..], now), key, now);
    }
  }

  // ---------------------------------------------------------------------------
  // The page's list
  // ---------------------------------------------------------------------------

  /** What `fetchMyTournaments` stores in the page: the user's tournaments, newest first. */
  function MyTournamentsOf(ts: seq<Tournament>, uid: string, now: int): seq<Tournament> {
    SortNewestFirst(JoinedBy(ts, uid), now)
  }

  /**
   * Every listed tournament has the user among its participants, every stored
   * tournament that has the user is listed as often as it is stored, and the
   * list is newest first.
   */
  lemma MyTournamentsSpec(ts: seq<Tournament>, uid: string, now: int)
    ensures forall t :: t in MyTournamentsOf(ts, uid, now) ==> HasParticipant(t, uid)
    ensures forall t :: t in ts && HasParticipant(t, uid) ==> t in MyTournamentsOf(ts, uid, now)
    ensures forall t ::
              multiset(MyTournamentsOf(ts, uid, now))[t] == if HasParticipant(t, uid) then multiset(ts)[t] else 0
    ensures NewestFirst(MyTournamentsOf(ts, uid, now), now)
  {
    var mine := JoinedBy(ts, uid);
    SortNewestFirstSpec(mine, now);
    forall t
      ensures multiset(MyTournamentsOf(ts, uid, now))[t] == if HasParticipant(t, uid) then multiset(ts)[t] else 0
    {
      JoinedByCount(ts, uid, t);
    }
    forall t | t in MyTournamentsOf(ts, uid, now)
      ensures HasParticipant(t, uid)
    {
      assert t in multiset(MyTournamentsOf(ts, uid, now));
      JoinedByCount(ts, uid, t);
    }
    forall t | t in ts && HasParticipant(t, uid)
      ensures t in MyTournamentsOf(ts, uid, now)
    {
      assert t in multiset(ts);
      JoinedByCount(ts, uid, t);
    }
  }

  /**
   * `fetchMyTournaments`: run the status service, read the collection, and
   * keep the user's tournaments newest first. `listReadFails` stands for the
   * `getDocs` call throwing, which leaves the page without a new list.
   */
  method FetchMyTournaments(db: Store, uid: string, now: int, statusReadFails: bool, listReadFails: bool)
    returns (mine: Option<seq<Tournament>>)
    requires db.Valid()
    modifies db
    ensures db.Valid() && db.order == old(db.order) && db.users == old(db.users)
    ensures db.tournaments ==
      if statusReadFails then old(db.tournaments) else StatusService.Promote(old(db.tournaments), now)
    ensures mine == if listReadFails then None else Some(MyTournamentsOf(db.Snapshot(), uid, now))
  {
    var _ := StatusService.CheckAndUpdateTournamentStatuses(db, now, statusReadFails);
    if listReadFails {
      return None;
    }
    mine := Some(MyTournamentsOf(db.Snapshot(), uid, now));
  }
}
