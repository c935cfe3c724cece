/**
 * The documents of the two Firestore collections the core reads and writes,
 * `tournaments` and `users`, and an in-memory store holding them.
 *
 * Times are integer milliseconds in the local frame of the device that runs
 * the code (a Firestore Timestamp after `toDate()`).
 */
module Records {
  import opened Wrappers

  /** A tournament's `status` field; `Unknown` stands for any other stored value or a missing one. */
  datatype Status = Upcoming | Live | Completed | Unknown

  /** One entry of a tournament's `participants` array. */
  datatype Participant = Participant(userId: string, email: string, username: string, joinedAt: string)

  /**
   * A tournament document with the fields the core uses. `date` is the
   * `tournamentDate` Timestamp, `time` the `tournamentTime` "HH:MM" string
   * (the empty string when absent), and `participants` is `None` when the
   * document has no such field.
   */
  datatype Tournament = Tournament(
    id: string,
    status: Status,
    date: Option<int>,
    time: string,
    entryFee: int,
    maxParticipants: int,
    participants: Option<seq<Participant>>)

  /** A user document: the wallet and the ids of the tournaments joined. */
  datatype User = User(walletBalance: int, joinedTournaments: seq<string>)

  /** The signed-in account, as the authentication context gives it. */
  datatype AuthUser = AuthUser(uid: string, email: string)

  /** The participants array, empty when the field is missing. */
  function ParticipantsOf(t: Tournament): seq<Participant> {
    if t.participants.Some? then t.participants.value else []
  }

  /** `participants?.some(p => p.userId === uid)`: a missing array has no participant. */
  predicate HasParticipant(t: Tournament, uid: string) {
    exists p :: p in ParticipantsOf(t) && p.userId == uid
  }

  /**
   * `participants?.length >= maxParticipants`. A missing array compares as
   * `undefined`, which is never `>=` a number, so such a tournament is never full.
   */
  predicate IsFull(t: Tournament) {
    t.participants.Some? && |t.participants.value| >= t.maxParticipants
  }

  /** Firestore's `arrayUnion(x)` on an array field: appends `x` unless an equal element is already there. */
  function ArrayUnion<T(==, !new)>(xs: seq<T>, x: T): (r: seq<T>)
    ensures x in r
    ensures |xs| <= |r| <= |xs| + 1 && r[..|xs|] == xs
    ensures x in xs ==> r == xs
    ensures forall y :: y in r <==> y in xs || y == x
  {
    if x in xs then xs else xs + [x]
  }

  /** A union that already holds `x` is left as it is by a second union with `x`. */
  lemma ArrayUnionIdempotent<T(!new)>(xs: seq<T>, x: T)
    ensures ArrayUnion(ArrayUnion(xs, x), x) == ArrayUnion(xs, x)
  {
  }

  /** The ids in `order` are pairwise different. */
  ghost predicate Distinct(order: seq<string>) {
    forall i, j :: 0 <= i < j < |order| ==> order[i] != order[j]
  }

  /** The store is well formed: `order` lists every document id once, and each document holds its own id. */
  ghost predicate WellFormed(order: seq<string>, docs: map<string, Tournament>) {
    && Distinct(order)
    && (forall id :: id in order <==> id in docs)
    && (forall id :: id in docs ==> docs[id].id == id)
  }

  /** What `getDocs` on the collection returns: the documents in collection order. */
  function Collection(order: seq<string>, docs: map<string, Tournament>): (ts: seq<Tournament>)
    requires forall id :: id in order ==> id in docs
    ensures |ts| == |order|
    ensures forall i :: 0 <= i < |order| ==> ts[i] == docs[order[i]]
  {
    seq(|order|, i requires 0 <= i < |order| => docs[order[i]])
  }

  /** In a well-formed store the snapshot holds exactly the stored documents. */
  lemma CollectionMembers(order: seq<string>, docs: map<string, Tournament>, t: Tournament)
    requires WellFormed(order, docs)
    ensures t in Collection(order, docs) <==> t.id in docs && docs[t.id] == t
  {
    var ts := Collection(order, docs);
    if t in ts {
      var i :| 0 <= i < |ts| && ts[i] == t;
      assert docs[order[i]] == t;
    }
    if t.id in docs && docs[t.id] == t {
      var i :| 0 <= i < |order| && order[i] == t.id;
      assert ts[i] == t;
    }
  }

  /** The ids of a sequence of documents. */
  function IdsOf(ts: seq<Tournament>): set<string> {
    set t | t in ts :: t.id
  }

  lemma IdsOfSnoc(ts: seq<Tournament>, t: Tournament)
    ensures IdsOf(ts + [t]) == IdsOf(ts) + {t.id}
  {
    assert forall u :: u in ts + [t] <==> u in ts || u == t;
  }

  /** No two documents of the sequence share an id. */
  predicate DistinctIds(ts: seq<Tournament>) {
    forall i, j :: 0 <= i < j < |ts| ==> ts[i].id != ts[j].id
  }

  /** In a well-formed store the snapshot has one document per stored id: its ids are distinct and are exactly the stored ids. */
  lemma CollectionIds(order: seq<string>, docs: map<string, Tournament>)
    requires WellFormed(order, docs)
    ensures DistinctIds(Collection(order, docs))
    ensures IdsOf(Collection(order, docs)) == docs.Keys
  {
    var ts := Collection(order, docs);
    forall id | id in docs
      ensures id in IdsOf(ts)
    {
      var i :| 0 <= i < |order| && order[i] == id;
      assert ts[i].id == id;
    }
  }

  /** The two collections, held in memory in place of Firestore. */
  class Store {
    var order: seq<string>
    var tournaments: map<string, Tournament>
    var users: map<string, User>

    ghost predicate Valid()
      reads this
    {
      WellFormed(order, tournaments)
    }

    constructor (order: seq<string>, tournaments: map<string, Tournament>, users: map<string, User>)
      requires WellFormed(order, tournaments)
      ensures Valid()
      ensures this.order == order && this.tournaments == tournaments && this.users == users
    {
      this.order := order;
      this.tournaments := tournaments;
      this.users := users;
    }

    /** The result of reading the whole `tournaments` collection. */
    function Snapshot(): seq<Tournament>
      reads this
      requires Valid()
    {
      Collection(order, tournaments)
    }
  }
}
