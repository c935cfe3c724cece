/**
 * The logic of the `TournamentList` page: the join handler with its fixed
 * order of checks and its two document writes, the listing with the
 * `hasJoined` flag, the status sort, and when the join buttons are enabled.
 */
module TournamentList {
  import opened Wrappers
  import opened Text
  import opened Records
  import StatusService
  import MyTournaments

  // ---------------------------------------------------------------------------
  // The username checks of `handleJoinTournament`
  // ---------------------------------------------------------------------------

  /** One character of the class `[a-zA-Z0-9_]`. */
  predicate IsNameChar(c: char) {
    ('a' <= c <= 'z') || ('A' <= c <= 'Z') || ('0' <= c <= '9') || c == '_'
  }

  /** `/^[a-zA-Z0-9_]+$/.test(s)`: one or more name characters and nothing else. */
  predicate MatchesNamePattern(s: string) {
    |s| > 0 && forall k :: 0 <= k < |s| ==> IsNameChar(s[k])
  }

  /** The messages the handler can stop with, in the order its checks run. */
  datatype JoinError =
    | UsernameRequired      // "Username is required"
    | UsernameLength        // "Username must be between 3 and 20 characters"
    | UsernameCharacters    // "Username can only contain letters, numbers, and underscores"
    | InsufficientBalance   // "Insufficient wallet balance"
    | TournamentFull        // "Tournament is full"

  /** Every check of the handler passes, stated as one condition. */
  predicate Eligible(walletBalance: int, t: Tournament, username: string, sanitize: string -> string) {
    var name := sanitize(Trim(username));
    && Trim(username) != []
    && 3 <= |name| <= 20
    && MatchesNamePattern(name)
    && walletBalance >= t.entryFee
    && !IsFull(t)
  }

  /**
   * The checks of `handleJoinTournament`, in source order, against the page's
   * copy of the wallet balance and of the tournament. On success it yields the
   * sanitized username that is stored.
   */
  function ValidateJoin(walletBalance: int, t: Tournament, username: string, sanitize: string -> string)
    : (r: Result<string, JoinError>)
    ensures r.Ok? <==> Eligible(walletBalance, t, username, sanitize)
    ensures r.Ok? ==> r.value == sanitize(Trim(username))
  {
    var trimmed := Trim(username);
    if trimmed == [] then Err(UsernameRequired)
    else
      var name := sanitize(trimmed);
      if |name| < 3 || |name| > 20 then Err(UsernameLength)
      else if !MatchesNamePattern(name) then Err(UsernameCharacters)
      else if walletBalance < t.entryFee then Err(InsufficientBalance)
      else if IsFull(t) then Err(TournamentFull)
      else Ok(name)
  }

  /**
   * The first failing check decides the error: each error is reported exactly
   * when every earlier check passed and its own check failed.
   */
  lemma ValidationOrder(walletBalance: int, t: Tournament, username: string, sanitize: string -> string)
    ensures var r := ValidateJoin(walletBalance, t, username, sanitize);
      var name := sanitize(Trim(username));
      && (r == Err(UsernameRequired) <==> AllSpace(username))
      && (r == Err(UsernameLength) <==> !AllSpace(username) && !(3 <= |name| <= 20))
      && (r == Err(UsernameCharacters) <==>
            !AllSpace(username) && 3 <= |name| <= 20 && !MatchesNamePattern(name))
      && (r == Err(InsufficientBalance) <==>
            !AllSpace(username) && 3 <= |name| <= 20 && MatchesNamePattern(name) && walletBalance < t.entryFee)
      && (r == Err(TournamentFull) <==>
            !AllSpace(username) && 3 <= |name| <= 20 && MatchesNamePattern(name)
            && walletBalance >= t.entryFee && IsFull(t))
  {
    TrimEmptyIff(username);
  }

  /** A name made of name characters only is left as it is by `trim`. */
  lemma ValidNameIsTrimmed(name: string)
    requires MatchesNamePattern(name)
    ensures Trim(name) == name
  {
    forall k | 0 <= k < |name|
      ensures !IsJsSpace(name[k])
    {
      assert IsNameChar(name[k]);
    }
    TrimNoSpace(name);
  }

  // ---------------------------------------------------------------------------
  // The two writes of `handleJoinTournament`
  // ---------------------------------------------------------------------------

  /** What the handler ends with. */
  datatype JoinOutcome =
    | Ignored                    // no signed-in user or no selected tournament: nothing happens
    | Rejected(error: JoinError) // a check failed: nothing is written
    | WriteFailed(debited: bool) // an `updateDoc` threw; `debited` says the user document was already written
    | Joined(newBalance: int)

  /** The user document write: the new balance, and the tournament id added with `arrayUnion`. */
  function Debit(u: User, newBalance: int, tournamentId: string): User {
    u.(walletBalance := newBalance, joinedTournaments := ArrayUnion(u.joinedTournaments, tournamentId))
  }

  /** The tournament document write: the participant record added with `arrayUnion`. */
  function AddParticipant(t: Tournament, p: Participant): Tournament {
    t.(participants := Some(ArrayUnion(ParticipantsOf(t), p)))
  }

  /**
   * The user document after a join holds the new balance and the tournament id,
   * keeps the ids it held before in their order, and a second join of the same
   * tournament does not add the id again.
   */
  lemma DebitSpec(u: User, newBalance: int, tournamentId: string)
    ensures Debit(u, newBalance, tournamentId).walletBalance == newBalance
    ensures tournamentId in Debit(u, newBalance, tournamentId).joinedTournaments
    ensures var ids := Debit(u, newBalance, tournamentId).joinedTournaments;
      |u.joinedTournaments| <= |ids| && ids[..|u.joinedTournaments|] == u.joinedTournaments
    ensures Debit(Debit(u, newBalance, tournamentId), newBalance, tournamentId)
      == Debit(u, newBalance, tournamentId)
  {
    ArrayUnionIdempotent(u.joinedTournaments, tournamentId);
  }

  /**
   * The tournament document after a join has a participant with the joining
   * user's id, keeps every earlier participant in place, and has the new record
   * at the end unless an identical record was already there. Nothing else changes.
   */
  lemma AddParticipantSpec(t: Tournament, p: Participant)
    ensures HasParticipant(AddParticipant(t, p), p.userId)
    ensures var ps := ParticipantsOf(AddParticipant(t, p));
      |ParticipantsOf(t)| <= |ps| && ps[..|ParticipantsOf(t)|] == ParticipantsOf(t)
    ensures p !in ParticipantsOf(t) ==> ParticipantsOf(AddParticipant(t, p)) == ParticipantsOf(t) + [p]
    ensures AddParticipant(t, p).(participants := t.participants) == t
  {
    assert p in ParticipantsOf(AddParticipant(t, p));
  }

  /**
   * When the page's copy of the tournament is the stored one and passes the
   * capacity check, the stored participant count after the join is at most
   * `maxParticipants`. A missing `participants` field with `maxParticipants`
   * 0 passes the check too (`undefined >= 0` is false), hence the second requires.
   */
  lemma JoinKeepsCapacity(t: Tournament, p: Participant)
    requires !IsFull(t)
    requires t.participants.Some? || t.maxParticipants >= 1
    ensures |ParticipantsOf(AddParticipant(t, p))| <= t.maxParticipants
  {
  }

  /**
   * A successful check leaves a non-negative balance: the new balance is the
   * page's balance minus the entry fee, and the balance check passed.
   */
  lemma NewBalanceNonNegative(walletBalance: int, t: Tournament, username: string, sanitize: string -> string)
    requires ValidateJoin(walletBalance, t, username, sanitize).Ok?
    ensures walletBalance - t.entryFee >= 0
  {
  }

  /**
   * `handleJoinTournament` against the store. The checks use the page's copies
   * `currentTournament` and `walletBalance`, not the stored documents; the user
   * document is written first with `walletBalance - entryFee`, then the
   * tournament document. `updateDoc` on a missing document throws, so a missing
   * user document stops the join before any write, and a missing tournament
   * document stops it after the user was debited. The refresh the page starts
   * after a successful join (an un-awaited `fetchTournaments()`) is
   * `FetchTournaments`, run separately.
   */
  method HandleJoinTournament(
    db: Store, currentUser: Option<AuthUser>, currentTournament: Option<Tournament>,
    walletBalance: int, username: string, sanitize: string -> string, joinedAt: string)
    returns (outcome: JoinOutcome)
    requires db.Valid()
    modifies db
    ensures db.Valid() && db.order == old(db.order)
    ensures currentUser.None? || currentTournament.None? ==>
      outcome == Ignored && db.tournaments == old(db.tournaments) && db.users == old(db.users)
    ensures currentUser.Some? && currentTournament.Some? ==>
      var user, t := currentUser.value, currentTournament.value;
      match ValidateJoin(walletBalance, t, username, sanitize)
      case Err(e) =>
        outcome == Rejected(e) && db.tournaments == old(db.tournaments) && db.users == old(db.users)
      case Ok(name) =>
        if user.uid !in old(db.users) then
          outcome == WriteFailed(false) && db.tournaments == old(db.tournaments) && db.users == old(db.users)
        else
          && db.users == old(db.users)[user.uid := Debit(old(db.users)[user.uid], walletBalance - t.entryFee, t.id)]
          && if t.id !in old(db.tournaments) then
               outcome == WriteFailed(true) && db.tournaments == old(db.tournaments)
             else
               && outcome == Joined(walletBalance - t.entryFee)
               && db.tournaments == old(db.tournaments)[t.id :=
                    AddParticipant(old(db.tournaments)[t.id], Participant(user.uid, user.email, name, joinedAt))]
    ensures outcome.Joined? ==>
      && outcome.newBalance >= 0
      && currentUser.value.uid in db.users
      && db.users[currentUser.value.uid].walletBalance == outcome.newBalance
      && currentTournament.value.id in db.users[currentUser.value.uid].joinedTournaments
      && currentTournament.value.id in db.tournaments
      && HasParticipant(db.tournaments[currentTournament.value.id], currentUser.value.uid)
  {
    if currentUser.None? || currentTournament.None? {
      return Ignored;
    }
    var user, t := currentUser.value, currentTournament.value;
    var checked := ValidateJoin(walletBalance, t, username, sanitize);
    if checked.Err? {
      return Rejected(checked.error);
    }
    var name := checked.value;
    var newBalance := walletBalance - t.entryFee;
    if user.uid !in db.users {
      return WriteFailed(false);
    }
    db.users := db.users[user.uid := Debit(db.users[user.uid], newBalance, t.id)];
    if t.id !in db.tournaments {
      return WriteFailed(true);
    }
    var p := Participant(user.uid, user.email, name, joinedAt);
    AddParticipantSpec(db.tournaments[t.id], p);
    DebitSpec(old(db.users)[user.uid], newBalance, t.id);
    db.tournaments := db.tournaments[t.id := AddParticipant(db.tournaments[t.id], p)];
    outcome := Joined(newBalance);
  }

  // ---------------------------------------------------------------------------
  // Checks the handler leaves to the buttons, as a strengthened variant
  // ---------------------------------------------------------------------------

  /** The errors of the strengthened join: the handler's, then a repeated join, then a closed registration. */
  datatype StrictJoinError = Check(error: JoinError) | DuplicateJoin | RegistrationClosed

  /**
   * The handler's checks followed by the two the page enforces only by
   * disabling the join button: the user is not yet a participant, and the
   * tournament is still upcoming.
   */
  function ValidateJoinStrict(
    walletBalance: int, t: Tournament, uid: string, username: string, sanitize: string -> string)
    : (r: Result<string, StrictJoinError>)
    ensures r.Ok? <==>
      Eligible(walletBalance, t, username, sanitize) && !HasParticipant(t, uid) && t.status == Upcoming
    ensures r.Ok? ==> ValidateJoin(walletBalance, t, username, sanitize) == Ok(r.value)
  {
    match ValidateJoin(walletBalance, t, username, sanitize)
    case Err(e) => Err(Check(e))
    case Ok(name) =>
      if HasParticipant(t, uid) then Err(DuplicateJoin)
      else if t.status != Upcoming then Err(RegistrationClosed)
      else Ok(name)
  }

  /** No two participants share a user id. */
  predicate UniqueUserIds(ps: seq<Participant>) {
    forall i, j :: 0 <= i < j < |ps| ==> ps[i].userId != ps[j].userId
  }

  /** A join that passes the strengthened checks keeps participant user ids unique. */
  lemma StrictJoinKeepsUserIdsUnique(
    walletBalance: int, t: Tournament, user: AuthUser, username: string, sanitize: string -> string,
    joinedAt: string)
    requires UniqueUserIds(ParticipantsOf(t))
    requires ValidateJoinStrict(walletBalance, t, user.uid, username, sanitize).Ok?
    ensures var name := ValidateJoinStrict(walletBalance, t, user.uid, username, sanitize).value;
      UniqueUserIds(ParticipantsOf(AddParticipant(t, Participant(user.uid, user.email, name, joinedAt))))
  {
    var name := ValidateJoinStrict(walletBalance, t, user.uid, username, sanitize).value;
    var p := Participant(user.uid, user.email, name, joinedAt);
    var ps := ParticipantsOf(t);
    assert p !in ps;
    var after := ParticipantsOf(AddParticipant(t, p));
    assert after == ps + [p];
    forall i, j | 0 <= i < j < |after|
      ensures after[i].userId != after[j].userId
    {
      if j == |ps| {
        assert after[i] in ps;
      }
    }
  }

  /**
   * The handler alone does not keep user ids unique: a user already in the
   * tournament who reaches the handler passes every check, and the join adds a
   * second record with the same user id (the join time makes it a new element).
   */
  lemma HandlerAllowsRepeatedJoin()
    ensures var first := Participant("u1", "a@b", "player_1", "t0");
      var t := Tournament("t", Upcoming, None, "", 0, 10, Some([first]));
      var name := ValidateJoin(0, t, "player_1", s => s);
      && name == Ok("player_1")
      && !UniqueUserIds(ParticipantsOf(AddParticipant(t, Participant("u1", "a@b", "player_1", "t1"))))
  {
    var first := Participant("u1", "a@b", "player_1", "t0");
    var t := Tournament("t", Upcoming, None, "", 0, 10, Some([first]));
    var name: string := "player_1";
    assert MatchesNamePattern(name) by {
      forall k | 0 <= k < |name| ensures IsNameChar(name[k]) {}
    }
    ValidNameIsTrimmed(name);
    var p := Participant("u1", "a@b", "player_1", "t1");
    assert p != first;
    assert ParticipantsOf(AddParticipant(t, p)) == [first, p];
  }

  // ---------------------------------------------------------------------------
  // The listing of `fetchTournaments`
  // ---------------------------------------------------------------------------

  /** A tournament as the page lists it, with the `hasJoined` flag added. */
  datatype Listed = Listed(tournament: Tournament, hasJoined: bool)

  /** `hasJoined`: a signed-in user who is among the participants; false when signed out. */
  function HasJoined(t: Tournament, currentUser: Option<AuthUser>): bool {
    currentUser.Some? && HasParticipant(t, currentUser.value.uid)
  }

  /** The documents of a snapshot, each with its `hasJoined` flag, in snapshot order. */
  function Listing(ts: seq<Tournament>, currentUser: Option<AuthUser>): (ls: seq<Listed>)
    ensures |ls| == |ts|
    ensures forall i :: 0 <= i < |ts| ==> ls[i] == Listed(ts[i], HasJoined(ts[i], currentUser))
  {
    seq(|ts|, i requires 0 <= i < |ts| => Listed(ts[i], HasJoined(ts[i], currentUser)))
  }

  /**
   * The list page and the "My Tournaments" page agree: for a signed-in user a
   * tournament is flagged as joined exactly when the "My Tournaments" filter
   * keeps it, and a signed-out visitor sees nothing flagged.
   */
  lemma ListingAgreesWithMyTournaments(ts: seq<Tournament>, currentUser: Option<AuthUser>)
    ensures currentUser.Some? ==> forall i :: 0 <= i < |ts| ==>
      (Listing(ts, currentUser)[i].hasJoined <==> ts[i] in MyTournaments.JoinedBy(ts, currentUser.value.uid))
    ensures currentUser.None? ==> forall i :: 0 <= i < |ts| ==> !Listing(ts, currentUser)[i].hasJoined
  {
    if currentUser.Some? {
      forall i | 0 <= i < |ts|
        ensures Listing(ts, currentUser)[i].hasJoined <==> ts[i] in MyTournaments.JoinedBy(ts, currentUser.value.uid)
      {
        MyTournaments.JoinedByMembers(ts, currentUser.value.uid, ts[i]);
      }
    }
  }

  /** After a join, the listing shows the joined tournament as joined for that user. */
  lemma JoinShowsAsJoined(t: Tournament, user: AuthUser, name: string, joinedAt: string)
    ensures HasJoined(AddParticipant(t, Participant(user.uid, user.email, name, joinedAt)), Some(user))
  {
    AddParticipantSpec(t, Participant(user.uid, user.email, name, joinedAt));
  }

  /** `statusOrder`: upcoming 0, live 1, completed 2. Other values have no order in the source; they rank last here. */
  function StatusRank(s: Status): nat {
    match s
    case Upcoming => 0
    case Live => 1
    case Completed => 2
    case Unknown => 3
  }

  function RankOf(l: Listed): nat {
    StatusRank(l.tournament.status)
  }

  /** The listed tournaments of one rank, in their original order. */
  function WithRank(ls: seq<Listed>, r: nat): (rs: seq<Listed>)
    ensures |rs| <= |ls|
  {
    if ls == [] then []
    else (if RankOf(ls[0]) == r then [ls[0]] else []) + WithRank(ls[1..], r)
  }

  /** The pick of rank `r` holds tournaments of rank `r` only. */
  lemma {:induction false} WithRankRanks(ls: seq<Listed>, r: nat)
    ensures forall i :: 0 <= i < |WithRank(ls, r)| ==> RankOf(WithRank(ls, r)[i]) == r
    decreases |ls|
  {
    if ls != [] {
      WithRankRanks(ls[1..], r);
    }
  }

  /**
   * The order the page's `sort` produces: upcoming, then live, then completed
   * (then any other status), and within one status the order of the snapshot,
   * since `Array.prototype.sort` is stable.
   */
  function ByStatus(ls: seq<Listed>): seq<Listed> {
    WithRank(ls, 0) + WithRank(ls, 1) + WithRank(ls, 2) + WithRank(ls, 3)
  }

  lemma {:induction false} WithRankSnoc(ls: seq<Listed>, l: Listed, r: nat)
    ensures WithRank(ls + [l], r) == WithRank(ls, r) + (if RankOf(l) == r then [l] else [])
    decreases |ls|
  {
    if ls != [] {
      assert (ls + [l])[1..] == ls[1..] + [l];
      WithRankSnoc(ls[1..], l, r);
    } else {
      assert (ls + [l])[1..] == [];
    }
  }

  lemma {:induction false} WithRankAppend(a: seq<Listed>, b: seq<Listed>, r: nat)
    ensures WithRank(a + b, r) == WithRank(a, r) + WithRank(b, r)
    decreases |a|
  {
    if a != [] {
      assert (a + b)[1..] == a[1..] + b;
      WithRankAppend(a[1..], b, r);
    } else {
      assert a + b == b;
    }
  }

  /** Picking one rank out of a list of that rank keeps it whole; picking another gives nothing. */
  lemma {:induction false} WithRankOfRank(ls: seq<Listed>, r: nat, q: nat)
    ensures WithRank(WithRank(ls, r), q) == if q == r then WithRank(ls, r) else []
    decreases |ls|
  {
    if ls != [] {
      WithRankOfRank(ls[1..], r, q);
      var head := if RankOf(ls[0]) == r then [ls[0]] else [];
      WithRankAppend(head, WithRank(ls[1..], r), q);
      if head != [] {
        assert head[1..] == [];
      }
    }
  }

  /** A listed tournament occurs in the pick of its own rank as often as in the whole list, and in no other pick. */
  lemma {:induction false} WithRankCount(ls: seq<Listed>, x: Listed, q: nat)
    ensures multiset(WithRank(ls, q))[x] == if RankOf(x) == q then multiset(ls)[x] else 0
    decreases |ls|
  {
    if ls != [] {
      WithRankCount(ls[1..], x, q);
      assert ls == [ls[0]] + ls[1..];
    }
  }

  /** Every listed tournament has one of the four ranks, so the four picks together are a permutation. */
  lemma RanksPartition(ls: seq<Listed>)
    ensures multiset(ls) ==
      multiset(WithRank(ls, 0)) + multiset(WithRank(ls, 1)) + multiset(WithRank(ls, 2)) + multiset(WithRank(ls, 3))
  {
    var sum :=
      multiset(WithRank(ls, 0)) + multiset(WithRank(ls, 1)) + multiset(WithRank(ls, 2)) + multiset(WithRank(ls, 3));
    forall x
      ensures multiset(ls)[x] == sum[x]
    {
      WithRankCount(ls, x, 0);
      WithRankCount(ls, x, 1);
      WithRankCount(ls, x, 2);
      WithRankCount(ls, x, 3);
    }
  }

  /** The sorted listing is a permutation of the snapshot listing. */
  lemma ByStatusPermutation(ls: seq<Listed>)
    ensures multiset(ByStatus(ls)) == multiset(ls)
    ensures |ByStatus(ls)| == |ls|
  {
    RanksPartition(ls);
    assert |multiset(ByStatus(ls))| == |multiset(ls)|;
  }

  /** Every upcoming comes before every live, every live before every completed: ranks never decrease. */
  lemma ByStatusSorted(ls: seq<Listed>)
    ensures forall i, j :: 0 <= i < j < |ByStatus(ls)| ==> RankOf(ByStatus(ls)[i]) <= RankOf(ByStatus(ls)[j])
  {
    var a, b, c, d := WithRank(ls, 0), WithRank(ls, 1), WithRank(ls, 2), WithRank(ls, 3);
    var s := ByStatus(ls);
    WithRankRanks(ls, 0);
    WithRankRanks(ls, 1);
    WithRankRanks(ls, 2);
    WithRankRanks(ls, 3);
    forall i | 0 <= i < |s|
      ensures RankOf(s[i]) == if i < |a| then 0 else if i < |a| + |b| then 1 else if i < |a| + |b| + |c| then 2 else 3
    {
      if i < |a| {
        assert s[i] == a[i];
      } else if i < |a| + |b| {
        assert s[i] == b[i - |a|];
      } else if i < |a| + |b| + |c| {
        assert s[i] == c[i - |a| - |b|];
      } else {
        assert s[i] == d[i - |a| - |b| - |c|];
      }
    }
  }

  /** Within each status the sort keeps the snapshot order (the sort is stable). */
  lemma ByStatusStable(ls: seq<Listed>, r: nat)
    ensures WithRank(ByStatus(ls), r) == WithRank(ls, r)
  {
    var a, b, c, d := WithRank(ls, 0), WithRank(ls, 1), WithRank(ls, 2), WithRank(ls, 3);
    WithRankAppend(a + b + c, d, r);
    WithRankAppend(a + b, c, r);
    WithRankAppend(a, b, r);
    WithRankOfRank(ls, 0, r);
    WithRankOfRank(ls, 1, r);
    WithRankOfRank(ls, 2, r);
    WithRankOfRank(ls, 3, r);
    if r > 3 {
      NoSuchRank(ls, r);
    }
  }

  lemma {:induction false} NoSuchRank(ls: seq<Listed>, r: nat)
    requires r > 3
    ensures WithRank(ls, r) == []
    decreases |ls|
  {
    if ls != [] {
      NoSuchRank(ls[1..], r);
    }
  }

  /**
   * `tournamentsList.sort(...)` in place: one pass gathers each status in
   * order, a second writes them back upcoming first.
   */
  method SortByStatus(a: array<Listed>)
    modifies a
    ensures a[..] == ByStatus(old(a[..]))
  {
    var upcoming, live, completed, other := [], [], [], [];
    var i := 0;
    while i < a.Length
      invariant 0 <= i <= a.Length
      invariant upcoming == WithRank(a[..i], 0) && live == WithRank(a[..i], 1)
      invariant completed == WithRank(a[..i], 2) && other == WithRank(a[..i], 3)
      invariant a[..] == old(a[..])
    {
      var l := a[i];
      assert a[..i + 1] == a[..i] + [l];
      WithRankSnoc(a[..i], l, 0);
      WithRankSnoc(a[..i], l, 1);
      WithRankSnoc(a[..i], l, 2);
      WithRankSnoc(a[..i], l, 3);
      match l.tournament.status {
        case Upcoming => upcoming := upcoming + [l];
        case Live => live := live + [l];
        case Completed => completed := completed + [l];
        case Unknown => other := other + [l];
      }
      i := i + 1;
    }
    assert a[..i] == a[..];
    var sorted := upcoming + live + completed + other;
    ByStatusPermutation(a[..]);
    var j := 0;
    while j < a.Length
      invariant 0 <= j <= a.Length
      invariant |sorted| == a.Length
      invariant sorted == ByStatus(old(a[..]))
      invariant forall k :: 0 <= k < j ==> a[k] == sorted[k]
    {
      a[j] := sorted[j];
      j := j + 1;
    }
    assert a[..] == sorted;
  }

  /**
   * `fetchTournaments`: run the status service (its failure is reported in its
   * result and does not stop the listing), read the collection, flag the
   * tournaments the user joined, and sort by status. `listReadFails` stands for
   * the second `getDocs` throwing, which leaves the page without a new list.
   */
  method FetchTournaments(
    db: Store, currentUser: Option<AuthUser>, now: int, statusReadFails: bool, listReadFails: bool)
    returns (listed: Option<seq<Listed>>)
    requires db.Valid()
    modifies db
    ensures db.Valid() && db.order == old(db.order) && db.users == old(db.users)
    ensures db.tournaments ==
      if statusReadFails then old(db.tournaments) else StatusService.Promote(old(db.tournaments), now)
    ensures listed == if listReadFails then None else Some(ByStatus(Listing(db.Snapshot(), currentUser)))
  {
    var _ := StatusService.CheckAndUpdateTournamentStatuses(db, now, statusReadFails);
    if listReadFails {
      return None;
    }
    var list := Listing(db.Snapshot(), currentUser);
    var a := new Listed[|list|](i requires 0 <= i < |list| => list[i]);
    assert a[..] == list;
    SortByStatus(a);
    listed := Some(a[..]);
  }

  // ---------------------------------------------------------------------------
  // The buttons
  // ---------------------------------------------------------------------------

  /** The card's join button: "Login to Join" (disabled), "Already Joined" (disabled), or "Join Tournament". */
  datatype JoinButton = LoginToJoin | AlreadyJoined | JoinTournament(enabled: bool)

  /** Which join button a card shows, and whether "Join Tournament" is enabled: upcoming and not full. */
  function JoinButtonFor(signedIn: bool, l: Listed): (b: JoinButton)
    ensures b == JoinTournament(true) <==>
      signedIn && !l.hasJoined && l.tournament.status == Upcoming && !IsFull(l.tournament)
  {
    if !signedIn then LoginToJoin
    else if l.hasJoined then AlreadyJoined
    else JoinTournament(l.tournament.status == Upcoming && !IsFull(l.tournament))
  }

  /** The modal's "Confirm & Join" button is enabled when the balance covers the entry fee. */
  function ConfirmEnabled(walletBalance: int, t: Tournament): bool {
    walletBalance >= t.entryFee
  }

  /**
   * What the buttons add to the handler: a join started from an enabled
   * "Join Tournament" and confirmed with an enabled "Confirm & Join" passes the
   * strengthened checks whenever it passes the username checks, so through the
   * page a user cannot join twice or join a tournament that is not upcoming.
   */
  lemma EnabledButtonsGiveStrictJoin(
    user: AuthUser, t: Tournament, walletBalance: int, username: string, sanitize: string -> string)
    requires JoinButtonFor(true, Listed(t, HasJoined(t, Some(user)))) == JoinTournament(true)
    requires ConfirmEnabled(walletBalance, t)
    requires var name := sanitize(Trim(username));
      Trim(username) != [] && 3 <= |name| <= 20 && MatchesNamePattern(name)
    ensures ValidateJoin(walletBalance, t, username, sanitize).Ok?
    ensures ValidateJoinStrict(walletBalance, t, user.uid, username, sanitize).Ok?
  {
  }
}
