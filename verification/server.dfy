/** The route handlers of the quiz server as pure functions over the store.
    Every route but signup takes the caller's identity (already resolved
    from the access token, `None` when that failed). Signup and submission
    write to the store and return their outcome with the store they leave
    behind; the other routes only read it and return a bare `Result`. Clock
    readings, the shuffle and the store's key order are parameters. */
module Server {
  import opened Common
  import opened QuestionBank
  import opened Scoring
  import opened Users
  import opened Eligibility
  import opened Leaderboard

  datatype ApiError =
    | MissingSignupFields   // signup without name, email or password
    | SignupRejected        // the identity provider refused the new account
    | Unauthorized          // no user behind the access token
    | UserDataNotFound      // no stored record for the caller
    | AlreadyAttemptedToday // question fetch on a day already used
    | InvalidAnswersFormat  // submission whose `answers` is not an array

  /** A route's result and the store after it. */
  datatype Response<T> = Response(result: Result<T, ApiError>, store: Store)

  /** Creates the record of a new account. `created` is the identity
      provider's answer to the account request: the new user's id, or
      `None` when it refused (an email already registered, say). An empty
      string stands for a missing field. */
  function SignUp(store: Store, name: string, email: string, password: string,
                  membershipType: string, created: Option<string>, now: int): (r: Response<UserRecord>)
    ensures r.result.Failure? ==> r.store == store
    ensures name == [] || email == [] || password == [] ==> r.result == Failure(MissingSignupFields)
    ensures name != [] && email != [] && password != [] && created.None? ==>
              r.result == Failure(SignupRejected)
    ensures name != [] && email != [] && password != [] && created.Some? ==>
              && r.result.Success?
              && r.store == store[UserKey(created.value) := r.result.value]
              && r.result.value.id == created.value
              && r.result.value.score == 0 && r.result.value.xp == 0
              && r.result.value.badges == [] && r.result.value.lastQuizAt.None?
              && r.result.value == NewUser(created.value, name, email, membershipType, now)
  {
    if name == [] || email == [] || password == [] then
      Response(Failure(MissingSignupFields), store)
    else
      match created
      case None => Response(Failure(SignupRejected), store)
      case Some(id) =>
        var u := NewUser(id, name, email, membershipType, now);
        Response(Success(u), store[UserKey(id) := u])
  }

  /** What the eligibility route reports. */
  datatype Standing = CanTake | AlreadyTaken(lastAttempt: int)

  function CheckEligibility(store: Store, caller: Option<string>, now: int, tzOffset: int)
    : (r: Result<Standing, ApiError>)
    ensures caller.None? ==> r == Failure(Unauthorized)
    ensures caller.Some? && UserKey(caller.value) !in store ==> r == Failure(UserDataNotFound)
    ensures caller.Some? && UserKey(caller.value) in store ==>
              && r.Success?
              && (r.value == CanTake <==> CanTakeQuiz(store[UserKey(caller.value)].lastQuizAt, now, tzOffset))
              && (r.value.AlreadyTaken? ==> Some(r.value.lastAttempt) == store[UserKey(caller.value)].lastQuizAt)
  {
    match caller
    case None => Failure(Unauthorized)
    case Some(id) =>
      if UserKey(id) !in store then Failure(UserDataNotFound)
      else
        var u := store[UserKey(id)];
        if u.lastQuizAt.Some? && DayOf(u.lastQuizAt.value, tzOffset) == DayOf(now, tzOffset) then
          Success(AlreadyTaken(u.lastQuizAt.value))
        else
          Success(CanTake)
  }

  /** Hands out the shuffled, key-free questions unless the caller already
      attempted today. A caller without a stored record is not refused. */
  function FetchQuestions(store: Store, caller: Option<string>, now: int, tzOffset: int, order: seq<int>)
    : (r: Result<seq<PublicQuestion>, ApiError>)
    requires IsShuffle(order, |Bank|)
    ensures caller.None? ==> r == Failure(Unauthorized)
    ensures caller.Some? ==>
              (r.Failure? <==> UserKey(caller.value) in store
                               && !CanTakeQuiz(store[UserKey(caller.value)].lastQuizAt, now, tzOffset))
    ensures r.Failure? && caller.Some? ==> r.error == AlreadyAttemptedToday
    ensures r.Success? ==> |r.value| == 10 && forall k :: 0 <= k < |Bank| ==> Strip(Bank[k]) in r.value
  {
    BankLayout();
    match caller
    case None => Failure(Unauthorized)
    case Some(id) =>
      if UserKey(id) in store && !CanTakeQuiz(store[UserKey(id)].lastQuizAt, now, tzOffset) then
        Failure(AlreadyAttemptedToday)
      else
        Success(Distribute(Bank, order))
  }

  /** The body of a successful submission. */
  datatype SubmitReply = SubmitReply(attempt: Attempt, user: Option<UserRecord>)

  /** Grades a submission and folds it into the caller's record. The daily
      gate is not consulted here, and a caller without a record still gets
      the grade, with no user, and nothing is written. */
  function SubmitQuiz(store: Store, caller: Option<string>, answers: Option<seq<Answer>>,
                      timeSpent: Option<int>, now: int): (r: Response<SubmitReply>)
    ensures r.result.Failure? ==> r.store == store
    ensures caller.None? ==> r.result == Failure(Unauthorized)
    ensures caller.Some? && answers.None? ==> r.result == Failure(InvalidAnswersFormat)
    ensures caller.Some? && answers.Some? ==>
              && r.result.Success?
              && r.result.value.attempt == Evaluate(Bank, answers.value, timeSpent)
    ensures r.result.Success? && UserKey(caller.value) in store ==>
              var v := ApplyAttempt(store[UserKey(caller.value)], r.result.value.attempt, now, timeSpent);
              r.store == store[UserKey(caller.value) := v] && r.result.value.user == Some(v)
    ensures r.result.Success? && UserKey(caller.value) !in store ==>
              r.store == store && r.result.value.user.None?
  {
    match caller
    case None => Response(Failure(Unauthorized), store)
    case Some(id) =>
      match answers
      case None => Response(Failure(InvalidAnswersFormat), store)
      case Some(sheet) =>
        var attempt := Evaluate(Bank, sheet, timeSpent);
        var key := UserKey(id);
        if key in store then
          var v := ApplyAttempt(store[key], attempt, now, timeSpent);
          Response(Success(SubmitReply(attempt, Some(v))), store[key := v])
        else
          Response(Success(SubmitReply(attempt, None)), store)
  }

  /** An order in which reading all `user:` keys may visit the store:
      every key exactly once. */
  predicate KeyOrder(keys: seq<string>, store: Store) {
    && NoDuplicates(keys)
    && (forall k :: k in keys ==> k in store)
    && (forall k :: k in store ==> k in keys)
  }

  /** `getByPrefix("user:")`: the record under each key, in key order. */
  function Listing(store: Store, keys: seq<string>): (l: seq<UserRecord>)
    requires KeyOrder(keys, store)
    ensures |l| == |keys|
    ensures forall i :: 0 <= i < |l| ==> l[i] == store[keys[i]]
    ensures forall k :: k in store ==> store[k] in l
  {
    var l := seq(|keys|, i requires 0 <= i < |keys| => store[keys[i]]);
    forall k | k in store
      ensures store[k] in l
    {
      var i :| 0 <= i < |keys| && keys[i] == k;
      assert l[i] == store[k];
    }
    l
  }

  /** The leaderboard route over the store's records, read in key order
      `keys`. */
  function GetLeaderboard(store: Store, caller: Option<string>, keys: seq<string>)
    : (r: Result<seq<Entry>, ApiError>)
    requires KeyOrder(keys, store)
    ensures caller.None? <==> r == Failure(Unauthorized)
    ensures r.Success? ==> r.value == Standings(Listing(store, keys))
    ensures r.Success? ==> forall i :: 0 <= i < |r.value| ==>
              exists k :: k in store && store[k].score > 0 && r.value[i] == ToEntry(i + 1, store[k])
  {
    match caller
    case None => Failure(Unauthorized)
    case Some(_) =>
      var listing := Listing(store, keys);
      var rows := Standings(listing);
      forall i | 0 <= i < |rows|
        ensures exists k :: k in store && store[k].score > 0 && rows[i] == ToEntry(i + 1, store[k])
      {
        var u := Ranked(listing)[i];
        assert u in Ranked(listing);
        RankedMembers(listing, u);
        var j :| 0 <= j < |listing| && listing[j] == u;
        assert store[keys[j]] == u;
      }
      Success(rows)
  }

  /** Every stored record with a positive best score has a row, and no other
      stored record has one. */
  lemma LeaderboardShowsScorers(store: Store, caller: string, keys: seq<string>)
    requires KeyOrder(keys, store)
    ensures forall k :: k in store ==>
              ((exists i :: 0 <= i < |GetLeaderboard(store, Some(caller), keys).value| &&
                            GetLeaderboard(store, Some(caller), keys).value[i] == ToEntry(i + 1, store[k]))
               <==> store[k].score > 0)
  {
    var listing := Listing(store, keys);
    var rows := GetLeaderboard(store, Some(caller), keys).value;
    forall k | k in store
      ensures (exists i :: 0 <= i < |rows| && rows[i] == ToEntry(i + 1, store[k])) <==> store[k].score > 0
    {
      var u := store[k];
      RankedMembers(listing, u);
      if u.score > 0 {
        var i :| 0 <= i < |Ranked(listing)| && Ranked(listing)[i] == u;
        assert rows[i] == ToEntry(i + 1, u);
      }
    }
  }

  // ----- properties across routes -----

  /** The question route refuses exactly those callers the eligibility
      route reports as having already taken today's quiz; a caller with no
      record is refused by the eligibility route but gets questions. */
  lemma FetchAgreesWithCheck(store: Store, id: string, now: int, tzOffset: int, order: seq<int>)
    requires IsShuffle(order, |Bank|)
    ensures UserKey(id) in store ==>
              (FetchQuestions(store, Some(id), now, tzOffset, order).Failure? <==>
               CheckEligibility(store, Some(id), now, tzOffset).value.AlreadyTaken?)
    ensures UserKey(id) !in store ==>
              CheckEligibility(store, Some(id), now, tzOffset) == Failure(UserDataNotFound) &&
              FetchQuestions(store, Some(id), now, tzOffset, order).Success?
  {
  }

  /** Every submission, accepted or not, keeps each stored record valid,
      never lowers a best score or an XP total, never drops a badge or
      reorders held badges, and never adds or removes a key. */
  lemma SubmitMonotone(store: Store, caller: Option<string>, answers: Option<seq<Answer>>,
                       timeSpent: Option<int>, now: int)
    requires ValidStore(store)
    ensures var r := SubmitQuiz(store, caller, answers, timeSpent, now);
            && ValidStore(r.store)
            && r.store.Keys == store.Keys
            && forall k :: k in store ==>
                 && r.store[k].score >= store[k].score
                 && r.store[k].xp >= store[k].xp
                 && |store[k].badges| <= |r.store[k].badges|
                 && r.store[k].badges[..|store[k].badges|] == store[k].badges
  {
    var r := SubmitQuiz(store, caller, answers, timeSpent, now);
    if r.result.Success? && UserKey(caller.value) in store {
      var key := UserKey(caller.value);
      var a := r.result.value.attempt;
      BankWellFormed();
      assert a.xpEarned >= 0;
      ApplyAttemptKeepsValid(store[key], a, now, timeSpent);
    }
  }

  /** The daily limit is not enforced at submission: a caller who already
      attempted today is graded and recorded all the same. */
  lemma SubmitIgnoresGate(store: Store, id: string, sheet: seq<Answer>,
                          timeSpent: Option<int>, now: int, tzOffset: int)
    requires UserKey(id) in store
    requires CheckEligibility(store, Some(id), now, tzOffset).value.AlreadyTaken?
    ensures var r := SubmitQuiz(store, Some(id), Some(sheet), timeSpent, now);
            r.result.Success? && r.store[UserKey(id)].lastQuizAt == Some(now)
  {
  }

  /** After a recorded submission at `now`, the caller is reported as having
      taken the quiz until the next local midnight, and eligible from then
      on. */
  lemma {:induction false} SubmitClosesTheDay(store: Store, id: string, sheet: seq<Answer>,
                                              timeSpent: Option<int>, now: int, later: int, tzOffset: int)
    requires UserKey(id) in store
    requires now <= later
    ensures var s := SubmitQuiz(store, Some(id), Some(sheet), timeSpent, now).store;
            CheckEligibility(s, Some(id), later, tzOffset) ==
              if later < NextMidnight(now, tzOffset) then Success(AlreadyTaken(now)) else Success(CanTake)
  {
    BlockedUntilNextMidnight(now, later, tzOffset);
  }

  /** Coming back for questions later the same local day after a recorded
      submission is refused; from the next local midnight it is allowed. */
  lemma SecondFetchSameDayRefused(store: Store, id: string, sheet: seq<Answer>, timeSpent: Option<int>,
                                  now: int, later: int, tzOffset: int, order: seq<int>)
    requires UserKey(id) in store
    requires now <= later
    requires IsShuffle(order, |Bank|)
    ensures var s := SubmitQuiz(store, Some(id), Some(sheet), timeSpent, now).store;
            FetchQuestions(s, Some(id), later, tzOffset, order) ==
              if later < NextMidnight(now, tzOffset) then Failure(AlreadyAttemptedToday)
              else Success(Distribute(Bank, order))
  {
    BlockedUntilNextMidnight(now, later, tzOffset);
  }

  /** After a recorded submission that scores, the caller's record has a
      row on the leaderboard read from the store that submission leaves,
      because a best score never drops. */
  lemma ScorerJoinsLeaderboard(store: Store, id: string, sheet: seq<Answer>, timeSpent: Option<int>,
                               now: int, viewer: string, keys: seq<string>)
    requires UserKey(id) in store
    requires RawScore(Bank, sheet) > 0
    requires KeyOrder(keys, store)
    ensures var s := SubmitQuiz(store, Some(id), Some(sheet), timeSpent, now).store;
            && KeyOrder(keys, s)
            && var rows := GetLeaderboard(s, Some(viewer), keys).value;
               exists i :: 0 <= i < |rows| && rows[i] == ToEntry(i + 1, s[UserKey(id)])
  {
    var s := SubmitQuiz(store, Some(id), Some(sheet), timeSpent, now).store;
    assert s.Keys == store.Keys;
    LeaderboardShowsScorers(s, viewer, keys);
  }

  /** A freshly signed-up user may take the quiz at once and is not on the
      leaderboard. */
  lemma NewUserEligibleAndUnranked(store: Store, name: string, email: string, password: string,
                                   membershipType: string, newId: string, now: int,
                                   later: int, tzOffset: int, listing: seq<UserRecord>)
    requires name != [] && email != [] && password != []
    ensures var r := SignUp(store, name, email, password, membershipType, Some(newId), now);
            && CheckEligibility(r.store, Some(newId), later, tzOffset) == Success(CanTake)
            && r.result.value !in Ranked(listing)
  {
    var u := SignUp(store, name, email, password, membershipType, Some(newId), now).result.value;
    RankedMembers(listing, u);
  }
}
