/** The stored user record: how signup creates it and how a graded attempt
    is folded into it. */
module Users {
  import opened Common
  import opened Scoring

  /** A user as stored under `user:<id>`. Timestamps are milliseconds since
      the epoch; `lastQuizAt` and `timeSpent` are absent until the first
      submission. */
  datatype UserRecord = UserRecord(
    id: string,
    name: string,
    email: string,
    membershipType: string,
    avatar: string,
    xp: int,
    score: int,
    badges: seq<string>,
    createdAt: int,
    lastQuizAt: Option<int>,
    timeSpent: Option<int>)

  /** The key-value store, restricted to user records. */
  type Store = map<string, UserRecord>

  function UserKey(id: string): string {
    "user:" + id
  }

  const DefaultMembership := "non-ieee-member"
  const AvatarBase := "https://api.dicebear.com/7.x/avataaars/svg?seed="

  /** What every stored record satisfies: non-negative totals and a badge
      list without repeats. */
  predicate Valid(u: UserRecord) {
    u.score >= 0 && u.xp >= 0 && NoDuplicates(u.badges)
  }

  predicate ValidStore(store: Store) {
    forall k :: k in store ==> Valid(store[k])
  }

  /** The record written at signup. An empty membership type (the value was
      missing or blank) falls back to the default. */
  function NewUser(id: string, name: string, email: string, membershipType: string, createdAt: int)
    : (u: UserRecord)
    ensures Valid(u)
    ensures u.score == 0 && u.xp == 0 && u.badges == []
    ensures u.lastQuizAt.None? && u.timeSpent.None?
    ensures u.id == id && u.name == name && u.email == email && u.createdAt == createdAt
    ensures |u.membershipType| > 0
    ensures membershipType != [] ==> u.membershipType == membershipType
    ensures membershipType == [] ==> u.membershipType == DefaultMembership
    ensures u.avatar == AvatarBase + name && u.avatar[|AvatarBase|..] == name
  {
    UserRecord(
      id, name, email,
      if membershipType != [] then membershipType else DefaultMembership,
      AvatarBase + name,
      0, 0, [], createdAt, None, None)
  }

  /** The badge list after an attempt: old badges first, then the newly
      earned ones not already held, without repeats. */
  function MergeBadges(held: seq<string>, earned: seq<string>): (r: seq<string>)
    ensures NoDuplicates(r)
    ensures forall b :: b in r <==> b in held || b in earned
    ensures NoDuplicates(held) ==> |held| <= |r| && r[..|held|] == held
  {
    DedupKeepsDistinctPrefix(held, earned);
    Dedup(held + earned)
  }

  /** Folds a graded attempt into a record at time `now`. */
  function ApplyAttempt(u: UserRecord, a: Attempt, now: int, timeSpent: Option<int>): (v: UserRecord)
    ensures v.score >= u.score && v.score >= a.score
    ensures v.score == u.score || v.score == a.score
    ensures v.xp == u.xp + a.xpEarned
    ensures forall b :: b in v.badges <==> b in u.badges || b in a.earnedBadges
    ensures NoDuplicates(v.badges)
    ensures NoDuplicates(u.badges) ==> |u.badges| <= |v.badges| && v.badges[..|u.badges|] == u.badges
    ensures v.lastQuizAt == Some(now) && v.timeSpent == timeSpent
    ensures v == u.(score := v.score, xp := v.xp, badges := v.badges,
                    lastQuizAt := v.lastQuizAt, timeSpent := v.timeSpent)
  {
    u.(score := if u.score >= a.score then u.score else a.score,
       xp := u.xp + a.xpEarned,
       badges := MergeBadges(u.badges, a.earnedBadges),
       lastQuizAt := Some(now),
       timeSpent := timeSpent)
  }

  /** A record stays valid after any attempt that earns no negative XP. */
  lemma ApplyAttemptKeepsValid(u: UserRecord, a: Attempt, now: int, timeSpent: Option<int>)
    requires Valid(u)
    requires a.xpEarned >= 0
    ensures Valid(ApplyAttempt(u, a, now, timeSpent))
  {
  }

  /** Earning only badges already held leaves the badge list as it was. */
  lemma ReearnedBadgesChangeNothing(u: UserRecord, a: Attempt, now: int, timeSpent: Option<int>)
    requires Valid(u)
    requires forall b :: b in a.earnedBadges ==> b in u.badges
    ensures ApplyAttempt(u, a, now, timeSpent).badges == u.badges
  {
    DedupAbsorbs(u.badges, a.earnedBadges);
  }
}
