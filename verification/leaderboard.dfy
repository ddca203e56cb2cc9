/** The leaderboard: users with a positive best score, ordered by score
    (high first), then XP (high first), then completion time (early first),
    and numbered from 1. */
module Leaderboard {
  import opened Common
  import opened Users

  /** The instant a user is ranked by: the last attempt, or the signup time
      when there is none. */
  function FinishTime(u: UserRecord): int {
    u.lastQuizAt.GetOr(u.createdAt)
  }

  /** `a` may be listed before `b`: the comparator of the leaderboard route
      does not return a positive number for the pair. */
  predicate RanksNoLater(a: UserRecord, b: UserRecord) {
    || a.score > b.score
    || (a.score == b.score && a.xp > b.xp)
    || (a.score == b.score && a.xp == b.xp && FinishTime(a) <= FinishTime(b))
  }

  /** The full sort key; two users with the same key are a full tie. */
  function Key(u: UserRecord): (int, int, int) {
    (u.score, u.xp, FinishTime(u))
  }

  predicate Sorted(s: seq<UserRecord>) {
    forall i, j :: 0 <= i < j < |s| ==> RanksNoLater(s[i], s[j])
  }

  lemma RanksNoLaterTotalPreorder(a: UserRecord, b: UserRecord, c: UserRecord)
    ensures RanksNoLater(a, b) || RanksNoLater(b, a)
    ensures RanksNoLater(a, b) && RanksNoLater(b, c) ==> RanksNoLater(a, c)
    ensures RanksNoLater(a, b) && RanksNoLater(b, a) <==> Key(a) == Key(b)
  {
  }

  /** The users who have scored: `score > 0`, in input order. */
  function Qualified(users: seq<UserRecord>): (r: seq<UserRecord>)
    ensures |r| <= |users|
    ensures forall i :: 0 <= i < |r| ==> r[i].score > 0
  {
    if |users| == 0 then []
    else
      var init := users[..|users| - 1];
      var u := users[|users| - 1];
      var q := Qualified(init);
      if u.score > 0 then q + [u] else q
  }

  /** The filter keeps each scorer as often as it is listed and drops
      everyone else. */
  lemma {:induction false} QualifiedContents(users: seq<UserRecord>)
    ensures forall u :: multiset(Qualified(users))[u] == if u.score > 0 then multiset(users)[u] else 0
  {
    if |users| > 0 {
      var init, last := users[..|users| - 1], users[|users| - 1];
      QualifiedContents(init);
      assert users == init + [last];
      assert multiset(users) == multiset(init) + multiset{last};
      var q := Qualified(init);
      assert Qualified(users) == if last.score > 0 then q + [last] else q;
    }
  }

  /** Places `x` before the first element it may precede. Since `x` comes
      from earlier in the input than every element of `s`, full ties keep
      their input order, as a stable sort does. */
  function Insert(x: UserRecord, s: seq<UserRecord>): (r: seq<UserRecord>)
    requires Sorted(s)
    ensures Sorted(r)
    ensures multiset(r) == multiset(s) + multiset{x}
    ensures |r| == |s| + 1
  {
    if |s| == 0 then [x]
    else if RanksNoLater(x, s[0]) then
      InsertFront(x, s);
      [x] + s
    else
      var t := Insert(x, s[1..]);
      InsertBehind(s[0], x, s[1..], t);
      assert s == [s[0]] + s[1..];
      [s[0]] + t
  }

  lemma InsertFront(x: UserRecord, s: seq<UserRecord>)
    requires Sorted(s)
    requires |s| > 0 && RanksNoLater(x, s[0])
    ensures Sorted([x] + s)
  {
    forall j | 0 <= j < |s|
      ensures RanksNoLater(x, s[j])
    {
      RanksNoLaterTotalPreorder(x, s[0], s[j]);
    }
    var r := [x] + s;
    forall i, j | 0 <= i < j < |r|
      ensures RanksNoLater(r[i], r[j])
    {
      assert r[j] == s[j - 1];
      if i > 0 {
        assert r[i] == s[i - 1];
      }
    }
  }

  lemma InsertBehind(h: UserRecord, x: UserRecord, rest: seq<UserRecord>, t: seq<UserRecord>)
    requires Sorted([h] + rest)
    requires !RanksNoLater(x, h)
    requires Sorted(t)
    requires multiset(t) == multiset(rest) + multiset{x}
    ensures Sorted([h] + t)
  {
    RanksNoLaterTotalPreorder(x, h, x);
    assert RanksNoLater(h, x);
    forall j | 0 <= j < |t|
      ensures RanksNoLater(h, t[j])
    {
      assert t[j] in multiset(t);
      if t[j] != x {
        assert t[j] in multiset(rest);
        var k :| 0 <= k < |rest| && rest[k] == t[j];
        assert ([h] + rest)[0] == h && ([h] + rest)[k + 1] == rest[k];
      }
    }
    var r := [h] + t;
    forall i, j | 0 <= i < j < |r|
      ensures RanksNoLater(r[i], r[j])
    {
      assert r[j] == t[j - 1];
      if i > 0 {
        assert r[i] == t[i - 1];
      }
    }
  }

  /** Insertion sort, from the back of the input. */
  function Sort(s: seq<UserRecord>): (r: seq<UserRecord>)
    ensures Sorted(r)
    ensures multiset(r) == multiset(s)
    ensures |r| == |s|
  {
    if |s| == 0 then []
    else
      assert s == [s[0]] + s[1..];
      Insert(s[0], Sort(s[1..]))
  }

  /** The qualified users in leaderboard order. */
  function Ranked(users: seq<UserRecord>): (r: seq<UserRecord>)
    ensures Sorted(r)
    ensures forall i :: 0 <= i < |r| ==> r[i].score > 0
  {
    var q := Qualified(users);
    var r := Sort(q);
    assert forall i :: 0 <= i < |r| ==> r[i] in multiset(q);
    r
  }

  /** The leaderboard holds every listed user with a positive score, as
      often as listed, and nobody else. */
  lemma RankedContents(users: seq<UserRecord>)
    ensures forall u :: multiset(Ranked(users))[u] == if u.score > 0 then multiset(users)[u] else 0
  {
    QualifiedContents(users);
  }

  /** One row of the leaderboard. */
  datatype Entry = Entry(
    rank: int,
    id: string,
    name: string,
    avatar: string,
    score: int,
    xp: int,
    badges: seq<string>,
    timeSpent: Option<int>)

  /** `timeSpent || null`: a zero or missing time is reported as null. */
  function ReportedTime(t: Option<int>): (r: Option<int>)
    ensures r.Some? <==> t.Some? && t.value != 0
    ensures r.Some? ==> r == t
  {
    if t.Some? && t.value != 0 then t else None
  }

  function ToEntry(rank: int, u: UserRecord): Entry {
    Entry(rank, u.id, u.name, u.avatar, u.score, u.xp, u.badges, ReportedTime(u.timeSpent))
  }

  /** Numbers consecutive rows from `first`, as `map((user, index) => ...)`
      does with `index + 1`. */
  function Number(users: seq<UserRecord>, first: int): (r: seq<Entry>)
    ensures |r| == |users|
    ensures forall i :: 0 <= i < |r| ==> r[i] == ToEntry(first + i, users[i])
  {
    if |users| == 0 then []
    else [ToEntry(first, users[0])] + Number(users[1..], first + 1)
  }

  /** The leaderboard rows for a snapshot of all stored users. */
  function Standings(users: seq<UserRecord>): (r: seq<Entry>)
    ensures |r| == |Ranked(users)|
    ensures forall i :: 0 <= i < |r| ==> r[i].rank == i + 1
    ensures forall i :: 0 <= i < |r| ==> r[i] == ToEntry(i + 1, Ranked(users)[i])
    ensures forall i :: 0 <= i < |r| ==> r[i].score > 0
    ensures forall i, j :: 0 <= i < j < |r| ==>
              r[i].score > r[j].score || (r[i].score == r[j].score && r[i].xp >= r[j].xp)
  {
    var ranked := Ranked(users);
    var r := Number(ranked, 1);
    EntriesOrdered(ranked, r);
    r
  }

  lemma EntriesOrdered(ranked: seq<UserRecord>, r: seq<Entry>)
    requires Sorted(ranked)
    requires |r| == |ranked|
    requires forall i :: 0 <= i < |r| ==> r[i] == ToEntry(i + 1, ranked[i])
    ensures forall i, j :: 0 <= i < j < |r| ==>
              r[i].score > r[j].score || (r[i].score == r[j].score && r[i].xp >= r[j].xp)
  {
    forall i, j | 0 <= i < j < |r|
      ensures r[i].score > r[j].score || (r[i].score == r[j].score && r[i].xp >= r[j].xp)
    {
      assert RanksNoLater(ranked[i], ranked[j]);
    }
  }

  /** Sorting an already sorted list changes nothing; in particular ranking
      the ranked list again returns it unchanged. */
  lemma {:induction false} SortSorted(s: seq<UserRecord>)
    requires Sorted(s)
    ensures Sort(s) == s
  {
    if |s| > 0 {
      assert Sorted(s[1..]);
      SortSorted(s[1..]);
      if |s| > 1 {
        assert RanksNoLater(s[0], s[1..][0]);
      }
      assert [s[0]] + s[1..] == s;
    }
  }

  lemma RankedIdempotent(users: seq<UserRecord>)
    ensures Ranked(Ranked(users)) == Ranked(users)
  {
    var r := Ranked(users);
    assert Qualified(r) == r by {
      QualifiedKeepsScorers(r);
    }
    SortSorted(r);
  }

  /** A stored user is on the leaderboard exactly when their best score is
      positive. */
  lemma RankedMembers(users: seq<UserRecord>, u: UserRecord)
    ensures u in Ranked(users) <==> u in users && u.score > 0
  {
    var r := Ranked(users);
    RankedContents(users);
    assert u in r <==> multiset(r)[u] > 0;
    assert u in users <==> multiset(users)[u] > 0;
  }

  /** Two users on 80 points are ordered by XP, the one on 50 points
      comes last, and the rows are numbered 1, 2, 3. */
  lemma TieOnScoreBrokenByXp(a: UserRecord, b: UserRecord, c: UserRecord)
    requires a.score == 80 && a.xp == 10
    requires b.score == 80 && b.xp == 20
    requires c.score == 50 && c.xp == 5
    ensures Ranked([a, b, c]) == [b, a, c]
    ensures var s := Standings([a, b, c]);
            && |s| == 3
            && s[0].id == b.id && s[0].rank == 1
            && s[1].id == a.id && s[1].rank == 2
            && s[2].id == c.id && s[2].rank == 3
  {
    var listing := [a, b, c];
    var expected := ThreeSorted(a, b, c);
    QualifiedKeepsScorers(listing);
    assert multiset(Qualified(listing)) == multiset(expected);
    RankedDeterminedByDistinctKeys(listing, expected);
    var s := Standings(listing);
    assert s[0] == ToEntry(1, b) && s[1] == ToEntry(2, a) && s[2] == ToEntry(3, c);
  }

  /** The hand-sorted order of the three users above. */
  lemma ThreeSorted(a: UserRecord, b: UserRecord, c: UserRecord) returns (e: seq<UserRecord>)
    requires a.score == 80 && a.xp == 10
    requires b.score == 80 && b.xp == 20
    requires c.score == 50 && c.xp == 5
    ensures e == [b, a, c] && Sorted(e)
    ensures forall i, j :: 0 <= i < j < |e| ==> Key(e[i]) != Key(e[j])
    ensures forall i :: 0 <= i < |e| ==> e[i].score > 0
  {
    e := [b, a, c];
    assert RanksNoLater(b, a) && RanksNoLater(b, c) && RanksNoLater(a, c);
  }

  /** Without full ties the leaderboard order is fixed: when the scorers
      of any listing, sorted by hand with pairwise distinct keys, form
      `expected`, the ranking is exactly `expected`, whatever the listing
      order and whoever else it holds. */
  lemma RankedDeterminedByDistinctKeys(users: seq<UserRecord>, expected: seq<UserRecord>)
    requires multiset(Qualified(users)) == multiset(expected)
    requires Sorted(expected)
    requires forall i, j :: 0 <= i < j < |expected| ==> Key(expected[i]) != Key(expected[j])
    ensures Ranked(users) == expected
  {
    var r := Ranked(users);
    assert r == Sort(Qualified(users));
    assert multiset(r) == multiset(expected);
    SortedKeysUnique(r, expected);
    KeysPinElements(r, expected);
  }

  /** When a list holds the same users as a list whose keys are pairwise
      distinct, position by position agreement on keys fixes every element. */
  lemma KeysPinElements(r: seq<UserRecord>, e: seq<UserRecord>)
    requires multiset(r) == multiset(e) && |r| == |e|
    requires forall i :: 0 <= i < |r| ==> Key(r[i]) == Key(e[i])
    requires forall i, j :: 0 <= i < j < |e| ==> Key(e[i]) != Key(e[j])
    ensures r == e
  {
    forall i | 0 <= i < |r|
      ensures r[i] == e[i]
    {
      assert r[i] in multiset(e);
    }
  }

  /** Filtering a list that holds only scorers changes nothing. */
  lemma {:induction false} QualifiedKeepsScorers(s: seq<UserRecord>)
    requires forall i :: 0 <= i < |s| ==> s[i].score > 0
    ensures Qualified(s) == s
  {
    if |s| > 0 {
      var init, last := s[..|s| - 1], s[|s| - 1];
      assert forall i :: 0 <= i < |init| ==> init[i] == s[i];
      QualifiedKeepsScorers(init);
      assert last.score > 0;
      assert Qualified(s) == Qualified(init) + [last];
      assert init + [last] == s;
    }
  }

  /** The order the store lists users in decides only how full ties are
      broken: any two listings of the same users give leaderboards with the
      same sort key at every position. */
  lemma RankingUpToTies(a: seq<UserRecord>, b: seq<UserRecord>)
    requires multiset(a) == multiset(b)
    ensures |Ranked(a)| == |Ranked(b)|
    ensures forall i :: 0 <= i < |Ranked(a)| ==> Key(Ranked(a)[i]) == Key(Ranked(b)[i])
  {
    var ra, rb := Ranked(a), Ranked(b);
    RankedContents(a);
    RankedContents(b);
    assert multiset(ra) == multiset(rb) by {
      forall u
        ensures multiset(ra)[u] == multiset(rb)[u]
      {
      }
    }
    SortedKeysUnique(ra, rb);
  }

  /** Two sorted lists holding the same users agree on the key at every
      position. */
  lemma {:induction false} SortedKeysUnique(s: seq<UserRecord>, t: seq<UserRecord>)
    requires Sorted(s) && Sorted(t)
    requires multiset(s) == multiset(t)
    ensures |s| == |t|
    ensures forall i :: 0 <= i < |s| ==> Key(s[i]) == Key(t[i])
  {
    assert |s| == |multiset(s)| == |multiset(t)| == |t|;
    if |s| > 0 {
      var j := HeadKeysAgree(s, t);
      var t' := RemoveAt(t, j);
      var s' := SortedTail(s);
      SortedKeysUnique(s', t');
      forall i | 0 < i < |s|
        ensures Key(s[i]) == Key(t[i])
      {
        assert Key(s'[i - 1]) == Key(t'[i - 1]);
      }
    }
  }

  /** The tail of a sorted list is sorted and holds the other users. */
  lemma SortedTail(s: seq<UserRecord>) returns (s': seq<UserRecord>)
    requires Sorted(s) && |s| > 0
    ensures s' == s[1..] && Sorted(s')
    ensures multiset(s') == multiset(s) - multiset{s[0]}
    ensures forall i :: 0 < i < |s| ==> s'[i - 1] == s[i]
  {
    s' := s[1..];
    assert s == [s[0]] + s';
  }

  /** The heads of two sorted lists of the same users have the same key, and
      the head of the first sits at a position `j` of the second that only
      elements with that key precede. */
  lemma HeadKeysAgree(s: seq<UserRecord>, t: seq<UserRecord>) returns (j: int)
    requires Sorted(s) && Sorted(t)
    requires multiset(s) == multiset(t)
    requires |s| > 0
    ensures 0 <= j < |t| && t[j] == s[0]
    ensures Key(s[0]) == Key(t[0])
    ensures forall i :: 0 <= i <= j ==> Key(t[i]) == Key(t[0])
  {
    assert s[0] in multiset(t);
    j :| 0 <= j < |t| && t[j] == s[0];
    assert t[0] in multiset(s);
    var k :| 0 <= k < |s| && s[k] == t[0];
    RanksNoLaterTotalPreorder(s[0], t[0], s[0]);
    if k > 0 {
      assert RanksNoLater(s[0], s[k]);
    }
    if j > 0 {
      assert RanksNoLater(t[0], t[j]);
    }
    forall i | 0 <= i <= j
      ensures Key(t[i]) == Key(t[0])
    {
      if 0 < i < j {
        assert RanksNoLater(t[0], t[i]) && RanksNoLater(t[i], t[j]);
        RanksNoLaterTotalPreorder(t[i], t[j], t[0]);
        RanksNoLaterTotalPreorder(t[0], t[i], t[j]);
      }
    }
  }

  /** Removing the element at position `j` of a sorted list whose prefix up
      to `j` shares one key: what remains is sorted, holds the other users,
      and each remaining position keeps the key it had. */
  lemma RemoveAt(t: seq<UserRecord>, j: int) returns (t': seq<UserRecord>)
    requires Sorted(t)
    requires 0 <= j < |t|
    requires forall i :: 0 <= i <= j ==> Key(t[i]) == Key(t[0])
    ensures Sorted(t')
    ensures multiset(t') == multiset(t) - multiset{t[j]}
    ensures |t'| == |t| - 1
    ensures forall i :: 0 < i < |t| ==> Key(t'[i - 1]) == Key(t[i])
  {
    t' := t[..j] + t[j + 1..];
    assert t == t[..j] + [t[j]] + t[j + 1..];
    CutIndex(t, j);
    CutSorted(t, j, t');
    CutKeys(t, j, t');
  }

  lemma CutSorted(t: seq<UserRecord>, j: int, t': seq<UserRecord>)
    requires Sorted(t)
    requires 0 <= j < |t| && |t'| == |t| - 1
    requires forall p :: 0 <= p < |t'| ==> t'[p] == t[Skip(p, j)]
    ensures Sorted(t')
  {
    forall p, q | 0 <= p < q < |t'|
      ensures RanksNoLater(t'[p], t'[q])
    {
      assert RanksNoLater(t[Skip(p, j)], t[Skip(q, j)]);
    }
  }

  lemma CutKeys(t: seq<UserRecord>, j: int, t': seq<UserRecord>)
    requires 0 <= j < |t| && |t'| == |t| - 1
    requires forall p :: 0 <= p < |t'| ==> t'[p] == t[Skip(p, j)]
    requires forall i :: 0 <= i <= j ==> Key(t[i]) == Key(t[0])
    ensures forall i :: 0 < i < |t| ==> Key(t'[i - 1]) == Key(t[i])
  {
    forall i | 0 < i < |t|
      ensures Key(t'[i - 1]) == Key(t[i])
    {
      assert t'[i - 1] == t[Skip(i - 1, j)];
    }
  }

  /** The position in the original list of position `p` after dropping
      position `j`. */
  function Skip(p: int, j: int): int {
    if p < j then p else p + 1
  }

  lemma CutIndex(t: seq<UserRecord>, j: int)
    requires 0 <= j < |t|
    ensures |t[..j] + t[j + 1..]| == |t| - 1
    ensures forall p :: 0 <= p < |t| - 1 ==> (t[..j] + t[j + 1..])[p] == t[Skip(p, j)]
  {
  }
}
