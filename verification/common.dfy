/** Shared vocabulary: optional values, results of route handlers, and the
    order-preserving duplicate removal that spreading a JavaScript `Set`
    performs (`[...new Set(xs)]`). */
module Common {

  /** A value that may be absent (`undefined` / `null` in the server). */
  datatype Option<+T> = None | Some(value: T) {

    /** The value if present, otherwise `default` (the `a || b` fallback). */
    function GetOr(default: T): T {
      match this
      case Some(v) => v
      case None => default
    }
  }

  /** Either the payload of a successful route or the error it reports. */
  datatype Result<+T, +E> = Success(value: T) | Failure(error: E)

  /** No element occurs twice. */
  predicate NoDuplicates<T(==)>(s: seq<T>) {
    forall i, j :: 0 <= i < j < |s| ==> s[i] != s[j]
  }

  /** Keeps the first occurrence of every element, in order of first
      appearance, exactly as iterating a `Set` built from `s` does. */
  function Dedup<T(==,!new)>(s: seq<T>): (r: seq<T>)
    ensures NoDuplicates(r)
    ensures forall x :: x in r <==> x in s
    ensures |r| <= |s|
  {
    if |s| == 0 then []
    else
      var init := s[..|s| - 1];
      var last := s[|s| - 1];
      assert s == init + [last];
      var p := Dedup(init);
      if last in p then p else p + [last]
  }

  /** Removing duplicates from a duplicate-free sequence changes nothing. */
  lemma {:induction false} DedupOfDistinct<T(!new)>(s: seq<T>)
    requires NoDuplicates(s)
    ensures Dedup(s) == s
  {
    if |s| > 0 {
      var init := s[..|s| - 1];
      assert NoDuplicates(init);
      DedupOfDistinct(init);
      assert s[|s| - 1] !in init;
      assert init + [s[|s| - 1]] == s;
    }
  }

  /** Appending elements never disturbs the already-deduplicated prefix:
      the first occurrences in `a` keep their places at the front. */
  lemma {:induction false} DedupPrefix<T(!new)>(a: seq<T>, b: seq<T>)
    ensures |Dedup(a)| <= |Dedup(a + b)|
    ensures Dedup(a + b)[..|Dedup(a)|] == Dedup(a)
  {
    if |b| == 0 {
      assert a + b == a;
    } else {
      var b' := b[..|b| - 1];
      DedupPrefix(a, b');
      assert (a + b)[..|a + b| - 1] == a + b';
    }
  }

  /** Appending only elements that are already present changes nothing. */
  lemma {:induction false} DedupAbsorbs<T(!new)>(a: seq<T>, b: seq<T>)
    requires NoDuplicates(a)
    requires forall x :: x in b ==> x in a
    ensures Dedup(a + b) == a
  {
    if |b| == 0 {
      assert a + b == a;
      DedupOfDistinct(a);
    } else {
      var b' := b[..|b| - 1];
      DedupAbsorbs(a, b');
      assert (a + b)[..|a + b| - 1] == a + b';
      assert b[|b| - 1] in b;
    }
  }

  /** A duplicate-free `a` survives at the front of `Dedup(a + b)`. */
  lemma DedupKeepsDistinctPrefix<T(!new)>(a: seq<T>, b: seq<T>)
    ensures NoDuplicates(a) ==> |a| <= |Dedup(a + b)| && Dedup(a + b)[..|a|] == a
  {
    DedupPrefix(a, b);
    if NoDuplicates(a) {
      DedupOfDistinct(a);
    }
  }

  /** In a list without repeats every member occurs exactly once. */
  lemma {:induction false} NoDuplicatesCount<T>(s: seq<T>, x: T)
    requires NoDuplicates(s)
    ensures multiset(s)[x] == if x in s then 1 else 0
  {
    if |s| > 0 {
      var init := s[..|s| - 1];
      assert s == init + [s[|s| - 1]];
      NoDuplicatesCount(init, x);
    }
  }

  /** Two lists without repeats that hold the same elements are
      permutations of each other. */
  lemma SameDistinctMembers<T>(s: seq<T>, t: seq<T>)
    requires NoDuplicates(s) && NoDuplicates(t)
    requires forall x :: x in s <==> x in t
    ensures multiset(s) == multiset(t)
  {
    forall x
      ensures multiset(s)[x] == multiset(t)[x]
    {
      NoDuplicatesCount(s, x);
      NoDuplicatesCount(t, x);
    }
  }
}
