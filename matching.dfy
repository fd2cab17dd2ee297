/** The match ranker: the body of the `/match` handler. For the logged-in
    user it scores every other user by how many skills each side offers that
    the other wants, keeps the users with a positive score and sorts them by
    score, highest first, ties in input order. */
module Matching {
  import opened Wrappers
  import opened Text
  import opened Skills

  /** The columns of a `users` row that matchmaking reads; both skill fields
      may be NULL. */
  datatype User = User(id: int, skillsOffered: Option<string>, skillsWanted: Option<string>)

  /** One element of the `matches` list: the candidate, the skills they offer
      that the user wants, the skills they want that the user offers (both
      sorted), and the score. */
  datatype MatchEntry = MatchEntry(user: User, offerMatch: seq<string>, wantMatch: seq<string>, score: nat)

  // ---------------------------------------------------------------------
  // sorted(list(s)) for a set of strings

  /** Strictly ascending in Python's string order (so also free of
      duplicates). */
  predicate Ascending(xs: seq<string>) {
    forall i, j :: 0 <= i < j < |xs| ==> Less(xs[i], xs[j])
  }

  lemma AscendingCons(y: string, ys: seq<string>)
    requires Ascending(ys)
    requires forall z :: z in ys ==> Less(y, z)
    ensures Ascending([y] + ys)
  {
    var r := [y] + ys;
    forall i, j | 0 <= i < j < |r| ensures Less(r[i], r[j]) {
      if i == 0 { assert r[j] == ys[j - 1] && r[j] in ys; }
      else { assert r[i] == ys[i - 1] && r[j] == ys[j - 1]; }
    }
  }

  /** Placing `x` into an ascending list that does not hold it yet keeps the
      list ascending and adds exactly `x`. */
  function Insert(xs: seq<string>, x: string): (r: seq<string>)
    requires Ascending(xs) && x !in xs
    ensures |r| == |xs| + 1 && Ascending(r)
    ensures forall y :: y in r <==> y in xs || y == x
    decreases |xs|
  {
    if xs == [] then
      [x]
    else if Less(x, xs[0]) then
      assert forall z :: z in xs ==> Less(x, z) by {
        forall z | z in xs ensures Less(x, z) {
          var j :| 0 <= j < |xs| && xs[j] == z;
          if j > 0 { LessTransitive(x, xs[0], z); }
        }
      }
      AscendingCons(x, xs);
      [x] + xs
    else
      LessTotal(x, xs[0]);
      var rest := Insert(xs[1..], x);
      assert forall z :: z in rest ==> Less(xs[0], z) by {
        forall z | z in rest ensures Less(xs[0], z) {
          if z != x {
            var j :| 0 <= j < |xs[1..]| && xs[1..][j] == z;
            assert xs[j + 1] == z;
          }
        }
      }
      AscendingCons(xs[0], rest);
      [xs[0]] + rest
  }

  /** `sorted(list(s))`: the elements of `s`, each once, in ascending
      order. */
  method SortedList(s: set<string>) returns (r: seq<string>)
    ensures Ascending(r) && Elems(r) == s && |r| == |s|
  {
    r := [];
    var rest := s;
    while rest != {}
      invariant Ascending(r)
      invariant Elems(r) + rest == s && Elems(r) !! rest
      invariant |r| + |rest| == |s|
      decreases |rest|
    {
      var x :| x in rest;
      r := Insert(r, x);
      rest := rest - {x};
    }
  }

  /** Some ascending list holds exactly the elements of `s`. */
  lemma SortedExists(s: set<string>)
    ensures exists r :: Ascending(r) && Elems(r) == s
    decreases |s|
  {
    if s == {} {
      assert Ascending([]) && Elems([]) == s;
    } else {
      var x :| x in s;
      SortedExists(s - {x});
      var r :| Ascending(r) && Elems(r) == s - {x};
      var r' := Insert(r, x);
      forall y ensures y in Elems(r') <==> y in s {
        assert y in Elems(r) <==> y in r;
      }
    }
  }

  /** The head of an ascending list is below everything in its tail, so
      not in it. */
  lemma HeadBelowTail(a: seq<string>)
    requires Ascending(a) && a != []
    ensures forall z :: z in a[1..] ==> Less(a[0], z)
    ensures a[0] !in a[1..]
  {
    forall z | z in a[1..] ensures Less(a[0], z) {
      var i :| 0 <= i < |a[1..]| && a[1..][i] == z;
      assert a[i + 1] == z;
    }
    LessIrreflexive(a[0]);
  }

  /** An ascending list has as many elements as its set. */
  lemma {:induction false} AscendingDistinct(a: seq<string>)
    requires Ascending(a)
    ensures |Elems(a)| == |a|
    decreases |a|
  {
    if a != [] {
      HeadBelowTail(a);
      assert Ascending(a[1..]) by {
        forall i, j | 0 <= i < j < |a[1..]| ensures Less(a[1..][i], a[1..][j]) {
          assert a[1..][i] == a[i + 1] && a[1..][j] == a[j + 1];
        }
      }
      AscendingDistinct(a[1..]);
      assert a == [a[0]] + a[1..];
      assert Elems(a) == {a[0]} + Elems(a[1..]);
    }
  }

  /** Two ascending lists with the same elements are the same list: an
      ascending list is determined by its set. */
  lemma {:induction false} SortedUnique(a: seq<string>, b: seq<string>)
    requires Ascending(a) && Ascending(b) && Elems(a) == Elems(b)
    ensures a == b
    decreases |a|
  {
    ElemsEmpty(a);
    ElemsEmpty(b);
    if a != [] {
      HeadsEqual(a, b);
      HeadBelowTail(a);
      HeadBelowTail(b);
      TailElems(a, b);
      SortedUnique(a[1..], b[1..]);
    }
  }

  lemma HeadsEqual(a: seq<string>, b: seq<string>)
    requires Ascending(a) && Ascending(b) && Elems(a) == Elems(b) && a != []
    ensures b != [] && a[0] == b[0]
  {
    assert a[0] in Elems(b);
    HeadBelowTail(a);
    HeadBelowTail(b);
    if a[0] != b[0] {
      assert a[0] in b[1..] by { assert b == [b[0]] + b[1..]; }
      assert b[0] in a[1..] by { assert b[0] in Elems(a); assert a == [a[0]] + a[1..]; }
      LessAsymmetric(a[0], b[0]);
    }
  }

  lemma TailElems(a: seq<string>, b: seq<string>)
    requires a != [] && b != [] && a[0] == b[0] && Elems(a) == Elems(b)
    requires a[0] !in a[1..] && b[0] !in b[1..]
    ensures Elems(a[1..]) == Elems(b[1..])
  {
    assert a == [a[0]] + a[1..] && b == [b[0]] + b[1..];
    forall z ensures z in Elems(a[1..]) <==> z in Elems(b[1..]) {
      assert z in Elems(a) <==> z in Elems(b);
    }
  }

  /** The ascending list of the elements of `s`: what `sorted(list(s))`
      yields, whatever order the set is iterated in. */
  ghost function SortedOf(s: set<string>): (r: seq<string>)
    ensures Ascending(r) && Elems(r) == s && |r| == |s|
  {
    SortedExists(s);
    var r :| Ascending(r) && Elems(r) == s;
    AscendingDistinct(r);
    r
  }

  // ---------------------------------------------------------------------
  // Scoring

  /** `set(normalize_skills(u.skills_offered))`. */
  function Offered(u: User): set<string> {
    SkillSet(u.skillsOffered)
  }

  /** `set(normalize_skills(u.skills_wanted))`. */
  function Wanted(u: User): set<string> {
    SkillSet(u.skillsWanted)
  }

  /** `c_offered.intersection(user_wanted)`: what `c` offers that `me`
      wants. */
  function OfferMatch(c: User, me: User): set<string> {
    Offered(c) * Wanted(me)
  }

  /** `c_wanted.intersection(user_offered)`: what `c` wants that `me`
      offers. */
  function WantMatch(c: User, me: User): set<string> {
    Wanted(c) * Offered(me)
  }

  /** `len(offer_match) + len(want_match)`. */
  function Score(c: User, me: User): nat {
    |OfferMatch(c, me)| + |WantMatch(c, me)|
  }

  /** The entry the handler appends for candidate `c`. */
  ghost function EntryOf(c: User, me: User): MatchEntry {
    MatchEntry(c, SortedOf(OfferMatch(c, me)), SortedOf(WantMatch(c, me)), Score(c, me))
  }

  /** `c` is another user than `me` (the query's `User.id != user.id`) with
      a positive score (the `if score > 0` test). */
  predicate Kept(c: User, me: User) {
    c.id != me.id && Score(c, me) > 0
  }

  /** The users `keep` accepts, each turned into `entry(c)`, in the order
      of `users`. */
  ghost function Collect(users: seq<User>, keep: User -> bool, entry: User -> MatchEntry): seq<MatchEntry>
    decreases |users|
  {
    if users == [] then
      []
    else
      var c := users[|users| - 1];
      Collect(users[..|users| - 1], keep, entry) + (if keep(c) then [entry(c)] else [])
  }

  /** The `matches` list before it is sorted: one entry per kept user, in
      the order of `users`. */
  ghost function Collected(users: seq<User>, me: User): seq<MatchEntry> {
    Collect(users, c => Kept(c, me), c => EntryOf(c, me))
  }

  /** Every collected entry is the entry of an accepted user. */
  lemma {:induction false} CollectFromKept(users: seq<User>, keep: User -> bool, entry: User -> MatchEntry)
    ensures forall e :: e in Collect(users, keep, entry) ==>
      exists c :: c in users && keep(c) && e == entry(c)
    decreases |users|
  {
    if users != [] {
      var init, last := users[..|users| - 1], users[|users| - 1];
      CollectFromKept(init, keep, entry);
      forall e | e in Collect(users, keep, entry)
        ensures exists c :: c in users && keep(c) && e == entry(c)
      {
        if e in Collect(init, keep, entry) {
          var c :| c in init && keep(c) && e == entry(c);
          assert c in users;
        } else {
          assert last in users;
        }
      }
    }
  }

  /** Every accepted user has its entry collected. */
  lemma {:induction false} CollectHasKept(users: seq<User>, keep: User -> bool, entry: User -> MatchEntry)
    ensures forall c :: c in users && keep(c) ==> entry(c) in Collect(users, keep, entry)
    decreases |users|
  {
    if users != [] {
      var init, last := users[..|users| - 1], users[|users| - 1];
      CollectHasKept(init, keep, entry);
      assert users == init + [last];
      forall c | c in users && keep(c) ensures entry(c) in Collect(users, keep, entry) {
        if c != last {
          assert c in init;
        }
      }
    }
  }

  /** When `entry` is one-to-one on the accepted users and `c` occurs once in
      `users`, its entry is collected exactly once. */
  lemma {:induction false} CollectOnce(users: seq<User>, keep: User -> bool, entry: User -> MatchEntry, c: User)
    requires c in users && keep(c)
    requires forall d :: d in users && d != c ==> entry(d) != entry(c)
    requires forall i, j :: 0 <= i < j < |users| ==> users[i] != users[j]
    ensures multiset(Collect(users, keep, entry))[entry(c)] == 1
    decreases |users|
  {
    var n := |users| - 1;
    var init, last := users[..n], users[n];
    assert users == init + [last];
    CollectFromKept(init, keep, entry);
    if c == last {
      assert c !in init by {
        forall k | 0 <= k < |init| ensures init[k] != c {
          assert users[k] != users[n];
        }
      }
      assert entry(c) !in Collect(init, keep, entry);
    } else {
      assert c in init;
      CollectOnce(init, keep, entry, c);
    }
  }

  /** The entry the loop appends for `users[i]`, if any. */
  lemma CollectStep(users: seq<User>, i: nat, keep: User -> bool, entry: User -> MatchEntry)
    requires i < |users|
    ensures Collect(users[..i + 1], keep, entry)
      == Collect(users[..i], keep, entry) + (if keep(users[i]) then [entry(users[i])] else [])
  {
    assert users[..i + 1][..i] == users[..i];
  }

  /** What every element of `matches` satisfies: the candidate is not `me`,
      the two lists are the two intersections, sorted and free of
      duplicates, and the score is their total length and positive. */
  ghost predicate WellFormedEntry(e: MatchEntry, me: User) {
    && e.user.id != me.id
    && Ascending(e.offerMatch) && Elems(e.offerMatch) == OfferMatch(e.user, me)
    && Ascending(e.wantMatch) && Elems(e.wantMatch) == WantMatch(e.user, me)
    && e.score == |e.offerMatch| + |e.wantMatch|
    && e.score > 0
  }

  lemma EntryWellFormed(c: User, me: User)
    requires Kept(c, me)
    ensures WellFormedEntry(EntryOf(c, me), me)
  {
  }

  /** The score is symmetric: what `c` offers that `me` wants is what `me`
      wants that `c` offers, and the other way round. */
  lemma ScoreSymmetric(c: User, me: User)
    ensures OfferMatch(c, me) == WantMatch(me, c) && WantMatch(c, me) == OfferMatch(me, c)
    ensures Score(c, me) == Score(me, c)
  {
  }

  /** A candidate offering exactly what `me` wants and wanting exactly what
      `me` offers matches on everything: the score is the size of both
      sets together. */
  lemma MutualMatch(c: User, me: User)
    requires Offered(c) == Wanted(me) && Wanted(c) == Offered(me)
    ensures OfferMatch(c, me) == Offered(c) && WantMatch(c, me) == Wanted(c)
    ensures Score(c, me) == |Offered(c)| + |Wanted(c)|
  {
  }

  /** A one-element set sorts to the one-element list. */
  lemma SortedOfSingle(x: string)
    ensures SortedOf({x}) == [x]
  {
    assert Elems([x]) == {x};
    SortedUnique(SortedOf({x}), [x]);
  }

  /** The candidate offers "spanish" and wants "guitar"; the user offers
      "guitar" and wants "spanish": both lists hold one skill and the score
      is 2. */
  lemma GuitarSpanishExample(c: User, me: User)
    requires c.id != me.id
    requires Offered(me) == {"guitar"} && Wanted(me) == {"spanish"}
    requires Offered(c) == {"spanish"} && Wanted(c) == {"guitar"}
    ensures Kept(c, me)
    ensures EntryOf(c, me) == MatchEntry(c, ["spanish"], ["guitar"], 2)
  {
    MutualMatch(c, me);
    SortedOfSingle("spanish");
    SortedOfSingle("guitar");
  }

  /** The user ids are distinct (`id` is the table's primary key). */
  predicate DistinctIds(users: seq<User>) {
    forall i, j :: 0 <= i < |users| && 0 <= j < |users| && users[i].id == users[j].id ==> i == j
  }

  /** Each collected entry is the well-formed entry of a kept user of
      `users`, and every kept user has its entry collected; with distinct
      ids, exactly once. */
  lemma CollectedFacts(users: seq<User>, me: User)
    ensures forall e :: e in Collected(users, me) ==>
      e.user in users && Kept(e.user, me) && e == EntryOf(e.user, me) && WellFormedEntry(e, me)
    ensures forall c :: c in users && Kept(c, me) ==> EntryOf(c, me) in Collected(users, me)
    ensures DistinctIds(users) ==>
      forall c :: c in users && Kept(c, me) ==> multiset(Collected(users, me))[EntryOf(c, me)] == 1
  {
    var keep, entry := c => Kept(c, me), c => EntryOf(c, me);
    CollectFromKept(users, keep, entry);
    CollectHasKept(users, keep, entry);
    forall e | e in Collected(users, me)
      ensures e.user in users && Kept(e.user, me) && e == EntryOf(e.user, me) && WellFormedEntry(e, me)
    {
      var c :| c in users && keep(c) && e == entry(c);
      EntryWellFormed(c, me);
    }
    if DistinctIds(users) {
      forall c | c in users && Kept(c, me) ensures multiset(Collected(users, me))[EntryOf(c, me)] == 1 {
        forall d | d in users && d != c ensures entry(d) != entry(c) {
          assert EntryOf(d, me).user == d;
        }
        forall i, j | 0 <= i < j < |users| ensures users[i] != users[j] {
          assert users[i].id != users[j].id;
        }
        CollectOnce(users, keep, entry, c);
      }
    }
  }

  // ---------------------------------------------------------------------
  // matches.sort(key=lambda m: m["score"], reverse=True)

  /** Scores never increase along the list. */
  predicate SortedByScore(ms: seq<MatchEntry>) {
    forall i, j :: 0 <= i < j < |ms| ==> ms[i].score >= ms[j].score
  }

  /** The entries with score `k`, in list order. */
  function WithScore(ms: seq<MatchEntry>, k: int): seq<MatchEntry> {
    if ms == [] then []
    else (if ms[0].score == k then [ms[0]] else []) + WithScore(ms[1..], k)
  }

  /** `r` is what a stable sort by descending score makes of `s`: sorted by
      score, and for every score the entries with that score come in the
      same order as in `s`. */
  ghost predicate StableSortOf(r: seq<MatchEntry>, s: seq<MatchEntry>) {
    SortedByScore(r) && forall k :: WithScore(r, k) == WithScore(s, k)
  }

  /** An entry occurs as often in a list as in the entries of its own
      score. */
  lemma {:induction false} CountWithScore(s: seq<MatchEntry>, e: MatchEntry)
    ensures multiset(s)[e] == multiset(WithScore(s, e.score))[e]
    decreases |s|
  {
    if s != [] {
      CountWithScore(s[1..], e);
      assert s == [s[0]] + s[1..];
    }
  }

  /** A stable sort is a permutation. */
  lemma StableSortPermutes(r: seq<MatchEntry>, s: seq<MatchEntry>)
    requires forall k :: WithScore(r, k) == WithScore(s, k)
    ensures multiset(r) == multiset(s)
  {
    forall e ensures multiset(r)[e] == multiset(s)[e] {
      CountWithScore(r, e);
      CountWithScore(s, e);
    }
  }

  /** Sorting by score and keeping the order within each score leave no
      choice: two lists sorted by score whose entries of each score come in
      the same order are equal. So any two stable sorts of one list agree. */
  lemma {:induction false} StableSortUnique(a: seq<MatchEntry>, b: seq<MatchEntry>)
    requires SortedByScore(a) && SortedByScore(b)
    requires forall k :: WithScore(a, k) == WithScore(b, k)
    ensures a == b
    decreases |a|
  {
    StableSortPermutes(a, b);
    assert |a| == |multiset(a)| == |multiset(b)| == |b|;
    if a != [] {
      assert b[0] in multiset(a);
      assert a[0] in multiset(b);
      var m := a[0].score;
      assert b[0].score == m;
      assert WithScore(a, m) == [a[0]] + WithScore(a[1..], m);
      assert WithScore(b, m) == [b[0]] + WithScore(b[1..], m);
      assert a[0] == WithScore(a, m)[0] == b[0];
      forall k ensures WithScore(a[1..], k) == WithScore(b[1..], k) {
        var head := if m == k then [a[0]] else [];
        assert WithScore(a, k) == head + WithScore(a[1..], k);
        assert WithScore(b, k) == head + WithScore(b[1..], k);
        assert WithScore(a[1..], k) == WithScore(a, k)[|head|..];
        assert WithScore(b[1..], k) == WithScore(b, k)[|head|..];
      }
      StableSortUnique(a[1..], b[1..]);
      assert a == [a[0]] + a[1..] && b == [b[0]] + b[1..];
    }
  }

  /** Three entries scored 3, 1, 2 are ranked 3, 2, 1. */
  lemma RankingExample(x: MatchEntry, y: MatchEntry, z: MatchEntry, r: seq<MatchEntry>)
    requires x.score == 3 && y.score == 1 && z.score == 2
    requires StableSortOf(r, [x, y, z])
    ensures r == [x, z, y]
  {
    forall k ensures WithScore([x, z, y], k) == WithScore([x, y, z], k) {
      WithScoreOfThree(x, z, y, k);
      WithScoreOfThree(x, y, z, k);
    }
    StableSortUnique(r, [x, z, y]);
  }

  /** Equal scores keep their input order: scored 1, 2, 1, the entries are
      ranked 2, then the first 1, then the second. */
  lemma TieExample(x: MatchEntry, y: MatchEntry, z: MatchEntry, r: seq<MatchEntry>)
    requires x.score == 1 && y.score == 2 && z.score == 1
    requires StableSortOf(r, [x, y, z])
    ensures r == [y, x, z]
  {
    forall k ensures WithScore([y, x, z], k) == WithScore([x, y, z], k) {
      WithScoreOfThree(y, x, z, k);
      WithScoreOfThree(x, y, z, k);
    }
    StableSortUnique(r, [y, x, z]);
  }

  lemma WithScoreOfThree(x: MatchEntry, y: MatchEntry, z: MatchEntry, k: int)
    ensures WithScore([x, y, z], k)
      == (if x.score == k then [x] else []) + (if y.score == k then [y] else []) + (if z.score == k then [z] else [])
  {
    assert [x, y, z] == [x] + [y] + [z];
    WithScoreConcat([x] + [y], [z], k);
    WithScoreConcat([x], [y], k);
    assert WithScore([x], k) == (if x.score == k then [x] else []) + WithScore([], k);
    assert WithScore([y], k) == (if y.score == k then [y] else []) + WithScore([], k);
    assert WithScore([z], k) == (if z.score == k then [z] else []) + WithScore([], k);
  }

  lemma {:induction false} WithScoreConcat(a: seq<MatchEntry>, b: seq<MatchEntry>, k: int)
    ensures WithScore(a + b, k) == WithScore(a, k) + WithScore(b, k)
    decreases |a|
  {
    if a == [] {
      assert a + b == b;
    } else {
      var head := if a[0].score == k then [a[0]] else [];
      assert (a + b)[0] == a[0];
      assert (a + b)[1..] == a[1..] + b;
      assert WithScore(a + b, k) == head + WithScore(a[1..] + b, k);
      WithScoreConcat(a[1..], b, k);
      assert WithScore(a, k) == head + WithScore(a[1..], k);
    }
  }

  lemma {:induction false} WithScoreNone(a: seq<MatchEntry>, k: int)
    requires forall m :: 0 <= m < |a| ==> a[m].score != k
    ensures WithScore(a, k) == []
    decreases |a|
  {
    if a != [] {
      WithScoreNone(a[1..], k);
    }
  }

  /** Placing `x` at index `j` of a list sorted by score, after every entry
      with a score at least as high and before every entry with a lower one,
      keeps it sorted. */
  lemma PlaceSorted(sorted: seq<MatchEntry>, j: nat, x: MatchEntry)
    requires SortedByScore(sorted) && j <= |sorted|
    requires forall m :: j <= m < |sorted| ==> sorted[m].score < x.score
    requires j > 0 ==> sorted[j - 1].score >= x.score
    ensures SortedByScore(sorted[..j] + [x] + sorted[j..])
  {
    var r := sorted[..j] + [x] + sorted[j..];
    assert forall m :: 0 <= m < j ==> r[m] == sorted[m];
    assert r[j] == x;
    assert forall m :: j < m < |r| ==> r[m] == sorted[m - 1];
    forall p, q | 0 <= p < q < |r| ensures r[p].score >= r[q].score {
      if q < j {
        assert r[p] == sorted[p] && r[q] == sorted[q];
      } else if p > j {
        assert r[p] == sorted[p - 1] && r[q] == sorted[q - 1];
      } else if p == j {
        assert r[q] == sorted[q - 1];
      } else if q == j {
        assert sorted[p].score >= sorted[j - 1].score;
      } else {
        assert r[q] == sorted[q - 1];
      }
    }
  }

  /** ... and keeps the order within each score as if `x` had been
      appended. */
  lemma PlaceStable(sorted: seq<MatchEntry>, j: nat, x: MatchEntry, k: int)
    requires j <= |sorted|
    requires forall m :: j <= m < |sorted| ==> sorted[m].score < x.score
    ensures WithScore(sorted[..j] + [x] + sorted[j..], k) == WithScore(sorted + [x], k)
  {
    assert sorted == sorted[..j] + sorted[j..];
    WithScoreConcat(sorted[..j] + [x], sorted[j..], k);
    WithScoreConcat(sorted[..j], [x], k);
    WithScoreConcat(sorted, [x], k);
    WithScoreConcat(sorted[..j], sorted[j..], k);
    if k == x.score {
      WithScoreNone(sorted[j..], k);
    } else {
      assert WithScore([x], k) == [];
    }
  }

  /** One round of the insertion sort: `sorted` is the sorted form of
      `done`, and `x` is placed at index `j`; the result is the sorted form of
      `done + [x]`. */
  lemma InsertionStep(done: seq<MatchEntry>, sorted: seq<MatchEntry>, j: nat, x: MatchEntry)
    requires StableSortOf(sorted, done) && j <= |sorted|
    requires forall m :: j <= m < |sorted| ==> sorted[m].score < x.score
    requires j > 0 ==> sorted[j - 1].score >= x.score
    ensures StableSortOf(sorted[..j] + [x] + sorted[j..], done + [x])
  {
    PlaceSorted(sorted, j, x);
    forall k ensures WithScore(sorted[..j] + [x] + sorted[j..], k) == WithScore(done + [x], k) {
      PlaceStable(sorted, j, x, k);
      WithScoreConcat(sorted, [x], k);
      WithScoreConcat(done, [x], k);
    }
  }

  /** Moves `a[i]` left past the entries before it with a strictly lower
      score, shifting those one place right; returns where it lands. */
  method ShiftIntoPlace(a: array<MatchEntry>, i: nat) returns (j: nat)
    requires i < a.Length
    modifies a
    ensures j <= i
    ensures forall m :: j <= m < i ==> old(a[m]).score < old(a[i]).score
    ensures j > 0 ==> old(a[j - 1]).score >= old(a[i]).score
    ensures a[..i + 1] == old(a[..j]) + [old(a[i])] + old(a[j..i])
    ensures a[i + 1..] == old(a[i + 1..])
  {
    ghost var prev := a[..];
    var x := a[i];
    j := i;
    while j > 0 && a[j - 1].score < x.score
      invariant j <= i
      invariant forall m :: 0 <= m < j ==> a[m] == prev[m]
      invariant forall m :: j < m <= i ==> a[m] == prev[m - 1]
      invariant forall m :: i < m < a.Length ==> a[m] == prev[m]
      invariant forall m :: j <= m < i ==> prev[m].score < x.score
    {
      a[j] := a[j - 1];
      j := j - 1;
    }
    a[j] := x;
    ShiftedSlices(prev, a[..], i, j);
  }

  /** `now` is `prev` with `prev[i]` moved to index `j`, read as slices. */
  lemma ShiftedSlices(prev: seq<MatchEntry>, now: seq<MatchEntry>, i: nat, j: nat)
    requires j <= i < |prev| == |now|
    requires forall m :: 0 <= m < j ==> now[m] == prev[m]
    requires now[j] == prev[i]
    requires forall m :: j < m <= i ==> now[m] == prev[m - 1]
    requires forall m :: i < m < |now| ==> now[m] == prev[m]
    ensures now[..i + 1] == prev[..j] + [prev[i]] + prev[j..i]
    ensures now[i + 1..] == prev[i + 1..]
  {
  }

  /** The in-place stable sort of `matches` by descending score, as an
      insertion sort: each entry moves left past the entries with a strictly
      lower score, so equal scores keep their order. */
  method SortByScore(a: array<MatchEntry>)
    modifies a
    ensures StableSortOf(a[..], old(a[..]))
  {
    var i := 0;
    while i < a.Length
      invariant 0 <= i <= a.Length
      invariant StableSortOf(a[..i], old(a[..i]))
      invariant a[i..] == old(a[i..])
    {
      ghost var sorted := a[..i];
      ghost var x := a[i];
      ghost var rest := a[i + 1..];
      assert rest == old(a[i + 1..]);
      var j := ShiftIntoPlace(a, i);
      assert a[..i + 1] == sorted[..j] + [x] + sorted[j..];
      assert old(a[..i + 1]) == old(a[..i]) + [x];
      InsertionStep(old(a[..i]), sorted, j, x);
      i := i + 1;
    }
    assert a[..] == a[..i] && old(a[..]) == old(a[..i]);
  }

  // ---------------------------------------------------------------------
  // The handler

  /** The computation of the `/match` handler for the logged-in user `me`
      over the rows of `users`: the other users with a positive score, each
      with the two sorted intersections and the score, sorted by score from
      highest to lowest, ties in the order of `users`. */
  method Match(me: User, users: seq<User>) returns (matches: seq<MatchEntry>)
    ensures StableSortOf(matches, Collected(users, me))
    ensures forall e :: e in matches ==> e.user in users && WellFormedEntry(e, me)
    ensures forall c :: c in users && Kept(c, me) ==> EntryOf(c, me) in matches
    ensures DistinctIds(users) ==> forall c :: c in users && Kept(c, me) ==> multiset(matches)[EntryOf(c, me)] == 1
  {
    var userOffered := SkillSet(me.skillsOffered);
    var userWanted := SkillSet(me.skillsWanted);
    var collected: seq<MatchEntry> := [];
    for i := 0 to |users|
      invariant collected == Collected(users[..i], me)
    {
      var c := users[i];
      CollectStep(users, i, c => Kept(c, me), c => EntryOf(c, me));
      if c.id != me.id {
        var cOffered := SkillSet(c.skillsOffered);
        var cWanted := SkillSet(c.skillsWanted);
        var offerMatch := cOffered * userWanted;
        var wantMatch := cWanted * userOffered;
        var score := |offerMatch| + |wantMatch|;
        if score > 0 {
          var offerList := SortedList(offerMatch);
          var wantList := SortedList(wantMatch);
          EntryComputed(c, me, offerList, wantList);
          collected := collected + [MatchEntry(c, offerList, wantList, score)];
        }
      }
    }
    assert users[..|users|] == users;
    var a := new MatchEntry[|collected|](k requires 0 <= k < |collected| => collected[k]);
    assert a[..] == collected;
    SortByScore(a);
    matches := a[..];
    RankedFacts(me, users, matches);
  }

  /** The entry the loop builds from the two sorted lists is the candidate's
      entry. */
  lemma EntryComputed(c: User, me: User, offerList: seq<string>, wantList: seq<string>)
    requires Ascending(offerList) && Elems(offerList) == OfferMatch(c, me)
    requires Ascending(wantList) && Elems(wantList) == WantMatch(c, me)
    ensures MatchEntry(c, offerList, wantList, Score(c, me)) == EntryOf(c, me)
  {
    SortedUnique(offerList, SortedOf(OfferMatch(c, me)));
    SortedUnique(wantList, SortedOf(WantMatch(c, me)));
  }

  /** What follows for any stable sort of the collected list: every entry is
      the well-formed entry of a kept user, every kept user is there, and,
      the ids being distinct, exactly once. */
  lemma RankedFacts(me: User, users: seq<User>, matches: seq<MatchEntry>)
    requires StableSortOf(matches, Collected(users, me))
    ensures forall e :: e in matches ==> e.user in users && WellFormedEntry(e, me)
    ensures forall c :: c in users && Kept(c, me) ==> EntryOf(c, me) in matches
    ensures DistinctIds(users) ==> forall c :: c in users && Kept(c, me) ==> multiset(matches)[EntryOf(c, me)] == 1
  {
    var collected := Collected(users, me);
    StableSortPermutes(matches, collected);
    CollectedFacts(users, me);
    forall e | e in matches ensures e.user in users && WellFormedEntry(e, me) {
      assert e in multiset(collected);
    }
    forall c | c in users && Kept(c, me) ensures EntryOf(c, me) in matches {
      assert EntryOf(c, me) in multiset(matches);
    }
  }
}
