/** The three sort modes of the query engine (src/services/apiService.ts:62-77)
    and a stable sort for them. `Array.prototype.sort` is stable, so with a
    consistent comparator its result is fixed: sorted by the comparator, and
    records that compare equal keep their input order. `SortBy` is that
    result, written as an insertion sort; `InsertionSort` computes it in place
    on an array. */
module Sorting {
  import opened Types
  import opened Seqs
  import Text

  datatype Order = NameAscending | NameDescending | HighestRated

  /** The comparator of `o` is negative on (a, b): `a` must come before `b`.
      Name order is `localeCompare`, modelled as code-point order. */
  predicate Before(o: Order, a: Doctor, b: Doctor) {
    match o
    case NameAscending => Text.Less(a.name, b.name)
    case NameDescending => Text.Less(b.name, a.name)
    case HighestRated => b.rating - a.rating < 0
  }

  /** The comparator of `o` is zero on (a, b): same name, or same rating. */
  predicate Tied(o: Order, a: Doctor, b: Doctor) {
    match o
    case NameAscending => a.name == b.name
    case NameDescending => a.name == b.name
    case HighestRated => a.rating == b.rating
  }

  /** The records of a list that tie with `k`. */
  function TiedWith(o: Order, k: Doctor): Doctor -> bool {
    x => Tied(o, x, k)
  }

  /** The comparator is consistent: exactly one of before, after, tied. */
  lemma Trichotomy(o: Order, a: Doctor, b: Doctor)
    ensures Tied(o, a, b) <==> !Before(o, a, b) && !Before(o, b, a)
    ensures !(Before(o, a, b) && Before(o, b, a))
  {
    match o
    case NameAscending =>
      if a.name != b.name { Text.LessTotal(a.name, b.name); }
      else { Text.LessIrreflexive(a.name); }
      if Text.Less(a.name, b.name) { Text.LessAsymmetric(a.name, b.name); }
    case NameDescending =>
      if a.name != b.name { Text.LessTotal(a.name, b.name); }
      else { Text.LessIrreflexive(a.name); }
      if Text.Less(a.name, b.name) { Text.LessAsymmetric(a.name, b.name); }
    case HighestRated =>
  }

  /** "Not after" is transitive, which makes the comparator a strict weak
      order. */
  lemma NotBeforeTransitive(o: Order, a: Doctor, b: Doctor, c: Doctor)
    requires !Before(o, b, a) && !Before(o, c, b)
    ensures !Before(o, c, a)
  {
    match o
    case NameAscending =>
      if Text.Less(c.name, a.name) {
        if b.name != c.name { Text.LessTotal(b.name, c.name); Text.LessTransitive(b.name, c.name, a.name); }
      }
    case NameDescending =>
      if Text.Less(a.name, c.name) {
        if a.name != b.name { Text.LessTotal(a.name, b.name); Text.LessTransitive(b.name, a.name, c.name); }
      }
    case HighestRated =>
  }

  /** No record of the list comes strictly before an earlier one. */
  predicate Sorted(o: Order, s: seq<Doctor>) {
    forall i, j :: 0 <= i < j < |s| ==> !Before(o, s[j], s[i])
  }

  /** Inserts `x` into `t` after every record that does not come strictly
      after it, scanning from the right. */
  function Insert(o: Order, t: seq<Doctor>, x: Doctor): (r: seq<Doctor>)
    ensures |r| == |t| + 1
  {
    if t == [] then [x]
    else if Before(o, x, t[|t| - 1]) then
      Insert(o, t[..|t| - 1], x) + [t[|t| - 1]]
    else t + [x]
  }

  /** The stable sort of `s` under the comparator of `o`. */
  function SortBy(o: Order, s: seq<Doctor>): (r: seq<Doctor>)
    ensures |r| == |s|
  {
    if s == [] then []
    else Insert(o, SortBy(o, s[..|s| - 1]), s[|s| - 1])
  }

  /** Insertion adds exactly one occurrence of `x`. */
  lemma {:induction false} InsertPermutes(o: Order, t: seq<Doctor>, x: Doctor)
    ensures multiset(Insert(o, t, x)) == multiset(t) + multiset{x}
  {
    if t != [] && Before(o, x, t[|t| - 1]) {
      InsertPermutes(o, t[..|t| - 1], x);
      InitLast(t);
    }
  }

  /** The sorted list is a permutation of the input. */
  lemma {:induction false} SortByPermutes(o: Order, s: seq<Doctor>)
    ensures multiset(SortBy(o, s)) == multiset(s)
  {
    if s != [] {
      SortByPermutes(o, s[..|s| - 1]);
      InsertPermutes(o, SortBy(o, s[..|s| - 1]), s[|s| - 1]);
      InitLast(s);
    }
  }

  lemma {:induction false} InsertSorted(o: Order, t: seq<Doctor>, x: Doctor)
    requires Sorted(o, t)
    ensures Sorted(o, Insert(o, t, x))
  {
    if t == [] {
    } else {
      var n := |t| - 1;
      var last := t[n];
      if Before(o, x, last) {
        var init := t[..n];
        InsertSorted(o, init, x);
        var u := Insert(o, init, x);
        InsertPermutes(o, init, x);
        Trichotomy(o, x, last);
        forall e | e in u ensures !Before(o, last, e) {
          assert e in multiset(u);
          if e != x {
            assert e in init;
            var k :| 0 <= k < n && init[k] == e;
            assert t[k] == e;
          }
        }
        SortedSnoc(o, u, last);
      } else {
        forall e | e in t ensures !Before(o, x, e) {
          var i :| 0 <= i < |t| && t[i] == e;
          if i < n { NotBeforeTransitive(o, t[i], last, x); }
        }
        SortedSnoc(o, t, x);
      }
    }
  }

  /** A record that comes strictly before none of a sorted list may follow
      it. */
  lemma SortedSnoc(o: Order, u: seq<Doctor>, y: Doctor)
    requires Sorted(o, u)
    requires forall e :: e in u ==> !Before(o, y, e)
    ensures Sorted(o, u + [y])
  {
    var r := u + [y];
    forall i, j | 0 <= i < j < |r| ensures !Before(o, r[j], r[i]) {
      assert r[i] == u[i] && u[i] in u;
      if j < |u| { assert r[j] == u[j]; }
    }
  }


  /** The result of `SortBy` is sorted. */
  lemma {:induction false} SortBySorted(o: Order, s: seq<Doctor>)
    ensures Sorted(o, SortBy(o, s))
  {
    if s != [] {
      SortBySorted(o, s[..|s| - 1]);
      InsertSorted(o, SortBy(o, s[..|s| - 1]), s[|s| - 1]);
    }
  }

  /** Two records tied with a third are tied with each other, so a record
      strictly before another is never in the same tie class. */
  lemma BeforeSeparatesTies(o: Order, a: Doctor, b: Doctor, k: Doctor)
    requires Before(o, a, b)
    ensures !(Tied(o, a, k) && Tied(o, b, k))
  {
    Trichotomy(o, a, b);
  }

  /** Inserting `x` appends it to its tie class and leaves every other tie
      class as it was. */
  lemma {:induction false} InsertKeepsTies(o: Order, t: seq<Doctor>, x: Doctor, k: Doctor)
    ensures Filter(Insert(o, t, x), TiedWith(o, k))
         == Filter(t, TiedWith(o, k)) + (if Tied(o, x, k) then [x] else [])
  {
    var p := TiedWith(o, k);
    if t == [] {
      FilterSnoc([], x, p);
      assert [] + [x] == [x];
    } else if Before(o, x, t[|t| - 1]) {
      InsertKeepsTies(o, t[..|t| - 1], x, k);
      TiesPastLast(o, t, x, k);
    } else {
      FilterSnoc(t, x, p);
    }
  }

  /** The bookkeeping step of `InsertKeepsTies` when `x` moves past `last`:
      at most one of the two belongs to the class, so their order in it does
      not matter. */
  lemma TiesPastLast(o: Order, t: seq<Doctor>, x: Doctor, k: Doctor)
    requires t != [] && Before(o, x, t[|t| - 1])
    requires Filter(Insert(o, t[..|t| - 1], x), TiedWith(o, k))
          == Filter(t[..|t| - 1], TiedWith(o, k)) + (if Tied(o, x, k) then [x] else [])
    ensures Filter(Insert(o, t, x), TiedWith(o, k))
         == Filter(t, TiedWith(o, k)) + (if Tied(o, x, k) then [x] else [])
  {
    var init, last := t[..|t| - 1], t[|t| - 1];
    var u := Insert(o, init, x);
    assert Insert(o, t, x) == u + [last];
    InitLast(t);
    BeforeSeparatesTies(o, x, last, k);
    TiesAroundInsert(TiedWith(o, k), init, last, x, u);
  }

  lemma TiesAroundInsert(p: Doctor -> bool, init: seq<Doctor>, last: Doctor, x: Doctor, u: seq<Doctor>)
    requires !(p(x) && p(last))
    requires Filter(u, p) == Filter(init, p) + (if p(x) then [x] else [])
    ensures Filter(u + [last], p) == Filter(init + [last], p) + (if p(x) then [x] else [])
  {
    FilterSnoc(u, last, p);
    FilterSnoc(init, last, p);
    var fi := Filter(init, p);
    if p(x) {
      assert Filter(u + [last], p) == fi + [x];
    } else if p(last) {
      assert Filter(u + [last], p) == fi + [last];
    } else {
      assert Filter(u + [last], p) == fi;
    }
  }

  /** The sort is stable: the records tied with any `k` appear in the sorted
      list in exactly their input order. */
  lemma {:induction false} SortByStable(o: Order, s: seq<Doctor>, k: Doctor)
    ensures Filter(SortBy(o, s), TiedWith(o, k)) == Filter(s, TiedWith(o, k))
  {
    if s != [] {
      var init := s[..|s| - 1];
      var last := s[|s| - 1];
      SortByStable(o, init, k);
      InsertKeepsTies(o, SortBy(o, init), last, k);
      InitLast(s);
      FilterSnoc(init, last, TiedWith(o, k));
    }
  }

  /** Sorting an already sorted list changes nothing. */
  lemma {:induction false} SortBySortedIdentity(o: Order, s: seq<Doctor>)
    requires Sorted(o, s)
    ensures SortBy(o, s) == s
  {
    if s != [] {
      var init := s[..|s| - 1];
      var last := s[|s| - 1];
      assert Sorted(o, init);
      SortBySortedIdentity(o, init);
      if init != [] {
        assert !Before(o, last, init[|init| - 1]);
      }
      assert s == init + [last];
    }
  }

  /** Sorting is idempotent. */
  lemma SortByIdempotent(o: Order, s: seq<Doctor>)
    ensures SortBy(o, SortBy(o, s)) == SortBy(o, s)
  {
    SortBySorted(o, s);
    SortBySortedIdentity(o, SortBy(o, s));
  }

  /** What "sorted" means for each label: names non-decreasing for 'Name
      (A-Z)', non-increasing for 'Name (Z-A)', ratings non-increasing for
      'Highest Rated'. */
  lemma SortedMeaning(o: Order, s: seq<Doctor>, i: int, j: int)
    requires Sorted(o, s) && 0 <= i < j < |s|
    ensures o == NameAscending ==> s[i].name == s[j].name || Text.Less(s[i].name, s[j].name)
    ensures o == NameDescending ==> s[i].name == s[j].name || Text.Less(s[j].name, s[i].name)
    ensures o == HighestRated ==> s[i].rating >= s[j].rating
  {
    assert !Before(o, s[j], s[i]);
    if s[i].name != s[j].name { Text.LessTotal(s[i].name, s[j].name); }
  }

  /** Stable insertion sort of `a` in place, as `filtered.sort(cmp)` does on
      the copy it owns. */
  method InsertionSort(a: array<Doctor>, o: Order)
    modifies a
    ensures a[..] == SortBy(o, old(a[..]))
  {
    ghost var s := a[..];
    var i := 0;
    while i < a.Length
      invariant 0 <= i <= a.Length
      invariant a[..i] == SortBy(o, s[..i])
      invariant a[i..] == s[i..]
    {
      assert a[i] == s[i] by { assert a[i..][0] == s[i..][0]; }
      assert a[i + 1..] == s[i + 1..] by { assert a[i + 1..] == a[i..][1..]; }
      InsertAt(a, i, o);
      SortByExtend(o, s, i);
      i := i + 1;
    }
    assert a[..] == a[..a.Length] && s == s[..a.Length];
  }

  /** Sorting one more element of the input is inserting it. */
  lemma SortByExtend(o: Order, s: seq<Doctor>, i: int)
    requires 0 <= i < |s|
    ensures SortBy(o, s[..i + 1]) == Insert(o, SortBy(o, s[..i]), s[i])
  {
    assert s[..i + 1][..i] == s[..i];
  }

  /** One pass of the insertion sort: moves `a[i]` left past every record it
      comes strictly before, so that the prefix `a[..i + 1]` becomes
      `Insert(o, a[..i], a[i])`. */
  method InsertAt(a: array<Doctor>, i: int, o: Order)
    requires 0 <= i < a.Length
    modifies a
    ensures a[..i + 1] == Insert(o, old(a[..i]), old(a[i]))
    ensures a[i + 1..] == old(a[i + 1..])
  {
    ghost var t := a[..i];
    var key := a[i];
    var j := ShiftRight(a, i, o, key, t);
    a[j] := key;
    ghost var r := t[..j] + [key] + t[j..];
    InsertSplit(o, t, key, j);
    forall k | 0 <= k < i + 1 ensures a[k] == r[k] {
      if k < j { assert r[k] == t[k]; }
      else if k > j { assert r[k] == t[k - 1]; }
    }
    assert a[..i + 1] == r;
  }

  /** The scan of one pass: shifts right, one place, every record of
      `t == a[..i]`, from the right, that `key` comes strictly before, and
      returns the gap `j` left open for `key`. */
  method ShiftRight(a: array<Doctor>, i: int, o: Order, key: Doctor, ghost t: seq<Doctor>) returns (j: int)
    requires 0 <= i < a.Length && t == a[..i]
    modifies a
    ensures 0 <= j <= i
    ensures forall k :: 0 <= k < j ==> a[k] == t[k]
    ensures forall k :: j < k <= i ==> a[k] == t[k - 1]
    ensures forall k :: i < k < a.Length ==> a[k] == old(a[k])
    ensures forall k :: j <= k < i ==> Before(o, key, t[k])
    ensures j > 0 ==> !Before(o, key, t[j - 1])
  {
    j := i;
    while j > 0 && Before(o, key, a[j - 1])
      invariant 0 <= j <= i
      invariant forall k :: 0 <= k < j ==> a[k] == t[k]
      invariant forall k :: j < k <= i ==> a[k] == t[k - 1]
      invariant forall k :: i < k < a.Length ==> a[k] == old(a[k])
      invariant forall k :: j <= k < i ==> Before(o, key, t[k])
    {
      a[j] := a[j - 1];
      j := j - 1;
    }
  }

  /** Where `key` comes strictly before every record from `j` on and not
      before the one at `j - 1`, inserting it puts it at `j`. */
  lemma {:induction false} InsertSplit(o: Order, t: seq<Doctor>, key: Doctor, j: int)
    requires 0 <= j <= |t|
    requires forall k :: j <= k < |t| ==> Before(o, key, t[k])
    requires j > 0 ==> !Before(o, key, t[j - 1])
    ensures Insert(o, t, key) == t[..j] + [key] + t[j..]
    decreases |t|
  {
    if j == |t| {
      assert t[..j] == t && t[j..] == [];
    } else {
      var init, last := t[..|t| - 1], t[|t| - 1];
      forall k | j <= k < |init| ensures Before(o, key, init[k]) {
        assert init[k] == t[k];
      }
      if j > 0 { assert init[j - 1] == t[j - 1]; }
      InsertSplit(o, init, key, j);
      assert Before(o, key, last);
      assert init[..j] == t[..j] && t[j..] == init[j..] + [last];
      calc {
        Insert(o, t, key);
        Insert(o, init, key) + [last];
        (t[..j] + [key] + init[j..]) + [last];
        t[..j] + [key] + (init[j..] + [last]);
      }
    }
  }

}
