/** Strings in byte order, sorting, and what does not depend on the order a list was built in. */
module Order {

  // ---- Strings in byte order ----

  predicate Before(a: string, b: string) {
    |b| > 0 && (|a| == 0 || a[0] < b[0] || (a[0] == b[0] && Before(a[1..], b[1..])))
  }

  lemma {:induction false} BeforeTotal(a: string, b: string)
    ensures a == b || Before(a, b) || Before(b, a)
  {
    if |a| > 0 && |b| > 0 && a[0] == b[0] {
      BeforeTotal(a[1..], b[1..]);
      assert a == [a[0]] + a[1..] && b == [b[0]] + b[1..];
    }
  }

  lemma {:induction false} BeforeTransitive(a: string, b: string, c: string)
    requires Before(a, b) && Before(b, c)
    ensures Before(a, c)
  {
    if |a| > 0 && a[0] == b[0] && b[0] == c[0] {
      BeforeTransitive(a[1..], b[1..], c[1..]);
    }
  }

  lemma {:induction false} BeforeIrreflexive(a: string)
    ensures !Before(a, a)
  {
    if |a| > 0 {
      BeforeIrreflexive(a[1..]);
    }
  }

  /** b goes on where a ends, or is higher there; before that they are the same. */
  predicate PartsAt(a: string, b: string, k: nat) {
    k <= |a| && k < |b| && a[..k] == b[..k] && (k == |a| || a[k] < b[k])
  }

  lemma PartsSame(a: string, b: string, k: nat)
    ensures PartsAt(a, b, k) && k > 0 ==> |a| > 0 && |b| > 0 && a[0] == b[0]
  {
    if PartsAt(a, b, k) && k > 0 {
      assert a[..k][0] == b[..k][0];
    }
  }

  lemma PartsLater(a: string, b: string, k: nat)
    requires |a| > 0 && |b| > 0 && a[0] == b[0]
    ensures PartsAt(a[1..], b[1..], k) <==> PartsAt(a, b, k + 1)
  {
    if k < |a| && k + 1 < |b| {
      assert a[..k + 1] == [a[0]] + a[1..][..k] && b[..k + 1] == [b[0]] + b[1..][..k];
    }
  }

  /** a comes before b when it is a proper prefix of b, or is lower where they first differ. */
  lemma {:induction false} BeforeExact(a: string, b: string)
    ensures Before(a, b) <==> exists k: nat :: PartsAt(a, b, k)
  {
    if |a| > 0 && |b| > 0 && a[0] == b[0] {
      BeforeExact(a[1..], b[1..]);
      forall k: nat ensures PartsAt(a[1..], b[1..], k) <==> PartsAt(a, b, k + 1) {
        PartsLater(a, b, k);
      }
      if k: nat :| PartsAt(a[1..], b[1..], k) {
        assert PartsAt(a, b, k + 1);
      }
      if k: nat :| PartsAt(a, b, k) {
        assert k > 0 && PartsAt(a[1..], b[1..], k - 1) <==> PartsAt(a, b, k);
      }
    } else {
      assert PartsAt(a, b, 0) <==> Before(a, b);
      forall k: nat ensures PartsAt(a, b, k) && k > 0 ==> |a| > 0 && |b| > 0 && a[0] == b[0] {
        PartsSame(a, b, k);
      }
    }
  }

  // ---- Sorting ----

  /** less orders, and what it does not tell apart it treats alike. */
  ghost predicate StrictWeak<T(!new)>(less: (T, T) -> bool) {
    && (forall a :: !less(a, a))
    && (forall a, b, c :: less(a, b) && less(b, c) ==> less(a, c))
    && (forall a, b, c :: less(a, c) ==> less(a, b) || less(b, c))
  }

  /** less tells any two of these apart. */
  ghost predicate Apart<T(!new)>(s: seq<T>, less: (T, T) -> bool) {
    forall a, b :: a in s && b in s && a != b ==> less(a, b) || less(b, a)
  }

  ghost predicate StrictTotal<T(!new)>(less: (T, T) -> bool) {
    StrictWeak(less) && forall a, b :: a == b || less(a, b) || less(b, a)
  }

  lemma BeforeStrictTotal()
    ensures StrictTotal(Before)
  {
    forall a ensures !Before(a, a) {
      BeforeIrreflexive(a);
    }
    forall a, b ensures a == b || Before(a, b) || Before(b, a) {
      BeforeTotal(a, b);
    }
    forall a, b, c | Before(a, b) && Before(b, c) ensures Before(a, c) {
      BeforeTransitive(a, b, c);
    }
    forall a, b, c | Before(a, c) ensures Before(a, b) || Before(b, c) {
      BeforeTotal(a, b);
      if Before(b, a) {
        BeforeTransitive(b, a, c);
      }
    }
  }

  predicate Sorted<T>(s: seq<T>, less: (T, T) -> bool) {
    forall i, j :: 0 <= i < j < |s| ==> !less(s[j], s[i])
  }

  function Insert<T>(x: T, s: seq<T>, less: (T, T) -> bool): (r: seq<T>)
    ensures multiset(r) == multiset(s) + multiset{x}
  {
    if |s| == 0 || !less(s[0], x) then
      assert [x] + s == [x] + s;
      [x] + s
    else
      assert s == [s[0]] + s[1..];
      [s[0]] + Insert(x, s[1..], less)
  }

  function Sort<T>(s: seq<T>, less: (T, T) -> bool): (r: seq<T>)
    ensures multiset(r) == multiset(s)
    ensures |r| == |s|
  {
    if |s| == 0 then []
    else
      assert s == [s[0]] + s[1..];
      var r := Insert(s[0], Sort(s[1..], less), less);
      assert |multiset(r)| == |multiset(s)|;
      r
  }

  lemma {:induction false} InsertSorted<T(!new)>(x: T, s: seq<T>, less: (T, T) -> bool)
    requires StrictWeak(less) && Sorted(s, less)
    ensures Sorted(Insert(x, s, less), less)
  {
    var r := Insert(x, s, less);
    if |s| > 0 && less(s[0], x) {
      InsertSorted(x, s[1..], less);
      forall i, j | 0 <= i < j < |r| ensures !less(r[j], r[i]) {
        if i == 0 {
          assert r[j] in multiset(Insert(x, s[1..], less));
          assert r[j] in multiset(s[1..]) + multiset{x};
          if r[j] != x {
            assert r[j] in s[1..];
          }
        }
      }
    } else if |s| > 0 {
      forall i, j | 0 <= i < j < |r| ensures !less(r[j], r[i]) {
        if i == 0 && j > 1 {
          assert !less(s[j - 1], s[0]) && !less(s[0], x);
        }
      }
    }
  }

  lemma {:induction false} SortSorted<T(!new)>(s: seq<T>, less: (T, T) -> bool)
    requires StrictWeak(less)
    ensures Sorted(Sort(s, less), less)
  {
    if |s| > 0 {
      SortSorted(s[1..], less);
      InsertSorted(s[0], Sort(s[1..], less), less);
    }
  }

  /** Two sorted lists of the same elements, all told apart, are the same list. */
  lemma {:induction false} SortedUnique<T(!new)>(s: seq<T>, t: seq<T>, less: (T, T) -> bool)
    requires StrictWeak(less) && Apart(s, less) && Sorted(s, less) && Sorted(t, less) && multiset(s) == multiset(t)
    ensures s == t
    decreases |s|
  {
    hide StrictWeak, Apart, Sorted;
    assert |s| == |multiset(s)| == |multiset(t)| == |t|;
    if |s| > 0 {
      SameFirst(s, t, less);
      RestOf(s, less);
      RestOf(t, less);
      SortedUnique(s[1..], t[1..], less);
    }
  }

  lemma RestOf<T(!new)>(s: seq<T>, less: (T, T) -> bool)
    requires |s| > 0
    ensures s == [s[0]] + s[1..] && multiset(s[1..]) == multiset(s) - multiset{s[0]}
    ensures Apart(s, less) ==> Apart(s[1..], less)
    ensures Sorted(s, less) ==> Sorted(s[1..], less)
  {
    assert s == [s[0]] + s[1..];
    assert forall a :: a in s[1..] ==> a in s;
  }

  lemma SameFirst<T(!new)>(s: seq<T>, t: seq<T>, less: (T, T) -> bool)
    requires Apart(s, less) && Sorted(s, less) && Sorted(t, less) && multiset(s) == multiset(t)
    requires |s| > 0 && |t| > 0
    ensures s[0] == t[0]
  {
    assert s[0] in multiset(t) && t[0] in multiset(s);
    var i :| 0 <= i < |t| && t[i] == s[0];
    var j :| 0 <= j < |s| && s[j] == t[0];
  }

  /** Sorting forgets the order of its input. */
  lemma SortOrderFree<T(!new)>(s: seq<T>, t: seq<T>, less: (T, T) -> bool)
    requires StrictWeak(less) && Apart(s, less) && multiset(s) == multiset(t)
    ensures Sort(s, less) == Sort(t, less)
  {
    SortSorted(s, less);
    SortSorted(t, less);
    SameMembers(Sort(s, less), s);
    SortedUnique(Sort(s, less), Sort(t, less), less);
  }

  // ---- A set as its sorted list ----

  ghost function Listed<T>(s: set<T>): (r: seq<T>)
    ensures multiset(r) == multiset(s)
  {
    if s == {} then []
    else
      var x :| x in s;
      assert multiset(s) == multiset(s - {x}) + multiset{x};
      [x] + Listed(s - {x})
  }

  /** The elements of a set, in order. */
  ghost function Ranked<T(!new)>(s: set<T>, less: (T, T) -> bool): seq<T> {
    Sort(Listed(s), less)
  }

  /** Whatever order a set's elements were gathered in, sorting gives the one ranked list. */
  lemma GatheredRanked<T(!new)>(r: seq<T>, s: set<T>, less: (T, T) -> bool)
    requires StrictTotal(less) && multiset(r) == multiset(s)
    ensures Sort(r, less) == Ranked(s, less)
  {
    SortOrderFree(r, Listed(s), less);
  }

  lemma RankedMembers<T(!new)>(s: set<T>, less: (T, T) -> bool)
    requires StrictTotal(less)
    ensures forall x :: x in Ranked(s, less) <==> x in s
    ensures Sorted(Ranked(s, less), less)
    ensures forall i, j :: 0 <= i < j < |Ranked(s, less)| ==> Ranked(s, less)[i] != Ranked(s, less)[j]
  {
    SortSorted(Listed(s), less);
    var r := Ranked(s, less);
    assert multiset(r) == multiset(s);
    forall x ensures x in r <==> x in s {
      assert x in multiset(r) <==> x in multiset(s);
    }
    forall i, j | 0 <= i < j < |r| ensures r[i] != r[j] {
      if r[i] == r[j] {
        Twice(r, i, j);
        assert false;
      }
    }
  }

  lemma Twice<T>(r: seq<T>, i: nat, j: nat)
    requires i < j < |r| && r[i] == r[j]
    ensures multiset(r)[r[i]] >= 2
  {
    assert r == r[..j] + ([r[j]] + r[j + 1..]);
    assert r[..j][i] == r[i];
    assert multiset(r[..j])[r[i]] >= 1;
  }

  /** A set's elements in an order nobody chose, as a loop over a map gathers them. */
  method Gather<T(==)>(s: set<T>) returns (r: seq<T>)
    ensures multiset(r) == multiset(s)
  {
    var rest := s;
    r := [];
    while rest != {}
      invariant rest <= s && multiset(r) + multiset(rest) == multiset(s)
      decreases |rest|
    {
      var x :| x in rest;
      assert multiset(rest) == multiset(rest - {x}) + multiset{x};
      rest, r := rest - {x}, r + [x];
    }
    assert multiset(rest) == multiset{};
  }

  /** stores: the names in a set, sorted. */
  method SortSet(s: set<string>) returns (r: seq<string>)
    ensures r == Ranked(s, Before)
  {
    var gathered := Gather(s);
    BeforeStrictTotal();
    GatheredRanked(gathered, s, Before);
    r := Sort(gathered, Before);
  }

  // ---- Lists built piece by piece ----

  function Flat<S, T>(xs: seq<S>, f: S -> seq<T>): seq<T> {
    if |xs| == 0 then [] else Flat(xs[..|xs| - 1], f) + f(xs[|xs| - 1])
  }

  lemma FlatStep<S, T>(xs: seq<S>, f: S -> seq<T>, i: nat)
    requires i < |xs|
    ensures Flat(xs[..i + 1], f) == Flat(xs[..i], f) + f(xs[i])
  {
    assert xs[..i + 1][..i] == xs[..i];
  }

  lemma {:induction false} FlatMember<S, T>(xs: seq<S>, f: S -> seq<T>, t: T)
    ensures t in Flat(xs, f) <==> exists i :: 0 <= i < |xs| && t in f(xs[i])
  {
    if |xs| > 0 {
      var front := xs[..|xs| - 1];
      FlatMember(front, f, t);
      if i :| 0 <= i < |xs| && t in f(xs[i]) {
        if i < |front| {
          assert t in f(front[i]);
        }
      }
      if t in Flat(front, f) {
        var i :| 0 <= i < |front| && t in f(front[i]);
        assert t in f(xs[i]);
      }
    }
  }

  lemma {:induction false} FlatRemove<S, T>(xs: seq<S>, f: S -> seq<T>, j: nat)
    requires j < |xs|
    ensures multiset(Flat(xs, f)) == multiset(Flat(xs[..j] + xs[j + 1..], f)) + multiset(f(xs[j]))
  {
    var n := |xs| - 1;
    var ys := xs[..j] + xs[j + 1..];
    if j < n {
      FlatRemove(xs[..n], f, j);
      assert ys[..n - 1] == xs[..n][..j] + xs[..n][j + 1..];
      assert ys[n - 1] == xs[n];
      assert Flat(ys, f) == Flat(ys[..n - 1], f) + f(xs[n]);
      assert Flat(xs, f) == Flat(xs[..n], f) + f(xs[n]);
    } else {
      assert ys == xs[..n];
    }
  }

  /** The pieces of a rearranged list are the same pieces. */
  lemma {:induction false} FlatOrderFree<S, T>(xs: seq<S>, ys: seq<S>, f: S -> seq<T>)
    requires multiset(xs) == multiset(ys)
    ensures multiset(Flat(xs, f)) == multiset(Flat(ys, f))
    decreases |xs|
  {
    assert |xs| == |multiset(xs)| == |multiset(ys)| == |ys|;
    if |xs| > 0 {
      var n := |xs| - 1;
      assert xs == xs[..n] + [xs[n]];
      assert xs[n] in multiset(ys);
      var j :| 0 <= j < |ys| && ys[j] == xs[n];
      var rest := ys[..j] + ys[j + 1..];
      assert ys == ys[..j] + ([ys[j]] + ys[j + 1..]);
      assert multiset(rest) == multiset(ys) - multiset{ys[j]};
      FlatOrderFree(xs[..n], rest, f);
      FlatRemove(ys, f, j);
    }
  }

  lemma SameMembers<T>(xs: seq<T>, ys: seq<T>)
    requires multiset(xs) == multiset(ys)
    ensures forall x :: x in xs <==> x in ys
  {
    forall x ensures x in xs <==> x in ys {
      assert x in multiset(xs) <==> x in multiset(ys);
    }
  }
}
