/** Lists without duplicates, removal of every copy of an element, and two counting principles. */
module Lists {

  predicate NoDup<T(==)>(xs: seq<T>) {
    forall i, j :: 0 <= i < j < |xs| ==> xs[i] != xs[j]
  }

  function SetOf<T(==)>(xs: seq<T>): set<T> {
    set x | x in xs
  }

  /** What Vec::retain(|y| y != x) leaves behind. */
  function Without<T(==)>(xs: seq<T>, x: T): seq<T> {
    if xs == [] then []
    else
      var kept := Without(xs[..|xs| - 1], x);
      if xs[|xs| - 1] == x then kept else kept + [xs[|xs| - 1]]
  }

  lemma {:induction false} WithoutMembers<T>(xs: seq<T>, x: T)
    ensures forall y :: y in Without(xs, x) <==> y in xs && y != x
  {
    if xs != [] {
      WithoutMembers(xs[..|xs| - 1], x);
      assert xs == xs[..|xs| - 1] + [xs[|xs| - 1]];
    }
  }

  lemma {:induction false} WithoutNoDup<T>(xs: seq<T>, x: T)
    requires NoDup(xs)
    ensures NoDup(Without(xs, x))
  {
    if xs != [] {
      var init, last := xs[..|xs| - 1], xs[|xs| - 1];
      WithoutNoDup(init, x);
      WithoutMembers(init, x);
      assert last !in init;
    }
  }

  lemma {:induction false} WithoutAbsent<T>(xs: seq<T>, x: T)
    requires x !in xs
    ensures Without(xs, x) == xs
  {
    if xs != [] {
      WithoutAbsent(xs[..|xs| - 1], x);
      assert xs == xs[..|xs| - 1] + [xs[|xs| - 1]];
    }
  }

  lemma {:induction false} WithoutMultiset<T>(xs: seq<T>, x: T)
    ensures multiset(Without(xs, x)) == multiset(xs)[x := 0]
  {
    if xs != [] {
      WithoutMultiset(xs[..|xs| - 1], x);
      assert xs == xs[..|xs| - 1] + [xs[|xs| - 1]];
    }
  }

  lemma WithoutSnoc<T>(xs: seq<T>, y: T, x: T)
    ensures Without(xs + [y], x) == if y == x then Without(xs, x) else Without(xs, x) + [y]
  {
    assert (xs + [y])[..|xs|] == xs;
  }

  lemma WithoutNone<T>(x: T)
    ensures Without([], x) == [] && [] + [x] == [x]
  {
  }

  /** What retain does to any list: part by part, in order, the one element goes and all others stay. */
  lemma {:induction false} WithoutLaws<T>(a: seq<T>, b: seq<T>, x: T)
    ensures Without(a + b, x) == Without(a, x) + Without(b, x)
    ensures Without([x], x) == [] && x !in Without(a, x)
    ensures x !in a ==> Without(a, x) == a
  {
    WithoutNone(x);
    hide Without;
    WithoutMembers(a, x);
    WithoutSnoc([], x, x);
    if x !in a {
      WithoutAbsent(a, x);
    }
    if b == [] {
      assert a + b == a;
    } else {
      var init, last := b[..|b| - 1], b[|b| - 1];
      WithoutLaws(a, init, x);
      assert a + b == (a + init) + [last] && b == init + [last];
      WithoutSnoc(a + init, last, x);
      WithoutSnoc(init, last, x);
    }
  }

  lemma {:induction false} NoDupCount<T>(xs: seq<T>)
    requires NoDup(xs)
    ensures |SetOf(xs)| == |xs|
  {
    if xs != [] {
      var init, last := xs[..|xs| - 1], xs[|xs| - 1];
      NoDupCount(init);
      assert xs == init + [last];
      assert SetOf(xs) == SetOf(init) + {last};
      assert last !in SetOf(init);
    }
  }

  lemma {:induction false} NoDupMultiset<T>(xs: seq<T>)
    requires NoDup(xs)
    ensures multiset(xs) == multiset(SetOf(xs))
  {
    if xs != [] {
      var init, last := xs[..|xs| - 1], xs[|xs| - 1];
      NoDupMultiset(init);
      assert xs == init + [last];
      assert SetOf(xs) == SetOf(init) + {last};
      assert last !in SetOf(init);
    }
  }

  lemma {:induction false} SetOfCount<T>(xs: seq<T>)
    ensures |SetOf(xs)| <= |xs|
  {
    if xs != [] {
      var init, last := xs[..|xs| - 1], xs[|xs| - 1];
      SetOfCount(init);
      assert xs == init + [last];
      assert SetOf(xs) == SetOf(init) + {last};
    }
  }

  lemma UnionCount<T>(a: set<T>, b: set<T>)
    ensures |a + b| == |a| + |b - a|
  {
    assert a + b == a + (b - a);
  }

  lemma SubsetCount<T>(a: set<T>, b: set<T>)
    requires a <= b
    ensures |a| <= |b|
  {
    assert b == a + (b - a);
  }

  ghost predicate InjectiveOn<S(!new), T(!new)>(dom: set<S>, f: S -> T) {
    forall s, t :: s in dom && t in dom && f(s) == f(t) ==> s == t
  }

  ghost function Image<S(!new), T(!new)>(dom: set<S>, f: S -> T): set<T> {
    set s | s in dom :: f(s)
  }

  lemma {:induction false} ImageCount<S(!new), T(!new)>(dom: set<S>, f: S -> T)
    requires InjectiveOn(dom, f)
    ensures |Image(dom, f)| == |dom|
  {
    if dom != {} {
      var s :| s in dom;
      ImageCount(dom - {s}, f);
      assert Image(dom, f) == Image(dom - {s}, f) + {f(s)};
    }
  }

  /** Pigeonhole: when every element of dom is related to something in cod, and nothing in cod is
      related to two of them, cod is at least as large as dom. */
  lemma {:induction false} Pigeonhole<S(!new), T(!new)>(dom: set<S>, cod: set<T>, rel: (S, T) -> bool)
    requires forall s :: s in dom ==> exists t :: t in cod && rel(s, t)
    requires forall s, s', t :: s in dom && s' in dom && rel(s, t) && rel(s', t) ==> s == s'
    ensures |dom| <= |cod|
  {
    if dom != {} {
      var s :| s in dom;
      var t :| t in cod && rel(s, t);
      forall s' | s' in dom - {s}
        ensures exists t' :: t' in cod - {t} && rel(s', t')
      {
        var t' :| t' in cod && rel(s', t');
        assert t' != t;
      }
      Pigeonhole(dom - {s}, cod - {t}, rel);
    }
  }
}
