/** Sums over finite sets, and bounds by the fibres of a projection. */
module FiniteSums {

  // Picks by `:|` in a ghost function; the lemmas below show the choice does not matter.
  ghost function Total<A(!new)>(s: set<A>, f: A -> real): real {
    if s == {} then 0.0 else
      var x :| x in s;
      f(x) + Total(s - {x}, f)
  }

  lemma {:induction false} TotalRemove<A(!new)>(s: set<A>, f: A -> real, x: A)
    requires x in s
    ensures Total(s, f) == f(x) + Total(s - {x}, f)
  {
    var y :| y in s && Total(s, f) == f(y) + Total(s - {y}, f);
    if x != y {
      TotalRemove(s - {y}, f, x);
      TotalRemove(s - {x}, f, y);
      assert s - {x} - {y} == s - {y} - {x};
    }
  }

  lemma {:induction false} TotalSplit<A(!new)>(a: set<A>, b: set<A>, f: A -> real)
    requires a !! b
    ensures Total(a + b, f) == Total(a, f) + Total(b, f)
  {
    if a == {} {
      assert a + b == b;
    } else {
      var x :| x in a;
      TotalSplit(a - {x}, b, f);
      TotalRemove(a, f, x);
      TotalRemove(a + b, f, x);
      assert a + b - {x} == (a - {x}) + b;
    }
  }

  lemma {:induction false} TotalNonnegative<A(!new)>(s: set<A>, f: A -> real)
    requires forall x :: x in s ==> f(x) >= 0.0
    ensures Total(s, f) >= 0.0
  {
    if s != {} {
      var x :| x in s;
      TotalRemove(s, f, x);
      TotalNonnegative(s - {x}, f);
    }
  }

  lemma TotalSubset<A(!new)>(a: set<A>, b: set<A>, f: A -> real)
    requires a <= b && forall x :: x in b ==> f(x) >= 0.0
    ensures Total(a, f) <= Total(b, f)
  {
    assert a + (b - a) == b;
    TotalSplit(a, b - a, f);
    TotalNonnegative(b - a, f);
  }

  function Fibre<A(!new), B(==)>(s: set<A>, g: A -> B, y: B): set<A> {
    set x | x in s && g(x) == y
  }

  // If no fibre sums to more than `c`, the whole sums to at most `c` for each fibre.
  lemma {:induction false} TotalByFibres<A(!new), B(!new)>(s: set<A>, t: set<B>, g: A -> B, f: A -> real, c: real)
    requires forall x :: x in s ==> g(x) in t
    requires forall y :: y in t ==> Total(Fibre(s, g, y), f) <= c
    ensures Total(s, f) <= Times(|t|, c)
    decreases t
  {
    hide Total, Times;
    if t == {} {
      assert s == {};
      Nothing(f, c);
    } else {
      var y :| y in t;
      var here, rest := Fibre(s, g, y), s - Fibre(s, g, y);
      forall z | z in t - {y} ensures Total(Fibre(rest, g, z), f) <= c {
        assert Fibre(rest, g, z) == Fibre(s, g, z);
      }
      TotalByFibres(rest, t - {y}, g, f, c);
      assert here + rest == s;
      TotalSplit(here, rest, f);
      TimesMore(|t - {y}|, c);
      assert |t| == |t - {y}| + 1;
    }
  }

  function Times(n: nat, c: real): real { n as real * c }

  lemma Nothing<A(!new)>(f: A -> real, c: real)
    ensures Total({}, f) == 0.0 == Times(0, c)
  {
  }

  lemma TimesMore(n: nat, c: real)
    ensures Times(n + 1, c) == Times(n, c) + c
  {
  }

  lemma {:induction false} SizeByFibres<A(!new), B(!new)>(s: set<A>, t: set<B>, g: A -> B, c: nat)
    requires forall x :: x in s ==> g(x) in t
    requires forall y :: y in t ==> |Fibre(s, g, y)| <= c
    ensures |s| <= |t| * c
    decreases t
  {
    if t == {} {
      assert s == {};
    } else {
      var y :| y in t;
      var here, rest := Fibre(s, g, y), s - Fibre(s, g, y);
      forall z | z in t - {y} ensures |Fibre(rest, g, z)| <= c {
        assert Fibre(rest, g, z) == Fibre(s, g, z);
      }
      SizeByFibres(rest, t - {y}, g, c);
      assert here + rest == s;
      OneMore(|s|, |rest|, |here|, |t|, |t - {y}|, c);
    }
  }

  lemma OneMore(whole: nat, rest: nat, here: nat, n: nat, m: nat, c: nat)
    requires whole == here + rest && here <= c && rest <= m * c && n == m + 1
    ensures whole <= n * c
  {
  }

  lemma {:induction false} SizeSubset<A>(a: set<A>, b: set<A>)
    requires a <= b
    ensures |a| <= |b|
  {
    if a != {} {
      var x :| x in a;
      SizeSubset(a - {x}, b - {x});
    }
  }

  lemma {:induction false} SizeImage<A(!new), B>(s: set<A>, t: set<B>, g: A -> B)
    requires forall x, y :: x in s && y in s && g(x) == g(y) ==> x == y
    requires forall x :: x in s ==> g(x) in t
    ensures |s| <= |t|
  {
    if s != {} {
      var x :| x in s;
      SizeImage(s - {x}, t - {g(x)}, g);
    }
  }
}
