/**
  Strict total orders on finite sets, and the `n` least elements of a set.

  A `BTreeSet` is modelled by the set of its elements; iterating it visits them
  in ascending order, so `iter().take(n)` yields `FirstN(lt, s, n)`.
*/
module Order {

  ghost predicate StrictTotal<T(!new)>(lt: (T, T) -> bool, s: set<T>)
  {
    && (forall a :: a in s ==> !lt(a, a))
    && (forall a, b :: a in s && b in s && a != b ==> lt(a, b) || lt(b, a))
    && (forall a, b, c :: a in s && b in s && c in s && lt(a, b) && lt(b, c) ==> lt(a, c))
  }

  ghost predicate IsLeast<T(!new)>(lt: (T, T) -> bool, s: set<T>, e: T)
  {
    e in s && forall f :: f in s && f != e ==> lt(e, f)
  }

  ghost predicate IsGreatest<T(!new)>(lt: (T, T) -> bool, s: set<T>, e: T)
  {
    e in s && forall f :: f in s && f != e ==> lt(f, e)
  }

  /** The elements of `s` that come before `e`. */
  ghost function Below<T(!new)>(lt: (T, T) -> bool, s: set<T>, e: T): set<T>
  {
    set f | f in s && lt(f, e)
  }

  /** The `n` least elements of `s`: those with fewer than `n` elements before them. */
  ghost function FirstN<T(!new)>(lt: (T, T) -> bool, s: set<T>, n: nat): set<T>
  {
    set e | e in s && |Below(lt, s, e)| < n
  }

  ghost predicate DownClosed<T(!new)>(lt: (T, T) -> bool, s: set<T>, t: set<T>)
  {
    forall e, f :: e in t && f in s && lt(f, e) ==> f in t
  }

  function Min(a: nat, b: nat): nat { if a <= b then a else b }

  lemma SubsetCard<T>(a: set<T>, b: set<T>)
    requires a <= b
    ensures |a| <= |b|
    ensures |a| == |b| ==> a == b
  {
    assert b == a + (b - a);
    assert |b| == |a| + |b - a|;
  }

  lemma {:induction false} LeastExists<T(!new)>(lt: (T, T) -> bool, s: set<T>) returns (e: T)
    requires StrictTotal(lt, s) && s != {}
    ensures IsLeast(lt, s, e)
    decreases |s|
  {
    var x :| x in s;
    if s == {x} {
      e := x;
    } else {
      var m := LeastExists(lt, s - {x});
      e := if lt(x, m) then x else m;
    }
  }

  lemma {:induction false} GreatestExists<T(!new)>(lt: (T, T) -> bool, s: set<T>) returns (e: T)
    requires StrictTotal(lt, s) && s != {}
    ensures IsGreatest(lt, s, e)
    decreases |s|
  {
    var x :| x in s;
    if s == {x} {
      e := x;
    } else {
      var m := GreatestExists(lt, s - {x});
      e := if lt(m, x) then x else m;
    }
  }

  /** A set with no more than `n` elements is its own first `n`. */
  lemma FirstNAll<T(!new)>(lt: (T, T) -> bool, s: set<T>, n: nat)
    requires StrictTotal(lt, s) && |s| <= n
    ensures FirstN(lt, s, n) == s
  {
    forall e | e in s
      ensures e in FirstN(lt, s, n)
    {
      SubsetCard(Below(lt, s, e), s - {e});
    }
  }

  /** Dropping the greatest of more than `n` elements does not change the first `n`. */
  lemma FirstNDropGreatest<T(!new)>(lt: (T, T) -> bool, s: set<T>, n: nat, g: T)
    requires StrictTotal(lt, s) && |s| > n && IsGreatest(lt, s, g)
    ensures FirstN(lt, s, n) == FirstN(lt, s - {g}, n)
  {
    forall e | e in s - {g}
      ensures Below(lt, s, e) == Below(lt, s - {g}, e)
    {
      assert lt(e, g);
      assert !lt(g, e);
    }
    assert Below(lt, s, g) == s - {g};
  }

  lemma {:induction false} FirstNSize<T(!new)>(lt: (T, T) -> bool, s: set<T>, n: nat)
    requires StrictTotal(lt, s)
    ensures |FirstN(lt, s, n)| == Min(n, |s|)
    decreases |s|
  {
    if |s| <= n {
      FirstNAll(lt, s, n);
    } else {
      var g := GreatestExists(lt, s);
      FirstNDropGreatest(lt, s, n, g);
      FirstNSize(lt, s - {g}, n);
    }
  }

  /** No omitted element comes before a chosen one. */
  lemma FirstNDownClosed<T(!new)>(lt: (T, T) -> bool, s: set<T>, n: nat)
    requires StrictTotal(lt, s)
    ensures DownClosed(lt, s, FirstN(lt, s, n))
  {
    forall e, f | e in FirstN(lt, s, n) && f in s && lt(f, e)
      ensures f in FirstN(lt, s, n)
    {
      SubsetCard(Below(lt, s, f), Below(lt, s, e));
    }
  }

  /** The first `n` are characterised by their size and by being closed downwards. */
  lemma FirstNUnique<T(!new)>(lt: (T, T) -> bool, s: set<T>, n: nat, t: set<T>)
    requires StrictTotal(lt, s) && t <= s && DownClosed(lt, s, t)
    requires |t| == Min(n, |s|)
    ensures t == FirstN(lt, s, n)
  {
    if |t| == |s| {
      SubsetCard(t, s);
    }
    forall e | e in s
      ensures e in t <==> e in FirstN(lt, s, n)
    {
      if e in t {
        SubsetCard(Below(lt, s, e), t - {e});
      } else {
        assert t <= Below(lt, s, e);
        SubsetCard(t, Below(lt, s, e));
      }
    }
  }

  /** Taking the least of what is left keeps what is taken closed downwards. */
  lemma LeastOfRest<T(!new)>(lt: (T, T) -> bool, s: set<T>, taken: set<T>, e: T)
    requires StrictTotal(lt, s) && taken <= s && DownClosed(lt, s, taken) && IsLeast(lt, s - taken, e)
    ensures DownClosed(lt, s, taken + {e})
  {
  }

  /** Taken one after the other until there are `n` or none is left, they are the first `n`. */
  lemma TakenAreFirst<T(!new)>(lt: (T, T) -> bool, s: set<T>, taken: set<T>, n: nat)
    requires StrictTotal(lt, s) && taken <= s && DownClosed(lt, s, taken)
    requires |taken| <= n && (|taken| == n || taken == s)
    ensures taken == FirstN(lt, s, n)
  {
    SubsetCard(taken, s);
    FirstNUnique(lt, s, n, taken);
  }

  /** Keeping only the first `n` so far, and then adding one, loses nothing. */
  lemma FirstNInsert<T(!new)>(lt: (T, T) -> bool, s: set<T>, n: nat, e: T)
    requires StrictTotal(lt, s + {e})
    ensures FirstN(lt, FirstN(lt, s, n) + {e}, n) == FirstN(lt, s + {e}, n)
  {
    var kept := FirstN(lt, s, n);
    var t := FirstN(lt, kept + {e}, n);
    FirstNSize(lt, s, n);
    FirstNSize(lt, kept + {e}, n);
    FirstNSize(lt, s + {e}, n);
    FirstNDownClosed(lt, s, n);
    FirstNDownClosed(lt, kept + {e}, n);
    assert |t| == Min(n, |s + {e}|) by {
      if |s| <= n {
        FirstNAll(lt, s, n);
      } else {
        assert |kept| == n;
        SubsetCard(kept, kept + {e});
        SubsetCard(s, s + {e});
      }
    }
    forall x, f | x in t && f in s + {e} && lt(f, x)
      ensures f in t
    {
      if f !in kept + {e} {
        // then all of the n kept elements precede f, hence x: too many to let x in
        assert f in s && f !in kept;
        forall y | y in kept
          ensures lt(y, f)
        {
          assert !lt(f, y);
        }
        assert x !in kept;
        assert kept <= Below(lt, kept + {e}, x);
        SubsetCard(kept, Below(lt, kept + {e}, x));
        if |s| <= n { FirstNAll(lt, s, n); }
        assert false;
      }
    }
    FirstNUnique(lt, s + {e}, n, t);
  }

  // ---- texts in lexicographic order, as a `BTreeSet<String>` keeps them ----

  predicate LexLess(a: string, b: string) {
    if b == [] then false
    else if a == [] then true
    else a[0] < b[0] || (a[0] == b[0] && LexLess(a[1..], b[1..]))
  }

  lemma {:induction false} LexConnected(a: string, b: string)
    ensures !LexLess(a, a)
    ensures a != b ==> LexLess(a, b) || LexLess(b, a)
  {
    if a != [] {
      LexConnected(a[1..], if b == [] then [] else b[1..]);
      if b != [] && a[0] == b[0] {
        assert a == [a[0]] + a[1..] && b == [b[0]] + b[1..];
      }
    }
  }

  lemma {:induction false} LexTransitive(a: string, b: string, c: string)
    requires LexLess(a, b) && LexLess(b, c)
    ensures LexLess(a, c)
  {
    if a != [] && a[0] == b[0] && b[0] == c[0] {
      LexTransitive(a[1..], b[1..], c[1..]);
    }
  }

  lemma LexOrdered(s: set<string>)
    ensures StrictTotal(LexLess, s)
  {
    forall a, b | a in s && b in s
      ensures !LexLess(a, a) && (a != b ==> LexLess(a, b) || LexLess(b, a))
    {
      LexConnected(a, b);
    }
    forall a, b, c | LexLess(a, b) && LexLess(b, c)
      ensures LexLess(a, c)
    {
      LexTransitive(a, b, c);
    }
  }

  /** Up to the first place where they differ the texts are the same, and there one ends or has the lesser character. */
  ghost predicate Precedes(a: string, b: string) { exists i :: DiffersAt(a, b, i) }

  ghost predicate DiffersAt(a: string, b: string, i: int) {
    0 <= i <= |a| && i < |b| && a[..i] == b[..i] && (i == |a| || a[i] < b[i])
  }

  lemma {:induction false} LexMeans(a: string, b: string)
    ensures LexLess(a, b) <==> Precedes(a, b)
  {
    if a != [] && b != [] {
      LexMeans(a[1..], b[1..]);
      PrecedesStep(a, b);
      hide Precedes;
    } else if b != [] {
      assert DiffersAt(a, b, 0);
    }
  }

  lemma PrecedesStep(a: string, b: string)
    requires a != [] && b != []
    ensures Precedes(a, b) <==> a[0] < b[0] || (a[0] == b[0] && Precedes(a[1..], b[1..]))
  {
    hide DiffersAt;
    forall i
      ensures DiffersAt(a, b, i) <==>
              if i == 0 then a[0] < b[0] else a[0] == b[0] && DiffersAt(a[1..], b[1..], i - 1)
    {
      DiffersStep(a, b, i);
    }
    if Precedes(a[1..], b[1..]) {
      var i :| DiffersAt(a[1..], b[1..], i);
      assert i + 1 != 0 ==> (DiffersAt(a, b, i + 1) <==> a[0] == b[0] && DiffersAt(a[1..], b[1..], i + 1 - 1));
      DifferInside(a[1..], b[1..], i);
    }
    assert a[0] < b[0] ==> DiffersAt(a, b, 0);
  }

  lemma DifferInside(a: string, b: string, i: int)
    requires DiffersAt(a, b, i)
    ensures i >= 0
  {
  }

  lemma DiffersStep(a: string, b: string, i: int)
    requires a != [] && b != []
    ensures DiffersAt(a, b, i) <==>
            if i == 0 then a[0] < b[0] else a[0] == b[0] && DiffersAt(a[1..], b[1..], i - 1)
  {
    if 0 < i <= |a| && i < |b| {
      assert a[..i] == [a[0]] + a[1..][..i - 1] && b[..i] == [b[0]] + b[1..][..i - 1];
      assert a[..i][0] == a[0] && b[..i][0] == b[0];
      assert a[..i][1..] == a[1..][..i - 1] && b[..i][1..] == b[1..][..i - 1];
    }
  }
}
