/** The list operations the two selection stores share: JavaScript's
    `includes`, `filter(d => d !== x)` and the toggle built from them. */
module DateLists {

  predicate NoDuplicates<T(==)>(s: seq<T>) {
    forall i, j :: 0 <= i < j < |s| ==> s[i] != s[j]
  }

  /** `s.filter(d => d !== x)`: every occurrence of `x` removed, every other
      element kept as often as it occurs. */
  function Without<T(==)>(s: seq<T>, x: T): (r: seq<T>)
    ensures multiset(r) == multiset(s)[x := 0]
    ensures |r| == |s| - multiset(s)[x]
    ensures NoDuplicates(s) ==> NoDuplicates(r)
  {
    if s == [] then []
    else
      assert s == [s[0]] + s[1..];
      var rest := Without(s[1..], x);
      if s[0] == x then rest
      else
        assert NoDuplicates(s) ==> s[0] !in rest by {
          if NoDuplicates(s) {
            assert s[0] !in s[1..];
            assert multiset(rest)[s[0]] == multiset(s[1..])[s[0]] == 0;
          }
        }
        [s[0]] + rest
  }

  /** An element is left by Without exactly when it occurred and is not `x`. */
  lemma WithoutMember<T>(s: seq<T>, x: T, y: T)
    ensures y in Without(s, x) <==> y in s && y != x
  {
    assert y in Without(s, x) <==> multiset(Without(s, x))[y] > 0;
  }

  /** The toggle of both selection stores: remove `x` if present, otherwise
      append it. The result holds `x` exactly when `s` did not, and holds
      every other element exactly when `s` did. */
  function Toggle<T(==)>(s: seq<T>, x: T): (r: seq<T>)
    ensures x in r <==> x !in s
    ensures forall y :: y in r && y != x ==> y in s
    ensures forall y :: y in s && y != x ==> y in r
    ensures NoDuplicates(s) ==> NoDuplicates(r)
  {
    if x in s then
      var r := Without(s, x);
      assert forall y :: y in r ==> y in s && y != x by {
        forall y | y in r
          ensures y in s && y != x
        {
          WithoutMember(s, x, y);
        }
      }
      assert forall y :: y in s && y != x ==> y in r by {
        forall y | y in s && y != x
          ensures y in r
        {
          WithoutMember(s, x, y);
        }
      }
      r
    else
      s + [x]
  }

  lemma {:induction false} WithoutAbsent<T>(s: seq<T>, x: T)
    requires x !in s
    ensures Without(s, x) == s
  {
    if s != [] {
      WithoutAbsent(s[1..], x);
    }
  }

  lemma {:induction false} WithoutAppended<T>(s: seq<T>, x: T)
    ensures Without(s + [x], x) == Without(s, x)
  {
    if s == [] {
      assert [x][1..] == [];
    } else {
      assert (s + [x])[1..] == s[1..] + [x];
      WithoutAppended(s[1..], x);
    }
  }

  /** Toggling a date that was not selected, and toggling it again, gives
      back exactly the list it started from. */
  lemma ToggleTwiceAbsent<T>(s: seq<T>, x: T)
    requires x !in s
    ensures Toggle(Toggle(s, x), x) == s
  {
    assert x in s + [x];
    WithoutAppended(s, x);
    WithoutAbsent(s, x);
  }

  /** Toggling a selected date twice moves it to the end: on a list without
      duplicates the result is a permutation of the original. */
  lemma ToggleTwicePresent<T>(s: seq<T>, x: T)
    requires x in s && NoDuplicates(s)
    ensures multiset(Toggle(Toggle(s, x), x)) == multiset(s)
  {
    AtMostOnce(s, x);
  }

  lemma {:induction false} AtMostOnce<T>(s: seq<T>, x: T)
    requires NoDuplicates(s)
    ensures multiset(s)[x] <= 1
  {
    if s != [] {
      assert s == [s[0]] + s[1..];
      assert NoDuplicates(s[1..]);
      AtMostOnce(s[1..], x);
      if s[0] == x {
        assert x !in s[1..];
      }
    }
  }

  /** A list without duplicates whose elements all occur in `t` is no longer than `t`. */
  lemma {:induction false} DistinctWithin<T>(s: seq<T>, t: seq<T>)
    requires NoDuplicates(s)
    requires forall y :: y in s ==> y in t
    ensures |s| <= |t|
  {
    if s != [] {
      var t' := Without(t, s[0]);
      assert NoDuplicates(s[1..]);
      forall y | y in s[1..]
        ensures y in t'
      {
        assert y != s[0];
        WithoutMember(t, s[0], y);
      }
      DistinctWithin(s[1..], t');
      assert s[0] in s;
      assert s[0] in multiset(t);
    }
  }

  /** The list built by toggling the elements of a duplicate-free list one
      after the other, starting from an empty selection. */
  function ToggleAll<T(==)>(s: seq<T>): seq<T> {
    if s == [] then [] else Toggle(ToggleAll(s[..|s| - 1]), s[|s| - 1])
  }

  lemma ToggleAbsent<T>(s: seq<T>, x: T)
    requires x !in s
    ensures Toggle(s, x) == s + [x]
  {
  }

  /** Every duplicate-free list is reachable by toggles from the empty one. */
  lemma {:induction false} ToggleAllBuilds<T>(s: seq<T>)
    requires NoDuplicates(s)
    ensures ToggleAll(s) == s
  {
    if s != [] {
      var init, last := s[..|s| - 1], s[|s| - 1];
      assert s == init + [last];
      assert NoDuplicates(init) by {
        forall i, j | 0 <= i < j < |init|
          ensures init[i] != init[j]
        {
          assert init[i] == s[i] && init[j] == s[j];
        }
      }
      assert last !in init by {
        forall i | 0 <= i < |init|
          ensures init[i] != last
        {
          assert init[i] == s[i];
        }
      }
      ToggleAllBuilds(init);
      ToggleAbsent(init, last);
    }
  }
}
