/** The index-based `java.util.List` operations the note store and the list adapter rely on. */
module Lists {

  /** Java's `list.remove(int p)`: the element at `p` goes and the later ones shift left by one. */
  function RemoveAt<T>(s: seq<T>, p: nat): (r: seq<T>)
    requires p < |s|
    ensures |r| == |s| - 1
    ensures forall k :: 0 <= k < p ==> r[k] == s[k]
    ensures forall k :: p <= k < |r| ==> r[k] == s[k + 1]
  {
    s[..p] + s[p + 1..]
  }

  /** Removing at a later index keeps the head. */
  lemma RemoveAtCons<T>(s: seq<T>, p: nat)
    requires 0 < p < |s|
    ensures RemoveAt(s, p) == [s[0]] + RemoveAt(s[1..], p - 1)
  {
    var r := RemoveAt(s, p);
    var t := [s[0]] + RemoveAt(s[1..], p - 1);
    assert |r| == |t|;
    forall k | 0 <= k < |r|
      ensures r[k] == t[k]
    {
      if k > 0 {
        assert t[k] == RemoveAt(s[1..], p - 1)[k - 1];
      }
    }
  }

  /** No element occurs twice. */
  predicate Distinct<T(==)>(s: seq<T>) {
    forall i, j :: 0 <= i < j < |s| ==> s[i] != s[j]
  }

  /** The elements of `s` whose index is NOT in `ps`, in their original order. */
  function Without<T>(s: seq<T>, ps: set<int>): seq<T>
    decreases |s|
  {
    if |s| == 0 then []
    else Without(s[..|s| - 1], ps) + (if |s| - 1 in ps then [] else [s[|s| - 1]])
  }

  /** The elements of `s` whose index IS in `ps`, in their original order. */
  function Picked<T>(s: seq<T>, ps: set<int>): seq<T>
    decreases |s|
  {
    if |s| == 0 then []
    else Picked(s[..|s| - 1], ps) + (if |s| - 1 in ps then [s[|s| - 1]] else [])
  }

  /** Removing no index of `s` leaves `s` whole and picks nothing. */
  lemma {:induction false} WithoutNothing<T>(s: seq<T>, ps: set<int>)
    requires forall q :: q in ps ==> q >= |s|
    ensures Without(s, ps) == s && Picked(s, ps) == []
    decreases |s|
  {
    if |s| > 0 {
      WithoutNothing(s[..|s| - 1], ps);
    }
  }

  /** The step of a removal loop that goes from the highest index down: removing index `p` from
      what is left after the higher indices `ps` went is removing `ps + {p}`, and the element
      found at `p` is still the original one. */
  lemma {:induction false} RemoveBelow<T>(s: seq<T>, ps: set<int>, p: nat)
    requires p < |s|
    requires forall q :: q in ps ==> q > p
    ensures p < |Without(s, ps)| && Without(s, ps)[p] == s[p]
    ensures RemoveAt(Without(s, ps), p) == Without(s, ps + {p})
    decreases |s|
  {
    var n := |s|;
    var init := s[..n - 1];
    if n - 1 == p {
      WithoutNothing(init, ps);
      WithoutNothing(init, ps + {p});
    } else {
      RemoveBelow(init, ps, p);
      var w := Without(init, ps);
      var tail := if n - 1 in ps then [] else [s[n - 1]];
      WithoutLast(s, ps);
      WithoutLast(s, ps + {p});
      assert RemoveAt(w + tail, p) == RemoveAt(w, p) + tail;
    }
  }

  /** In the same loop, the element removed at `p` comes before all the elements picked so far. */
  lemma {:induction false} PickBelow<T>(s: seq<T>, ps: set<int>, p: nat)
    requires p < |s|
    requires forall q :: q in ps ==> q > p
    ensures Picked(s, ps + {p}) == [s[p]] + Picked(s, ps)
    decreases |s|
  {
    var n := |s|;
    var init := s[..n - 1];
    var tail := if n - 1 in ps then [s[n - 1]] else [];
    if n - 1 == p {
      assert Picked(s, ps) == [] by {
        WithoutNothing(init, ps);
        PickedLast(s, ps);
      }
      assert Picked(s, ps + {p}) == [s[p]] by {
        WithoutNothing(init, ps + {p});
        PickedLast(s, ps + {p});
      }
    } else {
      assert Picked(s, ps) == Picked(init, ps) + tail by {
        PickedLast(s, ps);
      }
      assert Picked(s, ps + {p}) == Picked(init, ps + {p}) + tail by {
        PickedLast(s, ps + {p});
      }
      PickBelow(init, ps, p);
      assert init[p] == s[p];
    }
  }

  /** Every element is either kept or picked: nothing is lost and nothing is duplicated. */
  lemma {:induction false} WithoutPickedSplit<T>(s: seq<T>, ps: set<int>)
    ensures multiset(Without(s, ps)) + multiset(Picked(s, ps)) == multiset(s)
    decreases |s|
  {
    if |s| > 0 {
      var n := |s|;
      var init, last := s[..n - 1], s[n - 1];
      var w, p := Without(init, ps), Picked(init, ps);
      WithoutPickedSplit(init, ps);
      assert multiset(s) == multiset(init) + multiset{last} by {
        assert s == init + [last];
      }
      if n - 1 in ps {
        assert Without(s, ps) == w && Picked(s, ps) == p + [last] by {
          WithoutLast(s, ps);
          PickedLast(s, ps);
        }
        assert multiset(p + [last]) == multiset(p) + multiset{last};
      } else {
        assert Without(s, ps) == w + [last] && Picked(s, ps) == p by {
          WithoutLast(s, ps);
          PickedLast(s, ps);
        }
        assert multiset(w + [last]) == multiset(w) + multiset{last};
      }
    }
  }

  /** Hence the kept and the picked elements together are as many as the original ones. */
  lemma WithoutPickedCount<T>(s: seq<T>, ps: set<int>)
    ensures |Without(s, ps)| + |Picked(s, ps)| == |s|
  {
    WithoutPickedSplit(s, ps);
    assert |multiset(Without(s, ps)) + multiset(Picked(s, ps))| == |multiset(s)|;
  }

  lemma {:induction false} WithoutLast<T>(s: seq<T>, ps: set<int>)
    requires |s| > 0
    ensures Without(s, ps) == Without(s[..|s| - 1], ps) + (if |s| - 1 in ps then [] else [s[|s| - 1]])
  {
  }

  lemma {:induction false} PickedLast<T>(s: seq<T>, ps: set<int>)
    requires |s| > 0
    ensures Picked(s, ps) == Picked(s[..|s| - 1], ps) + (if |s| - 1 in ps then [s[|s| - 1]] else [])
  {
  }

  /** `Picked` looks only at the indices of `s`. */
  lemma {:induction false} PickedInRange<T>(s: seq<T>, ps: set<int>, qs: set<int>)
    requires forall q :: 0 <= q < |s| ==> (q in ps <==> q in qs)
    ensures Picked(s, ps) == Picked(s, qs)
    decreases |s|
  {
    if |s| > 0 {
      PickedInRange(s[..|s| - 1], ps, qs);
    }
  }

  /** Picking a set of indices of `s` picks exactly that many elements. */
  lemma {:induction false} PickedSize<T>(s: seq<T>, ps: set<int>)
    requires forall q :: q in ps ==> 0 <= q < |s|
    ensures |Picked(s, ps)| == |ps|
    decreases |s|
  {
    if |s| > 0 {
      var n := |s|;
      var rest := ps - {n - 1};
      PickedInRange(s[..n - 1], ps, rest);
      PickedSize(s[..n - 1], rest);
      PickedLast(s, ps);
      assert |Picked(s[..n - 1], ps)| == |rest|;
      if n - 1 in ps {
        assert ps == rest + {n - 1};
        assert |ps| == |rest| + 1;
        assert |Picked(s, ps)| == |Picked(s[..n - 1], ps)| + 1;
      } else {
        assert ps == rest;
        assert |Picked(s, ps)| == |Picked(s[..n - 1], ps)|;
      }
    } else {
      assert forall q :: q !in ps;
      assert ps == {};
    }
  }

  /** Removing a set of valid indices shortens the list by the size of the set. */
  lemma WithoutSize<T>(s: seq<T>, ps: set<int>)
    requires forall q :: q in ps ==> 0 <= q < |s|
    ensures |Without(s, ps)| == |s| - |ps|
  {
    PickedSize(s, ps);
    WithoutPickedCount(s, ps);
  }

  /** Ordered from the largest to the smallest, repeats allowed. */
  predicate Descending(s: seq<int>) {
    forall i, j :: 0 <= i < j < |s| ==> s[i] >= s[j]
  }

  /** Ordered from the largest to the smallest, no repeats. */
  predicate StrictlyDescending(s: seq<int>) {
    forall i, j :: 0 <= i < j < |s| ==> s[i] > s[j]
  }

  /** Puts `x` in front of the first element that is not larger than it: in a descending list,
      the place that keeps it descending. */
  function InsertDescending(x: int, s: seq<int>): (r: seq<int>)
    ensures |r| == |s| + 1 && r[0] == (if s != [] && s[0] > x then s[0] else x)
    ensures multiset(r) == multiset(s) + multiset{x}
  {
    if s == [] || x >= s[0] then [x] + s
    else
      assert s == [s[0]] + s[1..];
      [s[0]] + InsertDescending(x, s[1..])
  }

  /** Insertion keeps a descending list descending. */
  lemma {:induction false} InsertKeepsOrder(x: int, s: seq<int>)
    requires Descending(s)
    ensures Descending(InsertDescending(x, s))
  {
    if s != [] && x < s[0] {
      var rest := s[1..];
      assert Descending(rest) by {
        forall i, j | 0 <= i < j < |rest| ensures rest[i] >= rest[j] {
          assert rest[i] == s[i + 1] && rest[j] == s[j + 1];
        }
      }
      InsertKeepsOrder(x, rest);
      var tail := InsertDescending(x, rest);
      var r := InsertDescending(x, s);
      assert r == [s[0]] + tail;
      forall i, j | 0 <= i < j < |r| ensures r[i] >= r[j] {
        if i == 0 {
          assert s[0] >= tail[0] >= tail[j - 1];
        } else {
          assert r[i] == tail[i - 1] && r[j] == tail[j - 1];
        }
      }
    }
  }

  /** ... and a strictly descending one strictly descending when `x` is new. */
  lemma {:induction false} InsertKeepsStrictOrder(x: int, s: seq<int>)
    requires StrictlyDescending(s) && x !in s
    ensures StrictlyDescending(InsertDescending(x, s))
  {
    if s != [] && x < s[0] {
      var rest := s[1..];
      assert StrictlyDescending(rest) by {
        forall i, j | 0 <= i < j < |rest| ensures rest[i] > rest[j] {
          assert rest[i] == s[i + 1] && rest[j] == s[j + 1];
        }
      }
      assert x !in rest;
      InsertKeepsStrictOrder(x, rest);
      var tail := InsertDescending(x, rest);
      var r := InsertDescending(x, s);
      assert r == [s[0]] + tail;
      assert s[0] > tail[0] by {
        assert s[0] > x;
        assert rest != [] ==> s[0] > rest[0];
      }
      forall i, j | 0 <= i < j < |r| ensures r[i] > r[j] {
        if i == 0 {
          assert j - 1 == 0 || tail[0] > tail[j - 1];
        } else {
          assert r[i] == tail[i - 1] && r[j] == tail[j - 1];
        }
      }
    }
  }

  /** What `positions.sort((a, b) -> b - a)` leaves in the list: the same integers, largest first.
      (The comparator's subtraction cannot overflow for list positions, which are small and
      non-negative.) */
  function SortDescending(s: seq<int>): (r: seq<int>)
    ensures Descending(r) && multiset(r) == multiset(s)
    ensures Distinct(s) ==> StrictlyDescending(r)
  {
    if s == [] then []
    else
      var rest := SortDescending(s[1..]);
      assert s == [s[0]] + s[1..];
      assert Distinct(s) ==> Distinct(s[1..]) && s[0] !in s[1..] by {
        if Distinct(s) {
          DistinctTail(s);
        }
      }
      assert s[0] in rest <==> s[0] in multiset(s[1..]);
      assert StrictlyDescending(rest) ==> Descending(rest);
      InsertKeepsOrder(s[0], rest);
      assert Distinct(s) ==> StrictlyDescending(InsertDescending(s[0], rest)) by {
        if Distinct(s) {
          InsertKeepsStrictOrder(s[0], rest);
        }
      }
      InsertDescending(s[0], rest)
  }

  /** The tail of a list without repeats has none either, and does not hold the head. */
  lemma {:induction false} DistinctTail<T>(s: seq<T>)
    requires |s| > 0 && Distinct(s)
    ensures Distinct(s[1..]) && s[0] !in s[1..]
  {
    forall j | 0 <= j < |s| - 1 ensures s[1..][j] != s[0] {
      assert s[j + 1] != s[0];
    }
    forall i, j | 0 <= i < j < |s| - 1 ensures s[1..][i] != s[1..][j] {
      assert s[i + 1] != s[j + 1];
    }
  }

  /** The values of a list, as a set. */
  function Elements(s: seq<int>): (r: set<int>)
    ensures forall x :: x in r <==> x in s
  {
    set x | x in s
  }

  /** A list without repeats has as many distinct values as elements. */
  lemma {:induction false} DistinctElements(s: seq<int>)
    requires Distinct(s)
    ensures |Elements(s)| == |s|
    decreases |s|
  {
    if |s| > 0 {
      var init := s[..|s| - 1];
      assert Distinct(init);
      DistinctElements(init);
      assert Elements(s) == Elements(init) + {s[|s| - 1]} by {
        assert s == init + [s[|s| - 1]];
      }
      assert s[|s| - 1] !in Elements(init);
    } else {
      assert Elements(s) == {};
    }
  }
}
