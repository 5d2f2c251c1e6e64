/** Sequence helpers behind the Python list operations the game uses:
    `list.remove` (drop the first equal element), filtering, distinctness. */
module Lists {

  datatype Option<+T> = None | Some(value: T)

  /** No element occurs twice. */
  ghost predicate Distinct<T>(s: seq<T>) {
    forall i, j :: 0 <= i < j < |s| ==> s[i] != s[j]
  }

  /** Position of the first occurrence of `x` in `s`. */
  function IndexOf<T(==)>(s: seq<T>, x: T): (i: nat)
    requires x in s
    ensures i < |s| && s[i] == x && x !in s[..i]
  {
    if s[0] == x then 0 else 1 + IndexOf(s[1..], x)
  }

  /** In a list without repetitions, each element is found at its own position. */
  lemma DistinctIndexOf<T>(s: seq<T>, k: nat)
    requires Distinct(s) && k < |s|
    ensures IndexOf(s, s[k]) == k
  {
  }

  /** Python's `list.remove(x)` on success: the first element equal to `x`
      disappears, the rest keep their order; a list without `x` is kept. */
  function RemoveFirst<T(==)>(s: seq<T>, x: T): (r: seq<T>)
    ensures x !in s ==> r == s
    ensures x in s ==> |r| == |s| - 1
  {
    if s == [] then []
    else if s[0] == x then s[1..]
    else [s[0]] + RemoveFirst(s[1..], x)
  }

  /** What is removed is exactly the first occurrence. */
  lemma {:induction false} RemoveFirstAt<T>(s: seq<T>, x: T)
    requires x in s
    ensures RemoveFirst(s, x) == s[..IndexOf(s, x)] + s[IndexOf(s, x) + 1..]
  {
    if s[0] != x {
      var t := s[1..];
      var i := IndexOf(t, x);
      RemoveFirstAt(t, x);
      assert IndexOf(s, x) == i + 1;
      var a, b := t[..i], t[i + 1..];
      assert RemoveFirst(s, x) == [s[0]] + (a + b);
      assert s[..i + 1] == [s[0]] + a;
      assert s[i + 2..] == b;
      assert [s[0]] + (a + b) == ([s[0]] + a) + b;
    }
  }

  lemma RemoveFirstCons<T>(h: T, t: seq<T>, x: T)
    ensures RemoveFirst([h] + t, x) == if h == x then t else [h] + RemoveFirst(t, x)
  {
    assert ([h] + t)[0] == h && ([h] + t)[1..] == t;
  }

  /** The elements of `s` that are not in `drop`, in their original order. */
  function Keep<T>(s: seq<T>, drop: set<T>): (r: seq<T>)
    ensures |r| <= |s|
    ensures forall i :: 0 <= i < |r| ==> r[i] in s && r[i] !in drop
    ensures forall i :: 0 <= i < |s| && s[i] !in drop ==> s[i] in r
  {
    if s == [] then []
    else (if s[0] in drop then [] else [s[0]]) + Keep(s[1..], drop)
  }

  lemma {:induction false} KeepDistinct<T>(s: seq<T>, drop: set<T>)
    requires Distinct(s)
    ensures Distinct(Keep(s, drop))
  {
    if s != [] {
      KeepDistinct(s[1..], drop);
      assert s[0] !in s[1..];
    }
  }

  lemma {:induction false} KeepMember<T>(s: seq<T>, drop: set<T>, x: T)
    ensures x in Keep(s, drop) <==> x in s && x !in drop
  {
    if s != [] {
      KeepMember(s[1..], drop, x);
      assert s == [s[0]] + s[1..];
    }
  }

  lemma KeepLeavesDropped<T>(s: seq<T>, drop: set<T>)
    ensures forall x :: x in Keep(s, drop) ==> x !in drop
  {
    forall x | x in Keep(s, drop) ensures x !in drop {
      KeepMember(s, drop, x);
    }
  }

  lemma {:induction false} KeepNothing<T>(s: seq<T>)
    ensures Keep(s, {}) == s
  {
    if s != [] { KeepNothing(s[1..]); }
  }

  /** On a list without repetitions, `RemoveFirst` is a filter. */
  lemma {:induction false} RemoveFirstIsKeep<T>(s: seq<T>, drop: set<T>, x: T)
    requires Distinct(s)
    ensures RemoveFirst(Keep(s, drop), x) == Keep(s, drop + {x})
  {
    if s != [] {
      DistinctTail(s);
      RemoveFirstIsKeep(s[1..], drop, x);
      if s[0] in drop {
        KeepDropped(s, drop, x);
      } else if s[0] == x {
        KeepRemoved(s, drop);
      } else {
        KeepKept(s, drop, x);
      }
    }
  }

  lemma KeepDropped<T>(s: seq<T>, drop: set<T>, x: T)
    requires s != [] && s[0] in drop
    requires RemoveFirst(Keep(s[1..], drop), x) == Keep(s[1..], drop + {x})
    ensures RemoveFirst(Keep(s, drop), x) == Keep(s, drop + {x})
  {
    assert Keep(s, drop) == Keep(s[1..], drop);
    assert s[0] in drop + {x};
    assert Keep(s, drop + {x}) == Keep(s[1..], drop + {x});
  }

  lemma KeepRemoved<T>(s: seq<T>, drop: set<T>)
    requires s != [] && s[0] !in drop && s[0] !in s[1..]
    ensures RemoveFirst(Keep(s, drop), s[0]) == Keep(s, drop + {s[0]})
  {
    var h, t := s[0], s[1..];
    RemoveFirstCons(h, Keep(t, drop), h);
    KeepSame(t, drop, drop + {h});
  }

  lemma KeepKept<T>(s: seq<T>, drop: set<T>, x: T)
    requires s != [] && s[0] !in drop && s[0] != x
    requires RemoveFirst(Keep(s[1..], drop), x) == Keep(s[1..], drop + {x})
    ensures RemoveFirst(Keep(s, drop), x) == Keep(s, drop + {x})
  {
    RemoveFirstCons(s[0], Keep(s[1..], drop), x);
  }

  /** The tail of a list without repetitions has none and lacks the head. */
  lemma DistinctTail<T>(s: seq<T>)
    requires Distinct(s) && s != []
    ensures Distinct(s[1..]) && s[0] !in s[1..]
  {
    assert forall i :: 0 <= i < |s| - 1 ==> s[1..][i] == s[i + 1];
  }

  /** Two drop sets that agree on the elements of `s` filter it alike. */
  lemma {:induction false} KeepSame<T>(s: seq<T>, d1: set<T>, d2: set<T>)
    requires forall i :: 0 <= i < |s| ==> (s[i] in d1 <==> s[i] in d2)
    ensures Keep(s, d1) == Keep(s, d2)
  {
    if s != [] { KeepSame(s[1..], d1, d2); }
  }

  lemma KeepAppend<T>(s: seq<T>, t: seq<T>, drop: set<T>)
    ensures Keep(s + t, drop) == Keep(s, drop) + Keep(t, drop)
  {
    if s == [] {
      assert s + t == t;
    } else {
      assert (s + t)[1..] == s[1..] + t;
      KeepAppend(s[1..], t, drop);
    }
  }
}
