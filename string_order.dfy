/** The order Python's `sorted` uses on strings: lexicographic by code point,
    a proper prefix coming first. */
module StringOrder {

  /** `a` sorts no later than `b`. */
  predicate Below(a: string, b: string)
    decreases |a|
  {
    |a| == 0 || (|b| > 0 && (a[0] < b[0] || (a[0] == b[0] && Below(a[1..], b[1..]))))
  }

  lemma {:induction false} BelowReflexive(a: string)
    ensures Below(a, a)
    decreases |a|
  {
    if |a| > 0 {
      BelowReflexive(a[1..]);
    }
  }

  lemma {:induction false} BelowAntisymmetric(a: string, b: string)
    requires Below(a, b) && Below(b, a)
    ensures a == b
    decreases |a|
  {
    if |a| > 0 {
      BelowAntisymmetric(a[1..], b[1..]);
      assert a == [a[0]] + a[1..] && b == [b[0]] + b[1..];
    }
  }

  lemma {:induction false} BelowTransitive(a: string, b: string, c: string)
    requires Below(a, b) && Below(b, c)
    ensures Below(a, c)
    decreases |a|
  {
    if |a| > 0 && a[0] == b[0] && b[0] == c[0] {
      BelowTransitive(a[1..], b[1..], c[1..]);
    }
  }

  lemma {:induction false} BelowTotal(a: string, b: string)
    ensures Below(a, b) || Below(b, a)
    decreases |a|
  {
    if |a| > 0 && |b| > 0 && a[0] == b[0] {
      BelowTotal(a[1..], b[1..]);
    }
  }

  /** The empty string sorts before every other string. */
  lemma EmptyFirst(a: string)
    ensures Below("", a)
  {
  }

  /** Two strings both no later than the other are equal, for every pair. */
  lemma AntisymmetricAll()
    ensures forall a, b :: Below(a, b) && Below(b, a) ==> a == b
  {
    forall a, b | Below(a, b) && Below(b, a)
      ensures a == b
    {
      BelowAntisymmetric(a, b);
    }
  }

  /** `m` is an element of `s` that sorts no later than any element of `s`. */
  predicate IsLeast(m: string, s: set<string>)
  {
    m in s && forall x :: x in s ==> Below(m, x)
  }

  /** Every non-empty finite set of strings has a least element. */
  lemma {:induction false} LeastExists(s: set<string>)
    requires s != {}
    ensures exists m :: IsLeast(m, s)
    decreases |s|
  {
    var y :| y in s;
    if s == {y} {
      BelowReflexive(y);
      assert IsLeast(y, s);
    } else {
      var rest := s - {y};
      LeastExists(rest);
      var m :| IsLeast(m, rest);
      BelowTotal(m, y);
      if Below(m, y) {
        forall x | x in s
          ensures Below(m, x)
        {
          if x != y {
            assert x in rest;
          }
        }
        assert IsLeast(m, s);
      } else {
        forall x | x in s
          ensures Below(y, x)
        {
          if x == y {
            BelowReflexive(y);
          } else {
            assert x in rest;
            BelowTransitive(y, m, x);
          }
        }
        assert IsLeast(y, s);
      }
    }
  }

  /** The least element of a non-empty set. */
  function Least(s: set<string>): (m: string)
    requires s != {}
    ensures m in s
    ensures forall x :: x in s ==> Below(m, x)
  {
    LeastExists(s);
    AntisymmetricAll();
    var m :| IsLeast(m, s);
    m
  }

  /** Strictly ascending: every element sorts before every later one and no
      element repeats. */
  predicate StrictlyAscending(r: seq<string>)
  {
    forall i, j :: 0 <= i < j < |r| ==> Below(r[i], r[j]) && r[i] != r[j]
  }

  /** The elements of `s` in ascending order, each once (see
      SortedKeysAscending): what iterating over `sorted(d)` visits for a
      dictionary `d` with key set `s`. */
  function SortedKeys(s: set<string>): (r: seq<string>)
    ensures |r| == |s|
    ensures forall x :: x in r <==> x in s
    ensures forall i :: 0 <= i < |r| ==> r[i] in s
    decreases |s|
  {
    if s == {} then []
    else
      var m := Least(s);
      [m] + SortedKeys(s - {m})
  }

  /** The least element sorts strictly before every later sorted key. */
  lemma HeadBeforeRest(s: set<string>, k: int)
    requires s != {}
    requires 0 <= k < |SortedKeys(s - {Least(s)})|
    ensures Below(Least(s), SortedKeys(s - {Least(s)})[k])
    ensures Least(s) != SortedKeys(s - {Least(s)})[k]
  {
  }

  /** A sorted key list starts with the least key and continues with the
      sorted list of the other keys. */
  lemma SortedKeysUnfold(s: set<string>, k: int)
    requires s != {}
    requires 0 <= k < |SortedKeys(s)|
    ensures SortedKeys(s)[k] == if k == 0 then Least(s) else SortedKeys(s - {Least(s)})[k - 1]
  {
  }

  /** One pair of positions of a sorted key list is in order, given that the
      list after the least element is strictly ascending. */
  lemma PairAscending(s: set<string>, i: int, j: int)
    requires s != {}
    requires StrictlyAscending(SortedKeys(s - {Least(s)}))
    requires 0 <= i < j < |SortedKeys(s)|
    ensures Below(SortedKeys(s)[i], SortedKeys(s)[j])
    ensures SortedKeys(s)[i] != SortedKeys(s)[j]
  {
    SortedKeysUnfold(s, i);
    SortedKeysUnfold(s, j);
    if i == 0 {
      HeadBeforeRest(s, j - 1);
    }
  }

  /** The sorted keys are strictly ascending. */
  lemma {:induction false} SortedKeysAscending(s: set<string>)
    ensures StrictlyAscending(SortedKeys(s))
    decreases |s|
  {
    if s != {} {
      SortedKeysAscending(s - {Least(s)});
      forall i, j | 0 <= i < j < |SortedKeys(s)|
        ensures Below(SortedKeys(s)[i], SortedKeys(s)[j]) && SortedKeys(s)[i] != SortedKeys(s)[j]
      {
        PairAscending(s, i, j);
      }
    }
  }

  /** A sorted key list begins with "" exactly when "" is a key, and the rest is
      the sorted list of the other keys. */
  lemma SortedKeysWithoutEmpty(s: set<string>)
    ensures SortedKeys(s) == (if "" in s then [""] else []) + SortedKeys(s - {""})
  {
    if "" in s {
      EmptyFirst(Least(s));
      BelowAntisymmetric(Least(s), "");
    } else {
      assert s - {""} == s;
    }
  }
}
