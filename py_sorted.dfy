/** `sorted(xs, key=k, reverse=True)` for keys that are lists of integers:
    Python compares lists lexicographically (a proper prefix is smaller), and
    the sort is stable, so items with equal keys keep their input order even
    when the order is reversed. */
module PySorted {

  /** `a < b` for Python lists of integers. */
  predicate LexLess(a: seq<int>, b: seq<int>)
    decreases |a|
  {
    if a == [] then b != []
    else b != [] && (a[0] < b[0] || (a[0] == b[0] && LexLess(a[1..], b[1..])))
  }

  lemma {:induction false} LexLessIrreflexive(a: seq<int>)
    ensures !LexLess(a, a)
    decreases |a|
  {
    if a != [] {
      LexLessIrreflexive(a[1..]);
    }
  }

  lemma {:induction false} LexLessTrans(a: seq<int>, b: seq<int>, c: seq<int>)
    requires LexLess(a, b) && LexLess(b, c)
    ensures LexLess(a, c)
    decreases |a|
  {
    if a != [] && a[0] == b[0] && b[0] == c[0] {
      LexLessTrans(a[1..], b[1..], c[1..]);
    }
  }

  /** Any two different lists are ordered one way or the other. */
  lemma {:induction false} LexLessTotal(a: seq<int>, b: seq<int>)
    ensures a == b || LexLess(a, b) || LexLess(b, a)
    decreases |a|
  {
    if a != [] && b != [] && a[0] == b[0] {
      LexLessTotal(a[1..], b[1..]);
      if a[1..] == b[1..] {
        assert a == [a[0]] + a[1..] && b == [b[0]] + b[1..];
      }
    }
  }

  /** An item with its position in the input and its key. */
  datatype Keyed<T> = Keyed(index: nat, key: seq<int>, item: T)

  /** The order of the result: larger keys first, ties in input order. */
  predicate Before<T>(x: Keyed<T>, y: Keyed<T>) {
    LexLess(y.key, x.key) || (x.key == y.key && x.index < y.index)
  }

  predicate SortedDesc<T>(s: seq<Keyed<T>>) {
    forall i, j | 0 <= i < j < |s| :: Before(s[i], s[j])
  }

  /** Items tagged with their input positions and keys. */
  function Tag<T>(items: seq<T>, keys: seq<seq<int>>): (s: seq<Keyed<T>>)
    requires |keys| == |items|
    ensures |s| == |items|
    ensures forall i | 0 <= i < |s| :: s[i] == Keyed(i, keys[i], items[i])
  {
    seq(|items|, i requires 0 <= i < |items| => Keyed(i, keys[i], items[i]))
  }

  function Items<T>(s: seq<Keyed<T>>): (items: seq<T>)
    ensures |items| == |s|
    ensures forall i | 0 <= i < |s| :: items[i] == s[i].item
  {
    seq(|s|, i requires 0 <= i < |s| => s[i].item)
  }

  /** Put `x` in front of the first element whose key is smaller than its own. */
  function Insert<T>(l: seq<Keyed<T>>, x: Keyed<T>): (r: seq<Keyed<T>>)
    ensures multiset(r) == multiset(l) + multiset{x}
  {
    if l == [] then [x]
    else if LexLess(l[0].key, x.key) then [x] + l
    else
      assert l == [l[0]] + l[1..];
      [l[0]] + Insert(l[1..], x)
  }

  /** Insertion sort, adding the input's items one at a time in order. */
  function SortDesc<T>(s: seq<Keyed<T>>): (r: seq<Keyed<T>>)
    ensures multiset(r) == multiset(s)
  {
    if s == [] then []
    else
      var n := |s| - 1;
      assert s == s[..n] + [s[n]];
      Insert(SortDesc(s[..n]), s[n])
  }

  /** Inserting an item that comes after every sorted one keeps the order. */
  lemma {:induction false} InsertSorted<T>(l: seq<Keyed<T>>, x: Keyed<T>)
    requires SortedDesc(l)
    requires forall y | y in l :: y.index < x.index
    ensures SortedDesc(Insert(l, x))
  {
    if l == [] {
    } else if LexLess(l[0].key, x.key) {
      forall z | z in l ensures Before(x, z) {
        var j :| 0 <= j < |l| && l[j] == z;
        if j > 0 {
          assert Before(l[0], l[j]);
          if LexLess(l[j].key, l[0].key) {
            LexLessTrans(l[j].key, l[0].key, x.key);
          }
        }
      }
      ConsSorted(x, l);
    } else {
      var t := Insert(l[1..], x);
      SortedTail(l);
      InsertSorted(l[1..], x);
      LexLessTotal(l[0].key, x.key);
      forall z | z in t ensures Before(l[0], z) {
        assert z in multiset(t);
        if z != x {
          HeadBefore(l, z);
        }
      }
      ConsSorted(l[0], t);
    }
  }

  lemma SortedTail<T>(l: seq<Keyed<T>>)
    requires SortedDesc(l) && l != []
    ensures SortedDesc(l[1..])
  {
    forall i, j | 0 <= i < j < |l[1..]| ensures Before(l[1..][i], l[1..][j]) {
      assert l[1..][i] == l[i + 1] && l[1..][j] == l[j + 1];
    }
  }

  lemma HeadBefore<T>(l: seq<Keyed<T>>, z: Keyed<T>)
    requires SortedDesc(l) && l != [] && z in l[1..]
    ensures Before(l[0], z)
  {
    var j :| 0 <= j < |l[1..]| && l[1..][j] == z;
    assert l[j + 1] == z;
  }

  /** An item that goes before every element of a sorted list can head it. */
  lemma ConsSorted<T>(h: Keyed<T>, t: seq<Keyed<T>>)
    requires SortedDesc(t)
    requires forall z | z in t :: Before(h, z)
    ensures SortedDesc([h] + t)
  {
    var r := [h] + t;
    forall i, j | 0 <= i < j < |r| ensures Before(r[i], r[j]) {
      assert r[j] == t[j - 1];
      if i > 0 {
        assert r[i] == t[i - 1];
      } else {
        assert r[j] in t;
      }
    }
  }

  /** With the input's items numbered in order, the result is sorted with
      larger keys first and ties in input order. */
  lemma {:induction false} SortDescSorted<T>(s: seq<Keyed<T>>)
    requires forall i, j | 0 <= i < j < |s| :: s[i].index < s[j].index
    ensures SortedDesc(SortDesc(s))
  {
    if s != [] {
      var n := |s| - 1;
      var front := s[..n];
      assert forall i, j | 0 <= i < j < |front| :: front[i].index < front[j].index by {
        forall i, j | 0 <= i < j < |front| ensures front[i].index < front[j].index {
          assert front[i] == s[i] && front[j] == s[j];
        }
      }
      SortDescSorted(front);
      forall y | y in SortDesc(front) ensures y.index < s[n].index {
        IndexBelowLast(s, y);
      }
      InsertSorted(SortDesc(front), s[n]);
    }
  }

  /** Every item sorted from the front of `s` was numbered before its last item. */
  lemma IndexBelowLast<T>(s: seq<Keyed<T>>, y: Keyed<T>)
    requires s != [] && forall i, j | 0 <= i < j < |s| :: s[i].index < s[j].index
    requires y in SortDesc(s[..|s| - 1])
    ensures y.index < s[|s| - 1].index
  {
    var n := |s| - 1;
    assert y in multiset(SortDesc(s[..n]));
    assert y in multiset(s[..n]);
    var k :| 0 <= k < n && s[..n][k] == y;
    assert s[k] == y;
  }

  /** `sorted(items, key=..., reverse=True)` given every item's key. */
  function SortedReverse<T>(items: seq<T>, keys: seq<seq<int>>): (r: seq<T>)
    requires |keys| == |items|
  {
    Items(SortDesc(Tag(items, keys)))
  }

  /** The result is a rearrangement of the input in which every item with a
      larger key comes first and items with equal keys keep their order. */
  lemma SortedReverseSpec<T>(items: seq<T>, keys: seq<seq<int>>)
    requires |keys| == |items|
    ensures var s := SortDesc(Tag(items, keys));
      && multiset(s) == multiset(Tag(items, keys))
      && SortedReverse(items, keys) == Items(s)
      && (forall i, j | 0 <= i < j < |s| :: !LexLess(s[i].key, s[j].key))
      && (forall i, j | 0 <= i < j < |s| && s[i].key == s[j].key :: s[i].index < s[j].index)
      && (forall i | 0 <= i < |s| :: s[i].index < |items| && s[i] == Tag(items, keys)[s[i].index])
  {
    var t := Tag(items, keys);
    var s := SortDesc(t);
    SortDescSorted(t);
    forall i, j | 0 <= i < j < |s| ensures !LexLess(s[i].key, s[j].key) {
      assert Before(s[i], s[j]);
      if LexLess(s[j].key, s[i].key) {
        if LexLess(s[i].key, s[j].key) {
          LexLessTrans(s[i].key, s[j].key, s[i].key);
          LexLessIrreflexive(s[i].key);
        }
      } else {
        LexLessIrreflexive(s[i].key);
      }
    }
    forall i, j | 0 <= i < j < |s| && s[i].key == s[j].key ensures s[i].index < s[j].index {
      assert Before(s[i], s[j]);
      LexLessIrreflexive(s[i].key);
    }
    forall i | 0 <= i < |s| ensures s[i].index < |items| && s[i] == t[s[i].index] {
      assert s[i] in multiset(t);
      var k :| 0 <= k < |t| && t[k] == s[i];
    }
  }
}
