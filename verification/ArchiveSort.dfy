/** Sorting artifacts by path, as the copied history of a Vault is before it goes into the manifest. */
module ArchiveSort {
  import opened Prelude
  import opened ArchiveManifest

  /** The byte order of strings. */
  predicate Leq(a: Bytes, b: Bytes)
    decreases |a|
  {
    a == [] || (b != [] && (a[0] < b[0] || (a[0] == b[0] && Leq(a[1..], b[1..]))))
  }

  /** At the first byte in which the two differ the first has the smaller one, or it ends before. */
  lemma {:induction false} LeqMeans(a: Bytes, b: Bytes)
    ensures Leq(a, b) <==> a <= b || exists k: nat :: k < |a| && k < |b| && a[..k] == b[..k] && a[k] < b[k]
    decreases |a|
  {
    if a != [] && b != [] && a[0] == b[0] {
      var c, d := a[1..], b[1..];
      LeqMeans(c, d);
      assert a <= b <==> c <= d;
      if k: nat :| k < |c| && k < |d| && c[..k] == d[..k] && c[k] < d[k] {
        assert a[..k + 1] == [a[0]] + c[..k] && b[..k + 1] == [b[0]] + d[..k];
        assert a[k + 1] < b[k + 1];
      }
      if k: nat :| k < |a| && k < |b| && a[..k] == b[..k] && a[k] < b[k] {
        assert k > 0 && c[..k - 1] == a[..k][1..] && d[..k - 1] == b[..k][1..];
        assert c[k - 1] < d[k - 1];
      }
    } else if a != [] && b != [] && a[0] < b[0] {
      assert a[..0] == b[..0];
    } else if a != [] && b != [] {
      assert !(a <= b);
      assert forall k: nat :: 0 < k < |a| && k < |b| && a[..k] == b[..k] ==> a[..k][0] == b[..k][0];
    }
  }

  lemma {:induction false} LeqIsTotal(a: Bytes, b: Bytes)
    ensures Leq(a, b) || Leq(b, a)
    decreases |a|
  {
    if a != [] && b != [] && a[0] == b[0] { LeqIsTotal(a[1..], b[1..]); }
  }

  lemma {:induction false} LeqIsTransitive(a: Bytes, b: Bytes, c: Bytes)
    requires Leq(a, b) && Leq(b, c)
    ensures Leq(a, c)
    decreases |a|
  {
    if a != [] && a[0] == b[0] == c[0] { LeqIsTransitive(a[1..], b[1..], c[1..]); }
  }

  lemma {:induction false} LeqIsAntisymmetric(a: Bytes, b: Bytes)
    requires Leq(a, b) && Leq(b, a)
    ensures a == b
    decreases |a|
  {
    if a != [] {
      LeqIsAntisymmetric(a[1..], b[1..]);
      assert a == [a[0]] + a[1..] && b == [b[0]] + b[1..];
    }
  }

  predicate Ordered(items: seq<Artifact>) {
    forall i, j :: 0 <= i < j < |items| ==> Leq(items[i].path, items[j].path)
  }

  /** Puts an artifact behind those that are not after it. */
  function Insert(items: seq<Artifact>, a: Artifact): (r: seq<Artifact>)
    ensures multiset(r) == multiset(items) + multiset{a}
    decreases |items|
  {
    if items == [] then [a]
    else
      var front, last := items[..|items| - 1], items[|items| - 1];
      assert items == front + [last];
      if Leq(last.path, a.path) then items + [a] else Insert(front, a) + [last]
  }

  function SortByPath(items: seq<Artifact>): (r: seq<Artifact>)
    ensures multiset(r) == multiset(items) && |r| == |items|
    decreases |items|
  {
    if items == [] then []
    else
      assert items == items[..|items| - 1] + [items[|items| - 1]];
      assert |multiset(Insert(SortByPath(items[..|items| - 1]), items[|items| - 1]))| == |items|;
      Insert(SortByPath(items[..|items| - 1]), items[|items| - 1])
  }

  lemma {:induction false} InsertKeepsOrder(items: seq<Artifact>, a: Artifact)
    requires Ordered(items)
    ensures Ordered(Insert(items, a))
    decreases |items|
  {
    if items != [] {
      var front, last := items[..|items| - 1], items[|items| - 1];
      LeqIsTotal(last.path, a.path);
      if Leq(last.path, a.path) {
        forall i | 0 <= i < |items|
          ensures Leq(items[i].path, a.path)
        {
          if i < |front| { LeqIsTransitive(items[i].path, last.path, a.path); }
        }
      } else {
        InsertKeepsOrder(front, a);
        var r := Insert(front, a);
        forall i | 0 <= i < |r|
          ensures Leq(r[i].path, last.path)
        {
          assert r[i] in multiset(r);
          assert r[i] in front || r[i] == a;
        }
      }
    }
  }

  /** The result is ordered by path. */
  lemma {:induction false} SortOrders(items: seq<Artifact>)
    ensures Ordered(SortByPath(items))
    decreases |items|
  {
    if items != [] {
      SortOrders(items[..|items| - 1]);
      InsertKeepsOrder(SortByPath(items[..|items| - 1]), items[|items| - 1]);
    }
  }

  lemma {:induction false} PermutationKeepsDistinct(a: seq<Artifact>, b: seq<Artifact>)
    requires DistinctPaths(a) && multiset(a) == multiset(b)
    ensures DistinctPaths(b)
  {
    forall i, j | 0 <= i < j < |b|
      ensures b[i].path != b[j].path
    {
      if b[i].path == b[j].path {
        assert b[i] in multiset(b) && b[j] in multiset(b);
        assert b[i] in a && b[j] in a;
        TwiceCountsTwo(b, i, j);
        OnlyOnce(a, b[i]);
        assert false;
      }
    }
  }

  lemma TwiceCountsTwo(items: seq<Artifact>, i: nat, j: nat)
    requires i < j < |items|
    ensures items[i] == items[j] ==> multiset(items)[items[i]] >= 2
  {
    assert items == items[..j] + [items[j]] + items[j + 1..];
    assert items[..j][i] == items[i] && items[i] in items[..j];
  }

  lemma {:induction false} OnlyOnce(items: seq<Artifact>, a: Artifact)
    requires DistinctPaths(items)
    ensures multiset(items)[a] <= 1
    decreases |items|
  {
    if items != [] {
      var n := |items| - 1;
      assert items == items[..n] + [items[n]];
      OnlyOnce(items[..n], a);
      if a == items[n] { assert a !in items[..n]; }
    }
  }

  /** With distinct paths there is one order only: the manifest does not show in which order the files were found. */
  lemma {:induction false} OrderIsUnique(a: seq<Artifact>, b: seq<Artifact>)
    requires Ordered(a) && Ordered(b) && DistinctPaths(a) && multiset(a) == multiset(b)
    ensures a == b
    decreases |a|
  {
    hide Ordered, DistinctPaths;
    assert |a| == |multiset(a)| == |multiset(b)| == |b|;
    if a != [] {
      var front, back := a[..|a| - 1], b[..|b| - 1];
      LastsAgree(a, b);
      DropLast(a, front);
      DropLast(b, back);
      OrderIsUnique(front, back);
    }
  }

  lemma DropLast(a: seq<Artifact>, front: seq<Artifact>)
    requires a != [] && front == a[..|a| - 1]
    ensures a == front + [a[|a| - 1]] && multiset(front) == multiset(a) - multiset{a[|a| - 1]}
    ensures (Ordered(a) ==> Ordered(front)) && (DistinctPaths(a) ==> DistinctPaths(front))
  {
    assert a == front + [a[|a| - 1]];
  }

  lemma LastsAgree(a: seq<Artifact>, b: seq<Artifact>)
    requires Ordered(a) && Ordered(b) && DistinctPaths(a) && multiset(a) == multiset(b) && |a| == |b| > 0
    ensures a[|a| - 1] == b[|b| - 1]
  {
    var x, y := a[|a| - 1], b[|b| - 1];
    assert x in multiset(b) && y in multiset(a);
    var i :| 0 <= i < |b| && b[i] == x;
    var j :| 0 <= j < |a| && a[j] == y;
    if i < |b| - 1 && j < |a| - 1 {
      LeqIsAntisymmetric(x.path, y.path);
    }
  }

  lemma SortIgnoresOrder(a: seq<Artifact>, b: seq<Artifact>)
    requires DistinctPaths(a) && multiset(a) == multiset(b)
    ensures SortByPath(a) == SortByPath(b)
  {
    SortOrders(a);
    SortOrders(b);
    PermutationKeepsDistinct(a, SortByPath(a));
    OrderIsUnique(SortByPath(a), SortByPath(b));
  }
}
