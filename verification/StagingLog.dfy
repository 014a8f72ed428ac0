/**
 Logs of placements in a staging directory: which files they leave there, and which
 artifacts they stand for.
 */
module StagingLog {
  import opened Prelude
  import opened PathText
  import opened ArchiveTree
  import opened ArchiveManifest
  import opened ArchiveValidate
  import opened ArchiveSort
  import opened TreeCopy

  // ----- What a log of placements leaves -----

  predicate FileAt(fs: Files, q: Location, b: Bytes) { Get(fs, q) == Some(FileItem(b)) }

  lemma {:induction false} MakeDirsKeepsFiles(fs: Files, at: Location, q: Location, b: Bytes)
    requires MakeDirs(fs, at).Some?
    ensures FileAt(MakeDirs(fs, at).value, q, b) <==> FileAt(fs, q, b)
    decreases |at|
  {
    if at !in fs && at != [] { MakeDirsKeepsFiles(fs, at[..|at| - 1], q, b); }
  }

  lemma {:induction false} MakeDirsKeeps(fs: Files, at: Location, q: Location)
    requires MakeDirs(fs, at).Some? && q in fs
    ensures q in MakeDirs(fs, at).value
    decreases |at|
  {
    if at !in fs && at != [] { MakeDirsKeeps(fs, at[..|at| - 1], q); }
  }

  lemma PutKeepsFiles(fs: Files, p: Placement, q: Location, b: Bytes)
    requires Put(fs, p).Some?
    ensures FileAt(Put(fs, p).value, q, b) <==> FileAt(fs, q, b) || p == Placement(q, FileItem(b))
    ensures p.item.FileItem? ==> p.at !in fs
  {
    var parent := if p.item.DirItem? || p.at == [] then p.at else p.at[..|p.at| - 1];
    MakeDirsKeepsFiles(fs, parent, q, b);
    if p.item.FileItem? && p.at in fs { MakeDirsKeeps(fs, parent, p.at); }
  }

  /** The files are those that were there and those that were placed. */
  lemma {:induction false} PutAllFiles(fs: Files, ps: seq<Placement>, q: Location, b: Bytes)
    requires PutAll(fs, ps).Some?
    ensures FileAt(PutAll(fs, ps).value, q, b) <==> FileAt(fs, q, b) || Placement(q, FileItem(b)) in ps
    decreases |ps|
  {
    if ps != [] {
      PutKeepsFiles(fs, ps[0], q, b);
      PutAllFiles(Put(fs, ps[0]).value, ps[1..], q, b);
      assert ps == [ps[0]] + ps[1..];
    }
  }

  /** A file is placed where nothing was, so no two files are placed at one location. */
  lemma {:induction false} PutAllNew(fs: Files, ps: seq<Placement>, i: nat)
    requires PutAll(fs, ps).Some? && i < |ps| && ps[i].item.FileItem?
    ensures forall b :: !FileAt(fs, ps[i].at, b)
    ensures forall j :: 0 <= j < i && ps[j].item.FileItem? ==> ps[j].at != ps[i].at
    decreases |ps|
  {
    PutKeepsFiles(fs, ps[0], ps[i].at, []);
    if i > 0 {
      var next := Put(fs, ps[0]).value;
      PutAllNew(next, ps[1..], i - 1);
      assert ps[1..][i - 1] == ps[i];
      forall b
        ensures !FileAt(fs, ps[i].at, b)
      {
        PutKeepsFiles(fs, ps[0], ps[i].at, b);
      }
      if ps[0].item.FileItem? { PutKeepsFiles(fs, ps[0], ps[0].at, ps[0].item.bytes); }
      forall j | 0 <= j < i && ps[j].item.FileItem?
        ensures ps[j].at != ps[i].at
      {
        if j > 0 { assert ps[1..][j - 1] == ps[j]; }
      }
    }
  }

  // ----- Artifacts of a log -----

  /** Distinct locations have distinct paths. */
  lemma PathsDetermine(a: Location, b: Location)
    requires ProperAll(a) && ProperAll(b) && a != [] && b != [] && PathOf(a) == PathOf(b)
    ensures a == b
  {
    SplitUnsplit(a);
    SplitUnsplit(b);
  }

  predicate Locatable(ps: seq<Placement>) { forall i :: 0 <= i < |ps| ==> ps[i].at != [] && ProperAll(ps[i].at) }

  /** No two files of the log share a location. */
  predicate FilesApart(ps: seq<Placement>) {
    forall i, j :: 0 <= i < j < |ps| && ps[i].item.FileItem? && ps[j].item.FileItem? ==> ps[i].at != ps[j].at
  }

  lemma {:induction false} InArtifacts(ps: seq<Placement>, hash: Hash, a: Artifact)
    requires a in ArtifactsOf(ps, hash)
    ensures exists i :: 0 <= i < |ps| && ps[i].item.FileItem? && a == Artifact(PathOf(ps[i].at), |ps[i].item.bytes|, hash(ps[i].item.bytes))
    decreases |ps|
  {
    var n := |ps| - 1;
    if a in ArtifactsOf(ps[..n], hash) {
      InArtifacts(ps[..n], hash, a);
      var i :| 0 <= i < n && ps[..n][i].item.FileItem? && a == Artifact(PathOf(ps[..n][i].at), |ps[..n][i].item.bytes|, hash(ps[..n][i].item.bytes));
      assert ps[i].item.FileItem?;
    } else {
      assert ps[n].item.FileItem?;
    }
  }

  lemma {:induction false} FileHasArtifact(ps: seq<Placement>, hash: Hash, i: nat)
    requires i < |ps| && ps[i].item.FileItem?
    ensures Artifact(PathOf(ps[i].at), |ps[i].item.bytes|, hash(ps[i].item.bytes)) in ArtifactsOf(ps, hash)
    decreases |ps|
  {
    var n := |ps| - 1;
    if i < n {
      assert ps[..n][i] == ps[i];
      FileHasArtifact(ps[..n], hash, i);
    }
  }

  lemma {:induction false} ArtifactsDistinct(ps: seq<Placement>, hash: Hash)
    requires Locatable(ps) && FilesApart(ps)
    ensures DistinctPaths(ArtifactsOf(ps, hash))
    decreases |ps|
  {
    if ps != [] {
      var n := |ps| - 1;
      var front, last := ps[..n], ps[n];
      assert forall i :: 0 <= i < n ==> front[i] == ps[i];
      ArtifactsDistinct(front, hash);
      if last.item.FileItem? {
        var items := ArtifactsOf(front, hash);
        forall k | 0 <= k < |items|
          ensures items[k].path != PathOf(last.at)
        {
          InArtifacts(front, hash, items[k]);
          var i :| 0 <= i < n && front[i].item.FileItem? && items[k] == Artifact(PathOf(front[i].at), |front[i].item.bytes|, hash(front[i].item.bytes));
          assert ps[i].at != ps[n].at;
          if PathOf(front[i].at) == PathOf(last.at) { PathsDetermine(ps[i].at, ps[n].at); }
        }
      }
    }
  }

  // ----- Permutations -----

  lemma SameMembers(a: seq<Artifact>, b: seq<Artifact>)
    requires DistinctPaths(a) && DistinctPaths(b) && forall x :: x in a <==> x in b
    ensures multiset(a) == multiset(b)
  {
    forall x
      ensures multiset(a)[x] == multiset(b)[x]
    {
      OnlyOnce(a, x);
      OnlyOnce(b, x);
      assert x in multiset(a) <==> x in a;
      assert x in multiset(b) <==> x in b;
    }
  }

  lemma {:induction false} RemoveFromSum(front: seq<Artifact>, a: Artifact, back: seq<Artifact>)
    ensures Sum(front + [a] + back) == Sum(front + back) + a.size
  {
    SumAppend(front + [a], back);
    SumSnoc(front, a);
    SumAppend(front, back);
  }

  lemma {:induction false} RemoveAt(b: seq<Artifact>, k: nat)
    requires k < |b|
    ensures multiset(b[..k] + b[k + 1..]) == multiset(b) - multiset{b[k]}
    ensures Sum(b) == Sum(b[..k] + b[k + 1..]) + b[k].size
  {
    assert b == b[..k] + [b[k]] + b[k + 1..];
    RemoveFromSum(b[..k], b[k], b[k + 1..]);
  }

  lemma {:induction false} SumPermutes(a: seq<Artifact>, b: seq<Artifact>)
    requires multiset(a) == multiset(b)
    ensures Sum(a) == Sum(b)
    decreases |a|
  {
    if a == [] {
      assert |multiset(b)| == 0;
    } else {
      var n := |a| - 1;
      assert a == a[..n] + [a[n]] && a[..n] + a[n + 1..] == a[..n];
      assert a[n] in multiset(b);
      var k :| 0 <= k < |b| && b[k] == a[n];
      RemoveAt(a, n);
      RemoveAt(b, k);
      SumPermutes(a[..n], b[..k] + b[k + 1..]);
    }
  }

  lemma {:induction false} SumOfLast(items: seq<Artifact>, p: Placement, hash: Hash)
    ensures Sum(items + ArtifactOf(p, hash)) == Sum(items) + Weight(Tar(p))
  {
    if p.item.FileItem? {
      SumSnoc(items, ArtifactOf(p, hash)[0]);
    } else {
      assert items + [] == items;
    }
  }

  predicate WrittenAs(entries: seq<TarEntry>, ps: seq<Placement>) {
    |entries| == |ps| && forall i :: 0 <= i < |ps| ==> entries[i] == Tar(ps[i])
  }

  lemma {:induction false} WrittenBytes(entries: seq<TarEntry>, ps: seq<Placement>, hash: Hash)
    requires WrittenAs(entries, ps)
    ensures RegularBytes(entries) == Sum(ArtifactsOf(ps, hash))
    decreases |ps|
  {
    if ps != [] {
      var n := |ps| - 1;
      WrittenBytes(entries[..n], ps[..n], hash);
      SumOfLast(ArtifactsOf(ps[..n], hash), ps[n], hash);
    }
  }
}
