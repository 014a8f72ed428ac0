/**
 When an accepted archive can be extracted. The validator compares entry paths as strings, and
 extraction creates files at locations, so acceptance alone is not enough.
 */
module ArchiveExtractable {
  import opened Prelude
  import opened PathText
  import opened ArchiveTree
  import opened ArchiveManifest
  import opened ArchiveValidate

  /** The parents of everything are directories, up to the root. */
  ghost predicate Sane(fs: Files) {
    && Get(fs, []) == Some(DirItem)
    && forall q: Location, r: Location :: r in fs && q < r ==> Get(fs, q) == Some(DirItem)
  }

  predicate FileThere(fs: Files, q: Location) { q in fs && fs[q].FileItem? }

  /** A file stands at the location or above it. */
  ghost predicate Obstructed(fs: Files, at: Location) { exists q: Location :: q <= at && FileThere(fs, q) }

  /** `after` is `fs` with the missing directories on the way to `at`. */
  ghost predicate Extended(fs: Files, at: Location, after: Files) {
    forall q :: Get(after, q) == if q in fs then Some(fs[q]) else if q <= at then Some(DirItem) else None
  }

  lemma {:induction false} ParentPrefix(q: Location, at: Location)
    requires at != []
    ensures q <= at <==> q == at || q <= at[..|at| - 1]
  {
  }

  /** create_dir_all fails exactly when a file is in the way, and otherwise makes the missing directories. */
  lemma {:induction false} MakeDirsExact(fs: Files, at: Location)
    requires Sane(fs)
    ensures MakeDirs(fs, at).Some? <==> !Obstructed(fs, at)
    ensures MakeDirs(fs, at).Some? ==> Extended(fs, at, MakeDirs(fs, at).value)
    decreases |at|
  {
    if at in fs {
      if fs[at].FileItem? { assert FileThere(fs, at); }
      if !fs[at].FileItem? { NoObstacle(fs, at); }
    } else {
      var up := at[..|at| - 1];
      MakeDirsExact(fs, up);
      ObstructedAbove(fs, at);
      if MakeDirs(fs, up).Some? { ExtendedBelow(fs, at, MakeDirs(fs, up).value); }
    }
  }

  /** Above something that is there, everything is a directory. */
  lemma {:induction false} NoObstacle(fs: Files, at: Location)
    requires Sane(fs) && at in fs && fs[at].DirItem?
    ensures !Obstructed(fs, at) && Extended(fs, at, fs)
  {
    forall q: Location | q <= at
      ensures Get(fs, q) == Some(DirItem) && !FileThere(fs, q)
    {
      assert q == at || q < at;
    }
  }

  lemma {:induction false} ObstructedAbove(fs: Files, at: Location)
    requires at != [] && at !in fs
    ensures Obstructed(fs, at) <==> Obstructed(fs, at[..|at| - 1])
  {
    forall q: Location
      ensures q <= at && FileThere(fs, q) <==> q <= at[..|at| - 1] && FileThere(fs, q)
    {
      ParentPrefix(q, at);
    }
  }

  lemma {:induction false} ExtendedBelow(fs: Files, at: Location, made: Files)
    requires at != [] && at !in fs && Extended(fs, at[..|at| - 1], made)
    ensures Extended(fs, at, made[at := DirItem])
  {
    forall q
      ensures Get(made[at := DirItem], q) == if q in fs then Some(fs[q]) else if q <= at then Some(DirItem) else None
    {
      ParentPrefix(q, at);
    }
  }

  // ----- One placement -----

  /** The placement finds no file in its way, and a file finds its own place free. */
  ghost predicate Fitting(fs: Files, p: Placement) {
    !Obstructed(fs, p.at) && (p.item.FileItem? ==> p.at !in fs)
  }

  /** `after` is `fs` with the placement and its parents. */
  ghost predicate Placed(fs: Files, p: Placement, after: Files) {
    forall q :: Get(after, q) == if q == p.at && p.item.FileItem? then Some(p.item)
                                 else if q in fs then Some(fs[q]) else if q <= p.at then Some(DirItem) else None
  }

  lemma {:induction false} PutExact(fs: Files, p: Placement)
    requires Sane(fs) && p.at != []
    ensures Put(fs, p).Some? <==> Fitting(fs, p)
    ensures Put(fs, p).Some? ==> Placed(fs, p, Put(fs, p).value) && Sane(Put(fs, p).value)
  {
    if p.item.DirItem? {
      MakeDirsExact(fs, p.at);
      if Put(fs, p).Some? { PlacedIsSane(fs, p, Put(fs, p).value); }
    } else {
      PutFileExact(fs, p);
      if Put(fs, p).Some? { PlacedIsSane(fs, p, Put(fs, p).value); }
    }
  }

  lemma {:induction false} PutFileExact(fs: Files, p: Placement)
    requires Sane(fs) && p.at != [] && p.item.FileItem?
    ensures Put(fs, p).Some? <==> Fitting(fs, p)
    ensures Put(fs, p).Some? ==> Placed(fs, p, Put(fs, p).value)
  {
    var up := p.at[..|p.at| - 1];
    MakeDirsExact(fs, up);
    if p.at !in fs { ObstructedAbove(fs, p.at); }
    if MakeDirs(fs, up).Some? {
      var made := MakeDirs(fs, up).value;
      assert !(p.at <= up);
      assert Get(made, p.at) == if p.at in fs then Some(fs[p.at]) else None;
      if p.at !in fs {
        forall q
          ensures Get(made[p.at := p.item], q) == if q == p.at then Some(p.item)
                                                  else if q in fs then Some(fs[q]) else if q <= p.at then Some(DirItem) else None
        {
          ParentPrefix(q, p.at);
        }
      }
    }
  }

  lemma {:induction false} PlacedIsSane(fs: Files, p: Placement, after: Files)
    requires Sane(fs) && p.at != [] && Fitting(fs, p) && Placed(fs, p, after)
    ensures Sane(after)
  {
    forall q: Location, r: Location | r in after && q < r
      ensures Get(after, q) == Some(DirItem)
    {
      assert Get(after, r).Some?;
      if r in fs {
        assert Get(fs, q) == Some(DirItem);
      } else {
        assert q < r <= p.at && q != p.at;
        assert !FileThere(fs, q);
      }
      assert q == p.at && p.item.FileItem? ==> p.at !in fs;
    }
  }

  // ----- A list of placements -----

  /** No file is at or above the location of another placement. */
  predicate Free(ps: seq<Placement>) {
    forall i, j :: 0 <= i < |ps| && 0 <= j < |ps| && i != j && ps[i].item.FileItem? ==> !(ps[i].at <= ps[j].at)
  }

  predicate Reached(ps: seq<Placement>, q: Location) { exists j :: 0 <= j < |ps| && q <= ps[j].at }

  predicate FileAmong(ps: seq<Placement>, q: Location) {
    exists i :: 0 <= i < |ps| && ps[i].item.FileItem? && ps[i].at == q
  }

  /** The file system holds what was placed, with the bytes of every file, and the directories above. */
  ghost predicate Tracks(fs: Files, ps: seq<Placement>) {
    && (forall q: Location :: q in fs <==> q == [] || Reached(ps, q))
    && (forall q: Location :: FileThere(fs, q) <==> FileAmong(ps, q))
    && (forall i :: 0 <= i < |ps| && ps[i].item.FileItem? ==> Get(fs, ps[i].at) == Some(ps[i].item))
  }

  lemma {:induction false} ReachedSnoc(ps: seq<Placement>, p: Placement, q: Location)
    ensures Reached(ps + [p], q) <==> Reached(ps, q) || q <= p.at
    ensures FileAmong(ps + [p], q) <==> FileAmong(ps, q) || (p.item.FileItem? && q == p.at)
  {
    var longer := ps + [p];
    assert longer[|ps|] == p && forall i :: 0 <= i < |ps| ==> longer[i] == ps[i];
  }

  lemma {:induction false} TracksSnoc(fs: Files, ps: seq<Placement>, p: Placement, after: Files)
    requires Tracks(fs, ps) && Fitting(fs, p) && Placed(fs, p, after)
    ensures Tracks(after, ps + [p])
  {
    forall q: Location
      ensures q in after <==> q == [] || Reached(ps + [p], q)
      ensures FileThere(after, q) <==> FileAmong(ps + [p], q)
    {
      ReachedSnoc(ps, p, q);
      assert Get(after, q).Some? <==> q in after;
    }
    forall i | 0 <= i < |ps + [p]| && (ps + [p])[i].item.FileItem?
      ensures Get(after, (ps + [p])[i].at) == Some((ps + [p])[i].item)
    {
      if i < |ps| { assert Get(fs, ps[i].at) == Some(ps[i].item); }
    }
  }

  /** The next placement fits exactly when the longer list is free. */
  lemma {:induction false} FittingIsFree(fs: Files, ps: seq<Placement>, p: Placement)
    requires Tracks(fs, ps) && Free(ps) && p.at != []
    ensures Fitting(fs, p) <==> Free(ps + [p])
  {
    var longer := ps + [p];
    assert longer[|ps|] == p && forall i :: 0 <= i < |ps| ==> longer[i] == ps[i];
    if Free(longer) {
      forall q: Location | q <= p.at
        ensures !FileThere(fs, q)
      {
        assert forall i :: 0 <= i < |ps| && ps[i].item.FileItem? ==> !(longer[i].at <= longer[|ps|].at);
      }
      if p.item.FileItem? {
        assert forall j :: 0 <= j < |ps| ==> !(longer[|ps|].at <= longer[j].at);
      }
    }
    if Fitting(fs, p) { FittingMakesFree(fs, ps, p); }
  }

  lemma {:induction false} FittingMakesFree(fs: Files, ps: seq<Placement>, p: Placement)
    requires Tracks(fs, ps) && Free(ps) && p.at != [] && Fitting(fs, p)
    ensures Free(ps + [p])
  {
    var longer := ps + [p];
    forall i, j | 0 <= i < |longer| && 0 <= j < |longer| && i != j && longer[i].item.FileItem?
      ensures !(longer[i].at <= longer[j].at)
    {
      if j == |ps| {
        assert FileAmong(ps, ps[i].at) && FileThere(fs, ps[i].at);
      } else if i == |ps| {
        assert p.at !in fs && !Reached(ps, p.at);
      }
    }
  }

  lemma {:induction false} FreePrefix(ps: seq<Placement>, p: Placement)
    requires Free(ps + [p])
    ensures Free(ps)
  {
    var longer := ps + [p];
    forall i, j | 0 <= i < |ps| && 0 <= j < |ps| && i != j && ps[i].item.FileItem?
      ensures !(ps[i].at <= ps[j].at)
    {
      assert longer[i] == ps[i] && longer[j] == ps[j];
    }
  }

  const Fresh: Files := map[[] := DirItem]

  /** Everything can be put into a fresh directory exactly when the list is free, and then is what the list says. */
  lemma {:induction false} PutAllExact(ps: seq<Placement>)
    requires forall i :: 0 <= i < |ps| ==> ps[i].at != []
    ensures PutAll(Fresh, ps).Some? <==> Free(ps)
    ensures PutAll(Fresh, ps).Some? ==> Tracks(PutAll(Fresh, ps).value, ps) && Sane(PutAll(Fresh, ps).value)
    decreases |ps|
  {
    hide Put, Fitting, Placed;
    if ps == [] {
      return;
    }
    var front, p := ps[..|ps| - 1], ps[|ps| - 1];
    assert ps == front + [p];
    PutAllExact(front);
    PutAppend(Fresh, front, [p]);
    if Free(ps) { FreePrefix(front, p); }
    if PutAll(Fresh, front).Some? { PutOneMore(PutAll(Fresh, front).value, front, p); }
  }

  lemma {:induction false} PutOneMore(fs: Files, ps: seq<Placement>, p: Placement)
    requires Tracks(fs, ps) && Sane(fs) && Free(ps) && p.at != []
    ensures PutAll(fs, [p]) == Put(fs, p) && (Put(fs, p).Some? <==> Free(ps + [p]))
    ensures Put(fs, p).Some? ==> Tracks(Put(fs, p).value, ps + [p]) && Sane(Put(fs, p).value)
  {
    hide Fitting, Placed, Free, Tracks, Sane, Put;
    assert [p][1..] == [];
    if Put(fs, p).Some? { assert PutAll(Put(fs, p).value, []) == Put(fs, p); }
    PutExact(fs, p);
    FittingIsFree(fs, ps, p);
    if Put(fs, p).Some? { TracksSnoc(fs, ps, p, Put(fs, p).value); }
  }

  // ----- Archives -----

  function Placements(entries: seq<TarEntry>): (ps: seq<Placement>)
    ensures |ps| == |entries| && forall i :: 0 <= i < |ps| ==> ps[i] == PlacementOf(entries[i])
    decreases |entries|
  {
    if entries == [] then [] else [PlacementOf(entries[0])] + Placements(entries[1..])
  }

  /** No file is extracted at or above the location of another entry. */
  predicate PrefixFree(entries: seq<TarEntry>) {
    forall i, j :: 0 <= i < |entries| && 0 <= j < |entries| && i != j && !entries[i].kind.Directory? ==>
                     !(NamesOf(entries[i].path) <= NamesOf(entries[j].path))
  }

  /** An archive path names a location below the root: its first part is a root or the manifest. */
  lemma {:induction false} PathIsSomewhere(path: Bytes)
    requires ArchivePath(path)
    ensures NamesOf(path) != []
  {
    var parts := Split(path);
    if path == MANIFEST { SplitPlain(path); }
    assert parts[0] != [] && parts[0] != [DOT];
  }

  /** An earlier entry is at the location of this one or below it. */
  predicate ReachedBefore(entries: seq<TarEntry>, i: nat)
    requires i < |entries|
  {
    exists j :: 0 <= j < i && NamesOf(entries[i].path) <= NamesOf(entries[j].path)
  }

  /** The path of the entry can be created, apart from what other entries put in its way. */
  predicate Creatable(host: Host, entries: seq<TarEntry>, i: nat)
    requires i < |entries|
  {
    var e := entries[i];
    && Opens(host, e.path)
    && (if e.kind.Directory? then EndsInDot(e.path) ==> ReachedBefore(entries, i) else EndsInName(e.path))
  }

  predicate AllCreatable(host: Host, entries: seq<TarEntry>) {
    forall i :: 0 <= i < |entries| ==> Creatable(host, entries, i)
  }

  lemma {:induction false} ExtractAppend(host: Host, fs: Files, a: seq<TarEntry>, e: TarEntry)
    ensures ExtractAll(host, fs, a + [e]) == match ExtractAll(host, fs, a) case None => None case Some(mid) => ExtractOne(host, mid, e)
    decreases |a|
  {
    if a == [] {
      assert a + [e] == [e] && [e][1..] == [];
      if ExtractOne(host, fs, e).Some? { assert ExtractAll(host, ExtractOne(host, fs, e).value, []) == ExtractOne(host, fs, e); }
    } else {
      assert (a + [e])[1..] == a[1..] + [e];
      if ExtractOne(host, fs, a[0]).Some? { ExtractAppend(host, ExtractOne(host, fs, a[0]).value, a[1..], e); }
    }
  }

  lemma {:induction false} CreatableFront(host: Host, front: seq<TarEntry>, e: TarEntry)
    ensures AllCreatable(host, front + [e]) <==> AllCreatable(host, front) && Creatable(host, front + [e], |front|)
  {
    var entries := front + [e];
    forall i | 0 <= i < |front|
      ensures Creatable(host, entries, i) <==> Creatable(host, front, i)
    {
      assert forall j :: 0 <= j <= i ==> entries[j] == front[j];
    }
  }

  lemma {:induction false} ReachedMeansBefore(front: seq<TarEntry>, e: TarEntry)
    ensures ReachedBefore(front + [e], |front|) <==> Reached(Placements(front), NamesOf(e.path))
  {
    hide NamesOf;
    var entries, ps := front + [e], Placements(front);
    assert forall j :: 0 <= j < |front| ==> entries[j] == front[j] && ps[j].at == NamesOf(front[j].path);
    assert entries[|front|] == e;
  }

  /** The last entry is extracted exactly when its path can be created and it fits what is there. */
  lemma {:induction false} ExtractLast(host: Host, fs: Files, front: seq<TarEntry>, e: TarEntry)
    requires Tracks(fs, Placements(front)) && ArchivePath(e.path)
    ensures ExtractOne(host, fs, e) == if Creatable(host, front + [e], |front|) then Put(fs, PlacementOf(e)) else None
  {
    hide ArchivePath, ReachedBefore, Reached, Placements, NamesOf, EndsInDot, EndsInName, Put, FileAmong, Opens;
    ReachedMeansBefore(front, e);
    PathIsSomewhere(e.path);
    assert (front + [e])[|front|] == e;
    assert NamesOf(e.path) in fs <==> Reached(Placements(front), NamesOf(e.path));
  }

  /** The state after the first entries, when they can be extracted. */
  ghost predicate Good(fs: Files, ps: seq<Placement>) { Tracks(fs, ps) && Sane(fs) }

  lemma {:induction false} ExtractExact(host: Host, entries: seq<TarEntry>)
    requires forall i :: 0 <= i < |entries| ==> ArchivePath(entries[i].path)
    ensures ExtractAll(host, Fresh, entries).Some? <==> Free(Placements(entries)) && AllCreatable(host, entries)
    ensures ExtractAll(host, Fresh, entries).Some? ==> Good(ExtractAll(host, Fresh, entries).value, Placements(entries))
    decreases |entries|
  {
    hide ArchivePath, ExtractOne, Creatable, Put, PlacementOf, Free, AllCreatable, Good, NamesOf;
    if entries == [] {
      NothingExtracts(host);
      return;
    }
    var front, e := entries[..|entries| - 1], entries[|entries| - 1];
    assert entries == front + [e] && ArchivePath(e.path);
    ExtractExact(host, front);
    ExtractAppend(host, Fresh, front, e);
    CreatableFront(host, front, e);
    var ps, p := Placements(front), PlacementOf(e);
    assert Placements(entries) == ps + [p];
    if Free(ps + [p]) { FreePrefix(ps, p); }
    if ExtractAll(host, Fresh, front).Some? { ExtractStep(host, ExtractAll(host, Fresh, front).value, front, e); }
  }

  lemma {:induction false} NothingExtracts(host: Host)
    ensures ExtractAll(host, Fresh, []) == Some(Fresh) && Free(Placements([])) && AllCreatable(host, []) && Good(Fresh, Placements([]))
  {
  }

  lemma {:induction false} ExtractStep(host: Host, fs: Files, front: seq<TarEntry>, e: TarEntry)
    requires Good(fs, Placements(front)) && Free(Placements(front)) && ArchivePath(e.path)
    ensures ExtractOne(host, fs, e).Some? <==> Free(Placements(front) + [PlacementOf(e)]) && Creatable(host, front + [e], |front|)
    ensures ExtractOne(host, fs, e).Some? ==> Good(ExtractOne(host, fs, e).value, Placements(front) + [PlacementOf(e)])
  {
    hide ArchivePath, ExtractOne, Creatable, Free, Tracks, Sane, Fitting, Put, Placed, NamesOf, Placements;
    var ps, p := Placements(front), PlacementOf(e);
    PathIsSomewhere(e.path);
    ExtractLast(host, fs, front, e);
    PutExact(fs, p);
    FittingIsFree(fs, ps, p);
    if Put(fs, p).Some? { TracksSnoc(fs, ps, p, Put(fs, p).value); }
  }

  /**
   Acceptance and extraction: an accepted archive can be extracted exactly when no file lies
   at or above another entry's location and every path can be created: the host takes it, the
   path of a file ends in a name, and a directory whose path ends in `.` was made before.
   */
  lemma {:induction false} AcceptedExtractsIff(host: Host, entries: seq<TarEntry>, limits: Limits)
    requires EntriesOk(entries, limits)
    ensures ExtractAll(host, Fresh, entries).Some? <==> PrefixFree(entries) && AllCreatable(host, entries)
  {
    hide PrefixFree, Free, Good, ExtractAll, AllCreatable;
    forall i | 0 <= i < |entries|
      ensures ArchivePath(entries[i].path)
    {
      assert EntryOk(entries[i], limits);
    }
    ExtractExact(host, entries);
    FreeMeansPrefixFree(entries);
  }

  lemma {:induction false} FreeMeansPrefixFree(entries: seq<TarEntry>)
    ensures PrefixFree(entries) <==> Free(Placements(entries))
  {
    var ps := Placements(entries);
    assert forall i :: 0 <= i < |ps| ==> ps[i].at == NamesOf(entries[i].path) && (ps[i].item.FileItem? <==> !entries[i].kind.Directory?);
  }
}
