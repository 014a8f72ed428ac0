/** Every staging directory that a log of placements leaves is shown by some tree. */
module StagingTree {
  import opened Prelude
  import opened ArchiveTree
  import opened ArchiveExtractable
  import opened ArchiveRoundTrip

  // ----- One child of a directory -----

  /** The directory with this child, in the place of one of the same name or as the last. */
  function With(f: Forest, name: Name, node: Node): Forest {
    match f
    case Nil => Cons(name, node, Nil)
    case Cons(n, was, rest) => if n == name then Cons(name, node, rest) else Cons(n, was, With(rest, name, node))
  }

  lemma {:induction false} FindWith(f: Forest, name: Name, node: Node, other: Name)
    ensures Find(With(f, name, node), other) == if other == name then Some(node) else Find(f, other)
  {
    if f.Cons? { FindWith(f.rest, name, node, other); }
  }

  lemma {:induction false} WithIsPlain(f: Forest, name: Name, node: Node)
    requires NoLinks(f) && Distinct(f) && NodeNoLinks(node) && NodeDistinct(node)
    ensures NoLinks(With(f, name, node)) && Distinct(With(f, name, node))
  {
    if f.Cons? {
      WithIsPlain(f.rest, name, node);
      FindWith(f.rest, name, node, f.name);
    }
  }

  // ----- One placement -----

  /** The children of a directory child, none if there is no such child. */
  function ChildrenOf(f: Forest, name: Name): Forest {
    match Find(f, name)
    case Some(Dir(children)) => children
    case _ => Nil
  }

  /** The tree with an item placed in it, and the directories above the item. */
  function Grow(f: Forest, at: Location, item: Item): Forest
    requires at != []
    decreases |at|
  {
    if |at| > 1 then With(f, at[0], Dir(Grow(ChildrenOf(f, at[0]), at[1..], item)))
    else if item.FileItem? then With(f, at[0], File(item.bytes))
    else With(f, at[0], Dir(ChildrenOf(f, at[0])))
  }

  lemma ChildrenArePlain(f: Forest, name: Name)
    requires NoLinks(f) && Distinct(f)
    ensures NoLinks(ChildrenOf(f, name)) && Distinct(ChildrenOf(f, name))
  {
    if Find(f, name).Some? { FoundIsPlain(f, name); }
  }

  lemma {:induction false} GrowIsPlain(f: Forest, at: Location, item: Item)
    requires at != [] && NoLinks(f) && Distinct(f)
    ensures NoLinks(Grow(f, at, item)) && Distinct(Grow(f, at, item))
    decreases |at|
  {
    ChildrenArePlain(f, at[0]);
    if |at| > 1 {
      GrowIsPlain(ChildrenOf(f, at[0]), at[1..], item);
      WithIsPlain(f, at[0], Dir(Grow(ChildrenOf(f, at[0]), at[1..], item)));
    } else if item.FileItem? {
      WithIsPlain(f, at[0], File(item.bytes));
    } else {
      WithIsPlain(f, at[0], Dir(ChildrenOf(f, at[0])));
    }
  }

  /** No file is on the way to the location, and nothing is where a file is to go. */
  predicate Clear(f: Forest, at: Location, item: Item)
    requires at != []
    decreases |at|
  {
    match Find(f, at[0])
    case None => true
    case Some(node) => node.Dir? && (if |at| == 1 then item.DirItem? else Clear(node.children, at[1..], item))
  }

  /** What stands in the way of a placement. */
  lemma {:induction false} InTheWay(f: Forest, at: Location, item: Item) returns (q: Location)
    requires at != [] && NoLinks(f) && Distinct(f) && !Clear(f, at, item)
    ensures q != [] && q <= at && Lookup(f, q).Some? && (Lookup(f, q).value.File? || (q == at && item.FileItem?))
    decreases |at|
  {
    var node := Find(f, at[0]).value;
    FoundIsPlain(f, at[0]);
    if node.File? || |at| == 1 {
      q := [at[0]];
    } else {
      var rest := InTheWay(node.children, at[1..], item);
      q := [at[0]] + rest;
      assert q[1..] == rest && at == [at[0]] + at[1..];
    }
  }

  /** The item at a location of the grown tree. */
  lemma {:induction false} GrowLookup(f: Forest, at: Location, item: Item, q: Location)
    requires at != [] && q != [] && Clear(f, at, item)
    ensures ItemOf(Lookup(Grow(f, at, item), q)) ==
            if q == at && item.FileItem? then Some(item)
            else if Lookup(f, q).Some? then ItemOf(Lookup(f, q)) else if q <= at then Some(DirItem) else None
    decreases |at|
  {
    var below := ChildrenOf(f, at[0]);
    var node := if |at| > 1 then Dir(Grow(below, at[1..], item)) else if item.FileItem? then File(item.bytes) else Dir(below);
    FindWith(f, at[0], node, q[0]);
    assert q == [q[0]] + q[1..] && at == [at[0]] + at[1..];
    assert q <= at <==> q[0] == at[0] && q[1..] <= at[1..];
    if q[0] == at[0] && |q| > 1 && |at| > 1 {
      if Find(f, at[0]).None? { assert Clear(below, at[1..], item); }
      GrowLookup(below, at[1..], item, q[1..]);
    }
  }

  lemma {:induction false} UnclearIsUnfitting(t: Forest, fs: Files, p: Placement)
    requires Shows(t, fs) && p.at != [] && !Clear(t, p.at, p.item)
    ensures !Fitting(fs, p)
  {
    var q := InTheWay(t, p.at, p.item);
    LookupIsItem(t, q);
    assert Get(fs, q) == ItemOf(Lookup(t, q));
    assert FileThere(fs, q) || (q == p.at && p.item.FileItem? && q in fs);
  }

  /** A placement in the directory is the same placement in its tree. */
  lemma GrowShows(t: Forest, fs: Files, p: Placement)
    requires Shows(t, fs) && Sane(fs) && p.at != [] && Put(fs, p).Some?
    ensures Shows(Grow(t, p.at, p.item), Put(fs, p).value) && Sane(Put(fs, p).value)
  {
    hide Sane, Put;
    PutExact(fs, p);
    if !Clear(t, p.at, p.item) { UnclearIsUnfitting(t, fs, p); }
    GrowIsPlain(t, p.at, p.item);
    var after, grown := Put(fs, p).value, Grow(t, p.at, p.item);
    forall q: Location | q != []
      ensures Get(after, q) == ItemOf(Lookup(grown, q))
    {
      GrowLookup(t, p.at, p.item, q);
      LookupIsItem(t, q);
      assert Get(fs, q) == ItemOf(Lookup(t, q));
    }
  }

  // ----- A log -----

  lemma {:induction false} GrowAll(t: Forest, fs: Files, ps: seq<Placement>) returns (grown: Forest)
    requires Shows(t, fs) && Sane(fs) && PutAll(fs, ps).Some? && forall i :: 0 <= i < |ps| ==> ps[i].at != []
    ensures Shows(grown, PutAll(fs, ps).value)
    decreases |ps|
  {
    hide Sane, Shows;
    if ps == [] {
      grown := t;
    } else {
      GrowShows(t, fs, ps[0]);
      assert forall i :: 0 <= i < |ps[1..]| ==> ps[1..][i] == ps[i + 1];
      grown := GrowAll(Grow(t, ps[0].at, ps[0].item), Put(fs, ps[0]).value, ps[1..]);
    }
  }

  /** Whatever was staged, some tree shows it. */
  lemma StagedHasTree(ps: seq<Placement>, payload: Bytes) returns (t: Forest)
    requires GoodLog(ps) && PutAll(Empty, Log(ps, payload)).Some?
    ensures Shows(t, PutAll(Empty, Log(ps, payload)).value)
  {
    assert Sane(Empty);
    assert Shows(Nil, Empty);
    t := GrowAll(Nil, Empty, Log(ps, payload));
  }
}
