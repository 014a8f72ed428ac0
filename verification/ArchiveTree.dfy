/**
 Directory trees, the archive entries written for them, and what extracting entries makes
 of a file system.
 */
module ArchiveTree {
  import opened Prelude
  import opened PathText

  type Name = Bytes
  type Location = seq<Name>

  const STATE: Name := [0x73, 0x74, 0x61, 0x74, 0x65]
  const VAULTS: Name := [0x76, 0x61, 0x75, 0x6c, 0x74, 0x73]
  const HISTORY: Name := [0x68, 0x69, 0x73, 0x74, 0x6f, 0x72, 0x79]
  const MANIFEST: Name := [0x6d, 0x61, 0x6e, 0x69, 0x66, 0x65, 0x73, 0x74, 0x2e, 0x6a, 0x73, 0x6f, 0x6e]

  datatype Node = File(bytes: Bytes) | Dir(children: Forest) | Link | Special

  /** The entries of one directory, in the order of their names. */
  datatype Forest = Nil | Cons(name: Name, node: Node, rest: Forest)

  datatype Kind = Regular | Directory | LinkOrSpecial | Unsupported

  datatype TarEntry = TarEntry(path: Bytes, kind: Kind, payload: Bytes)

  const NUL: Byte := 0

  /** A name that a directory entry can have. */
  predicate Proper(n: Name) { n != [] && NoSlash(n) && NUL !in n && n != [DOT] && n != [DOT, DOT] }

  // ----- Paths -----

  /** Relative, with neither a leading `.` nor any `..` component. */
  predicate Plain(path: Bytes) {
    var parts := Split(path);
    !(path != [] && path[0] == SLASH) && parts[0] != [DOT] && [DOT, DOT] !in parts
  }

  /** The components of a plain path; empty and `.` parts do not count. */
  function NamesOf(path: Bytes): Location { Counting(Split(path)) }

  function Counting(parts: seq<Bytes>): Location
    decreases |parts|
  {
    if parts == [] then []
    else (if parts[0] == [] || parts[0] == [DOT] then [] else [parts[0]]) + Counting(parts[1..])
  }

  predicate AllowedRoot(name: Name) { name == STATE || name == VAULTS || name == HISTORY }

  /** archive_path_string accepts this path. */
  predicate ArchivePath(path: Bytes) {
    Plain(path) && path != [] && BACKSLASH !in path && (path == MANIFEST || AllowedRoot(Split(path)[0]))
  }

  /** The longest paths and names that the host's file system takes are its own affair. */
  type Host = Bytes -> bool

  /** The operating system takes the path: no NUL byte, and not too long. */
  predicate Opens(host: Host, path: Bytes) { NUL !in path && host(path) }

  /** The last part is a name: a file cannot be created under `a/` or `a/.`. */
  predicate EndsInName(path: Bytes) {
    var parts := Split(path);
    parts[|parts| - 1] != [] && parts[|parts| - 1] != [DOT]
  }

  /** The last part is `.`, but for slashes: a directory is found under `a/.`, and is not created under it. */
  predicate EndsInDot(path: Bytes) { LastFilled(Split(path)) == [DOT] }

  function LastFilled(parts: seq<Bytes>): Bytes {
    if parts == [] then []
    else if parts[|parts| - 1] != [] then parts[|parts| - 1]
    else LastFilled(parts[..|parts| - 1])
  }

  /** Below one of the three roots, or the manifest itself. */
  predicate Rooted(at: Location) { at != [] && (at == [MANIFEST] || AllowedRoot(at[0])) }

  predicate ProperAll(at: Location) { forall i :: 0 <= i < |at| ==> Proper(at[i]) && BACKSLASH !in at[i] }

  lemma {:induction false} CountingProper(parts: seq<Bytes>)
    requires forall i :: 0 <= i < |parts| ==> Proper(parts[i])
    ensures Counting(parts) == parts
    decreases |parts|
  {
    if parts != [] {
      CountingProper(parts[1..]);
      assert parts == [parts[0]] + parts[1..];
    }
  }

  lemma {:induction false} UnsplitBytes(parts: seq<Bytes>, b: Byte)
    requires |parts| >= 1 && b != SLASH && forall i :: 0 <= i < |parts| ==> b !in parts[i]
    ensures b !in Unsplit(parts)
    decreases |parts|
  {
    if |parts| > 1 { UnsplitBytes(parts[1..], b); }
  }

  /** The path written for a location is accepted, leads back to it, and can be created. */
  lemma PathOfLocation(at: Location)
    requires ProperAll(at) && Rooted(at)
    ensures ArchivePath(Unsplit(at)) && NamesOf(Unsplit(at)) == at && Split(Unsplit(at)) == at
    ensures NUL !in Unsplit(at) && EndsInName(Unsplit(at)) && !EndsInDot(Unsplit(at))
  {
    SplitUnsplit(at);
    CountingProper(at);
    UnsplitBytes(at, BACKSLASH);
    UnsplitBytes(at, NUL);
    UnsplitStart(at);
    assert Proper(at[|at| - 1]);
  }

  lemma UnsplitStart(at: Location)
    requires |at| >= 1 && at[0] != []
    ensures Unsplit(at) != [] && Unsplit(at)[0] == at[0][0]
  {
  }

  // ----- Trees -----

  function Find(f: Forest, name: Name): Option<Node> {
    match f
    case Nil => None
    case Cons(n, node, rest) => if n == name then Some(node) else Find(rest, name)
  }

  /** The node at a location below a directory. */
  function Lookup(f: Forest, at: Location): Option<Node>
    requires at != []
    decreases |at|
  {
    match Find(f, at[0])
    case None => None
    case Some(node) =>
      if |at| == 1 then Some(node)
      else if node.Dir? then Lookup(node.children, at[1..])
      else None
  }

  /** No links or special nodes anywhere. */
  predicate NoLinks(f: Forest) {
    f.Cons? ==> NodeNoLinks(f.node) && NoLinks(f.rest)
  }

  predicate NodeNoLinks(node: Node) {
    match node
    case File(_) => true
    case Dir(children) => NoLinks(children)
    case _ => false
  }

  /** No name occurs twice in a directory. */
  predicate Distinct(f: Forest) {
    f.Cons? ==> Find(f.rest, f.name).None? && NodeDistinct(f.node) && Distinct(f.rest)
  }

  predicate NodeDistinct(node: Node) { node.Dir? ==> Distinct(node.children) }

  // ----- Writing -----

  datatype Item = FileItem(bytes: Bytes) | DirItem

  /** Something to be put at a location. */
  datatype Placement = Placement(at: Location, item: Item)

  /** append_tree: the entries for a directory's children; a link or special node is an error. */
  function Append(f: Forest, at: Location): Option<seq<Placement>> {
    if f.Nil? then Some([])
    else
      var head := AppendNode(f.node, at + [f.name]);
      var tail := Append(f.rest, at);
      if head.Some? && tail.Some? then Some(head.value + tail.value) else None
  }

  function AppendNode(node: Node, at: Location): Option<seq<Placement>> {
    match node
    case File(bytes) => Some([Placement(at, FileItem(bytes))])
    case Dir(children) =>
      (match Append(children, at)
       case None => None
       case Some(inner) => Some([Placement(at, DirItem)] + inner))
    case _ => None
  }

  /** The same list without the error case. */
  function List(f: Forest, at: Location): seq<Placement> {
    if f.Nil? then [] else ListNode(f.node, at + [f.name]) + List(f.rest, at)
  }

  function ListNode(node: Node, at: Location): seq<Placement> {
    match node
    case File(bytes) => [Placement(at, FileItem(bytes))]
    case Dir(children) => [Placement(at, DirItem)] + List(children, at)
    case _ => []
  }

  lemma {:induction false} AppendIsList(f: Forest, at: Location)
    ensures Append(f, at) == if NoLinks(f) then Some(List(f, at)) else None
    decreases f
  {
    if f.Cons? {
      if f.node.Dir? { AppendIsList(f.node.children, at + [f.name]); }
      AppendIsList(f.rest, at);
    }
  }

  function PathOf(at: Location): Bytes { if at == [] then [] else Unsplit(at) }

  function Tar(p: Placement): TarEntry {
    TarEntry(PathOf(p.at), if p.item.DirItem? then Directory else Regular, if p.item.DirItem? then [] else p.item.bytes)
  }

  function WriteTar(ps: seq<Placement>): (entries: seq<TarEntry>)
    ensures |entries| == |ps| && forall i :: 0 <= i < |ps| ==> entries[i] == Tar(ps[i])
  {
    if ps == [] then [] else WriteTar(ps[..|ps| - 1]) + [Tar(ps[|ps| - 1])]
  }

  // ----- Extraction -----

  type Files = map<Location, Item>

  function Get(fs: Files, at: Location): Option<Item> { if at in fs then Some(fs[at]) else None }

  /** create_dir_all. */
  function MakeDirs(fs: Files, at: Location): Option<Files>
    decreases |at|
  {
    if at in fs then (if fs[at].DirItem? then Some(fs) else None)
    else if at == [] then Some(fs[[] := DirItem])
    else match MakeDirs(fs, at[..|at| - 1])
         case None => None
         case Some(made) => Some(made[at := DirItem])
  }

  /** A directory is created with its parents; a file must be new. */
  function Put(fs: Files, p: Placement): Option<Files> {
    if p.item.DirItem? then MakeDirs(fs, p.at)
    else if p.at == [] then None
    else match MakeDirs(fs, p.at[..|p.at| - 1])
         case None => None
         case Some(made) => if p.at in made then None else Some(made[p.at := p.item])
  }

  function PutAll(fs: Files, ps: seq<Placement>): Option<Files>
    decreases |ps|
  {
    if ps == [] then Some(fs)
    else match Put(fs, ps[0])
         case None => None
         case Some(next) => PutAll(next, ps[1..])
  }

  lemma {:induction false} PutAppend(fs: Files, a: seq<Placement>, b: seq<Placement>)
    ensures PutAll(fs, a + b) == match PutAll(fs, a) case None => None case Some(mid) => PutAll(mid, b)
    decreases |a|
  {
    if a == [] {
      assert a + b == b;
    } else {
      assert (a + b)[1..] == a[1..] + b;
      if Put(fs, a[0]).Some? { PutAppend(Put(fs, a[0]).value, a[1..], b); }
    }
  }

  function PlacementOf(e: TarEntry): Placement {
    Placement(NamesOf(e.path), if e.kind.Directory? then DirItem else FileItem(e.payload))
  }

  /** One round of the loop of extract_archive: create_dir_all, or an exclusive create below its parent. */
  function ExtractOne(host: Host, fs: Files, e: TarEntry): Option<Files> {
    if !ArchivePath(e.path) || !Opens(host, e.path) then None
    else if e.kind.Directory? && EndsInDot(e.path) && NamesOf(e.path) !in fs then None
    else if !e.kind.Directory? && !EndsInName(e.path) then None
    else Put(fs, PlacementOf(e))
  }

  function ExtractAll(host: Host, fs: Files, entries: seq<TarEntry>): Option<Files>
    decreases |entries|
  {
    if entries == [] then Some(fs)
    else match ExtractOne(host, fs, entries[0])
         case None => None
         case Some(next) => ExtractAll(host, next, entries[1..])
  }

  /** extract_archive after validation: the entries in order, into a fresh directory. */
  method Extract(host: Host, entries: seq<TarEntry>) returns (r: Option<Files>)
    ensures r == ExtractAll(host, map[[] := DirItem], entries)
  {
    var fs: Files := map[[] := DirItem];
    var i := 0;
    while i < |entries|
      invariant 0 <= i <= |entries|
      invariant ExtractAll(host, fs, entries[i..]) == ExtractAll(host, map[[] := DirItem], entries)
    {
      assert entries[i..][1..] == entries[i + 1..];
      var next := ExtractOne(host, fs, entries[i]);
      if next.None? { return None; }
      fs := next.value;
      i := i + 1;
    }
    r := Some(fs);
  }

  predicate Archivable(p: Placement) { ProperAll(p.at) && Rooted(p.at) }

  predicate AllArchivable(ps: seq<Placement>) { forall i :: 0 <= i < |ps| ==> Archivable(ps[i]) }

  /** The host takes the path of every placement. */
  predicate Taken(host: Host, ps: seq<Placement>) { forall i :: 0 <= i < |ps| ==> host(PathOf(ps[i].at)) }

  lemma {:induction false} TakenFirst(host: Host, ps: seq<Placement>)
    ensures Taken(host, ps) <==> ps == [] || (host(PathOf(ps[0].at)) && Taken(host, ps[1..]))
  {
    hide PathOf;
    if ps != [] { assert forall i :: 0 <= i < |ps[1..]| ==> ps[1..][i] == ps[i + 1]; }
  }

  lemma {:induction false} ExtractWrittenOne(host: Host, fs: Files, p: Placement)
    requires Archivable(p)
    ensures ExtractOne(host, fs, Tar(p)) == if host(PathOf(p.at)) then Put(fs, p) else None
  {
    hide ArchivePath, NamesOf, EndsInName, EndsInDot, Put;
    PathOfLocation(p.at);
    assert PlacementOf(Tar(p)) == p;
  }

  /** Extracting the written entries puts every placement where it came from, if the host takes their paths. */
  lemma {:induction false} ExtractWritten(host: Host, fs: Files, ps: seq<Placement>)
    requires AllArchivable(ps)
    ensures ExtractAll(host, fs, WriteTar(ps)) == if Taken(host, ps) then PutAll(fs, ps) else None
    decreases |ps|
  {
    hide ExtractOne, Put, Archivable, PathOf, Taken;
    TakenFirst(host, ps);
    if ps != [] {
      ExtractWrittenOne(host, fs, ps[0]);
      assert WriteTar(ps)[1..] == WriteTar(ps[1..]);
      if Put(fs, ps[0]).Some? { ExtractWritten(host, Put(fs, ps[0]).value, ps[1..]); }
    }
  }

  // ----- Round trip -----

  function ItemOf(node: Option<Node>): Option<Item> {
    match node
    case Some(File(bytes)) => Some(FileItem(bytes))
    case Some(Dir(_)) => Some(DirItem)
    case _ => None
  }

  lemma {:induction false} FoundIsPlain(f: Forest, name: Name)
    requires NoLinks(f) && Distinct(f) && Find(f, name).Some?
    ensures NodeNoLinks(Find(f, name).value) && NodeDistinct(Find(f, name).value)
  {
    if f.name != name { FoundIsPlain(f.rest, name); }
  }

  /** Without links, whatever is found is an item. */
  lemma {:induction false} LookupIsItem(f: Forest, q: Location)
    requires q != [] && NoLinks(f) && Distinct(f)
    ensures Lookup(f, q).Some? ==> ItemOf(Lookup(f, q)).Some?
    decreases |q|
  {
    if Find(f, q[0]).Some? {
      FoundIsPlain(f, q[0]);
      if |q| > 1 && Find(f, q[0]).value.Dir? { LookupIsItem(Find(f, q[0]).value.children, q[1..]); }
    }
  }

  /** Above whatever is found there are directories. */
  lemma {:induction false} LookupAbove(f: Forest, q: Location, r: Location)
    requires q != [] && q < r && Lookup(f, r).Some?
    ensures Lookup(f, q).Some? && Lookup(f, q).value.Dir?
    decreases |q|
  {
    var node := Find(f, q[0]).value;
    if |q| > 1 {
      assert q[1..] < r[1..];
      LookupAbove(node.children, q[1..], r[1..]);
    }
  }

  /** The location is below `at`, in the subtree of one of the directory's children. */
  predicate Under(f: Forest, at: Location, q: Location) {
    at <= q && |at| < |q| && Find(f, q[|at|]).Some?
  }

  /** `after` is `fs` with a directory's children put below `at`. */
  ghost predicate Grafted(fs: Files, f: Forest, at: Location, after: Files) {
    forall q :: Get(after, q) == if Under(f, at, q) then ItemOf(Lookup(f, q[|at|..])) else Get(fs, q)
  }

  /** There is a directory at `at`, and nothing yet where the children go. */
  ghost predicate Room(fs: Files, f: Forest, at: Location) {
    Get(fs, at) == Some(DirItem) && forall q :: Under(f, at, q) ==> Get(fs, q).None?
  }

  lemma PutInRoom(fs: Files, at: Location, name: Name, item: Item)
    requires Get(fs, at) == Some(DirItem) && Get(fs, at + [name]).None?
    ensures Put(fs, Placement(at + [name], item)) == Some(fs[at + [name] := item])
  {
    var to := at + [name];
    assert to[..|to| - 1] == at;
    assert MakeDirs(fs, at) == Some(fs);
  }

  /** The forest without its first child. */
  lemma RestUnder(f: Forest, at: Location, q: Location)
    requires f.Cons? && Find(f.rest, f.name).None?
    ensures Under(f, at, q) <==> at + [f.name] <= q || Under(f.rest, at, q)
    ensures Under(f.rest, at, q) ==> !(at + [f.name] <= q)
    ensures Under(f.rest, at, q) ==> Lookup(f, q[|at|..]) == Lookup(f.rest, q[|at|..])
  {
  }

  /** Below the first child the tree is that child. */
  lemma FirstUnder(f: Forest, at: Location, q: Location)
    requires f.Cons? && at + [f.name] <= q
    ensures |at| < |q| && q[|at|..] != []
    ensures q == at + [f.name] ==> Lookup(f, q[|at|..]) == Some(f.node)
    ensures q != at + [f.name] && f.node.Dir? ==> |at| + 1 < |q| && Lookup(f, q[|at|..]) == Lookup(f.node.children, q[|at| + 1..])
    ensures q != at + [f.name] && !f.node.Dir? ==> Lookup(f, q[|at|..]).None?
  {
  }

  /** Nothing is found below a location that is not under one of the children. */
  lemma {:induction false} LookupUnder(f: Forest, at: Location, q: Location)
    requires at <= q && |at| < |q| && !Under(f, at, q)
    ensures Lookup(f, q[|at|..]).None?
  {
  }

  /** The first child, itself and what is below it, is grafted. */
  ghost predicate GraftedFirst(fs: Files, f: Forest, at: Location, after: Files)
    requires f.Cons?
  {
    forall q :: Get(after, q) == if at + [f.name] <= q then (if q[|at|..] == [] then None else ItemOf(Lookup(f, q[|at|..]))) else Get(fs, q)
  }

  lemma FirstFileGrafted(fs: Files, f: Forest, at: Location)
    requires f.Cons? && f.node.File? && Room(fs, f, at) && Find(f.rest, f.name).None?
    ensures GraftedFirst(fs, f, at, fs[at + [f.name] := FileItem(f.node.bytes)])
  {
    var to := at + [f.name];
    var after := fs[to := FileItem(f.node.bytes)];
    forall q
      ensures Get(after, q) == if to <= q then (if q[|at|..] == [] then None else ItemOf(Lookup(f, q[|at|..]))) else Get(fs, q)
    {
      if to <= q {
        FirstUnder(f, at, q);
        RestUnder(f, at, q);
      }
    }
  }

  lemma FirstDirGrafted(fs: Files, f: Forest, at: Location, after: Files)
    requires f.Cons? && f.node.Dir? && Room(fs, f, at) && Find(f.rest, f.name).None?
    requires Grafted(fs[at + [f.name] := DirItem], f.node.children, at + [f.name], after)
    ensures GraftedFirst(fs, f, at, after)
  {
    var to := at + [f.name];
    forall q
      ensures Get(after, q) == if to <= q then (if q[|at|..] == [] then None else ItemOf(Lookup(f, q[|at|..]))) else Get(fs, q)
    {
      if to <= q {
        FirstUnder(f, at, q);
        RestUnder(f, at, q);
        if q != to && !Under(f.node.children, to, q) { LookupUnder(f.node.children, to, q); }
      }
    }
  }

  lemma DirRoom(fs: Files, f: Forest, at: Location)
    requires f.Cons? && f.node.Dir? && Room(fs, f, at) && Find(f.rest, f.name).None?
    ensures Room(fs[at + [f.name] := DirItem], f.node.children, at + [f.name])
  {
    var to := at + [f.name];
    forall q | Under(f.node.children, to, q)
      ensures Get(fs[to := DirItem], q).None?
    {
      RestUnder(f, at, q);
    }
  }

  lemma RestRoom(fs: Files, f: Forest, at: Location, mid: Files)
    requires f.Cons? && Room(fs, f, at) && Find(f.rest, f.name).None? && GraftedFirst(fs, f, at, mid)
    ensures Room(mid, f.rest, at)
  {
  }

  lemma GraftsCompose(fs: Files, f: Forest, at: Location, mid: Files, after: Files)
    requires f.Cons? && Find(f.rest, f.name).None?
    requires GraftedFirst(fs, f, at, mid) && Grafted(mid, f.rest, at, after)
    ensures Grafted(fs, f, at, after)
  {
  }

  /** What is needed to put a tree: no links, distinct names, and room. */
  ghost predicate Puttable(fs: Files, f: Forest, at: Location) {
    NoLinks(f) && Distinct(f) && Room(fs, f, at)
  }

  lemma FirstItself(fs: Files, f: Forest, at: Location)
    requires f.Cons? && Puttable(fs, f, at)
    ensures f.node.File? || (f.node.Dir? && NoLinks(f.node.children) && Distinct(f.node.children))
    ensures Put(fs, Placement(at + [f.name], ItemOf(Some(f.node)).value)) == Some(fs[at + [f.name] := ItemOf(Some(f.node)).value])
  {
    assert NodeNoLinks(f.node) && NodeDistinct(f.node);
    RestUnder(f, at, at + [f.name]);
    PutInRoom(fs, at, f.name, ItemOf(Some(f.node)).value);
  }

  /** Putting the list of the first child puts that child, and all below it, in its place. */
  lemma {:induction false} PutFirst(fs: Files, f: Forest, at: Location) returns (mid: Files)
    requires f.Cons? && Puttable(fs, f, at)
    ensures PutAll(fs, ListNode(f.node, at + [f.name])) == Some(mid) && GraftedFirst(fs, f, at, mid)
    decreases f, 0
  {
    var to := at + [f.name];
    FirstItself(fs, f, at);
    if f.node.File? {
      FirstFileGrafted(fs, f, at);
      mid := fs[to := FileItem(f.node.bytes)];
      assert PutAll(mid, []) == Some(mid);
    } else {
      DirRoom(fs, f, at);
      mid := PutList(fs[to := DirItem], f.node.children, to);
      FirstDirGrafted(fs, f, at, mid);
      assert ListNode(f.node, to)[1..] == List(f.node.children, to);
    }
  }

  /** Putting the list of a directory puts exactly its tree below it. */
  lemma {:induction false} PutList(fs: Files, f: Forest, at: Location) returns (after: Files)
    requires Puttable(fs, f, at)
    ensures PutAll(fs, List(f, at)) == Some(after) && Grafted(fs, f, at, after)
    decreases f, 1
  {
    if f.Nil? { return fs; }
    var mid := PutFirst(fs, f, at);
    RestRoom(fs, f, at, mid);
    after := PutList(mid, f.rest, at);
    GraftsCompose(fs, f, at, mid, after);
    PutAppend(fs, ListNode(f.node, at + [f.name]), List(f.rest, at));
  }

  /** The round trip: what write_tar writes for a staged tree extracts to that tree and nothing else. */
  lemma ExtractUndoesAppend(host: Host, f: Forest)
    requires NoLinks(f) && Distinct(f) && AllArchivable(List(f, []))
    ensures Append(f, []) == Some(List(f, []))
    ensures var r := ExtractAll(host, map[[] := DirItem], WriteTar(List(f, [])));
            && (r.Some? <==> Taken(host, List(f, [])))
            && (r.Some? ==> Get(r.value, []) == Some(DirItem) && forall q :: q != [] ==> Get(r.value, q) == ItemOf(Lookup(f, q)))
  {
    var start: Files := map[[] := DirItem];
    var top: Location := [];
    AppendIsList(f, top);
    ExtractWritten(host, start, List(f, top));
    var after := PutList(start, f, top);
    forall q | q != []
      ensures Get(after, q) == ItemOf(Lookup(f, q))
    {
      assert q[|top|..] == q;
      if !Under(f, top, q) { LookupUnder(f, top, q); }
    }
  }

  // ----- The list of a tree -----

  /** The list of a tree holds a placement exactly when the tree has that item at that location. */
  lemma {:induction false} ListExact(f: Forest, at: Location, q: Location, item: Item)
    requires NoLinks(f) && Distinct(f)
    ensures Placement(q, item) in List(f, at) <==> at <= q && |at| < |q| && ItemOf(Lookup(f, q[|at|..])) == Some(item)
    decreases f
  {
    if f.Cons? {
      var to := at + [f.name];
      assert NodeNoLinks(f.node) && NodeDistinct(f.node);
      RestUnder(f, at, q);
      ListExact(f.rest, at, q, item);
      if f.node.Dir? { ListExact(f.node.children, to, q, item); }
      if to <= q {
        FirstUnder(f, at, q);
        LookupUnder(f.rest, at, q);
      } else if at <= q && |at| < |q| && !Under(f, at, q) {
        LookupUnder(f, at, q);
        LookupUnder(f.rest, at, q);
      }
      InList(f, at, Placement(q, item));
    }
  }

  lemma InList(f: Forest, at: Location, p: Placement)
    requires f.Cons?
    ensures p in List(f, at) <==> p in ListNode(f.node, at + [f.name]) || p in List(f.rest, at)
    ensures f.node.Dir? ==> (p in ListNode(f.node, at + [f.name]) <==> p == Placement(at + [f.name], DirItem) || p in List(f.node.children, at + [f.name]))
    ensures f.node.File? ==> (p in ListNode(f.node, at + [f.name]) <==> p == Placement(at + [f.name], FileItem(f.node.bytes)))
  {
  }

  predicate DistinctLocations(ps: seq<Placement>) {
    forall i, j :: 0 <= i < j < |ps| ==> ps[i].at != ps[j].at
  }

  lemma {:induction false} ListLocations(f: Forest, at: Location, p: Placement)
    requires NoLinks(f) && Distinct(f) && p in List(f, at)
    ensures Under(f, at, p.at)
  {
    ListExact(f, at, p.at, p.item);
    if !Under(f, at, p.at) { LookupUnder(f, at, p.at); }
  }

  /** No location occurs twice in the list of a tree. */
  lemma {:induction false} ListDistinct(f: Forest, at: Location)
    requires NoLinks(f) && Distinct(f)
    ensures DistinctLocations(List(f, at))
    decreases f
  {
    if f.Cons? {
      var to := at + [f.name];
      assert NodeNoLinks(f.node) && NodeDistinct(f.node);
      var head, tail := ListNode(f.node, to), List(f.rest, at);
      ListDistinct(f.rest, at);
      if f.node.Dir? {
        ListDistinct(f.node.children, to);
        forall p | p in List(f.node.children, to)
          ensures |p.at| > |to| && to <= p.at
        {
          ListLocations(f.node.children, to, p);
        }
      }
      assert DistinctLocations(head);
      assert forall p :: p in head ==> to <= p.at;
      forall p | p in tail
        ensures !(to <= p.at)
      {
        ListLocations(f.rest, at, p);
        RestUnder(f, at, p.at);
      }
      DistinctAppend(head, tail, to);
    }
  }

  lemma DistinctAppend(a: seq<Placement>, b: seq<Placement>, to: Location)
    requires DistinctLocations(a) && DistinctLocations(b)
    requires (forall p :: p in a ==> to <= p.at) && (forall p :: p in b ==> !(to <= p.at))
    ensures DistinctLocations(a + b)
  {
  }
}
