/**
 Copying a private tree into the staging directory with an explicit stack, and the running
 totals of the artifacts that go into a manifest.
 */
module TreeCopy {
  import opened Prelude
  import opened PathText
  import opened ArchiveTree
  import opened ArchiveManifest
  import opened ArchiveSort

  /** The artifacts of the files among some placements. */
  function ArtifactsOf(ps: seq<Placement>, hash: Hash): seq<Artifact> {
    if ps == [] then [] else ArtifactsOf(ps[..|ps| - 1], hash) + ArtifactOf(ps[|ps| - 1], hash)
  }

  function ArtifactOf(p: Placement, hash: Hash): seq<Artifact> {
    if p.item.FileItem? then [Artifact(PathOf(p.at), |p.item.bytes|, hash(p.item.bytes))] else []
  }

  lemma ArtifactsSnoc(ps: seq<Placement>, p: Placement, hash: Hash)
    ensures ArtifactsOf(ps + [p], hash) == ArtifactsOf(ps, hash) + ArtifactOf(p, hash)
  {
  }

  lemma {:induction false} ArtifactsAppend(a: seq<Placement>, b: seq<Placement>, hash: Hash)
    ensures ArtifactsOf(a + b, hash) == ArtifactsOf(a, hash) + ArtifactsOf(b, hash)
    decreases |b|
  {
    if b == [] {
      assert a + b == a;
    } else {
      var rest := b[..|b| - 1];
      assert a + b == (a + rest) + [b[|b| - 1]];
      ArtifactsSnoc(a + rest, b[|b| - 1], hash);
      ArtifactsAppend(a, rest, hash);
    }
  }

  // ----- Totals -----

  predicate SmallLimits(limits: Limits) { limits.maxEntries <= U64_MAX && limits.maxTotalBytes <= U64_MAX }

  /** Registering these artifacts one by one goes through. */
  predicate Fits(items: seq<Artifact>, limits: Limits, count: nat, total: nat) {
    && (forall i :: 0 <= i < |items| ==> items[i].size <= limits.maxEntryBytes)
    && (items != [] ==> count + |items| <= limits.maxEntries && total + Sum(items) <= limits.maxTotalBytes)
  }

  lemma FitsPrefix(a: seq<Artifact>, b: seq<Artifact>, limits: Limits, count: nat, total: nat)
    requires Fits(a + b, limits, count, total)
    ensures Fits(a, limits, count, total)
  {
    SumAppend(a, b);
    assert forall i :: 0 <= i < |a| ==> (a + b)[i] == a[i];
  }

  lemma {:induction false} FitsSnoc(items: seq<Artifact>, a: Artifact, limits: Limits, count: nat, total: nat)
    requires Fits(items, limits, count, total)
    ensures Fits(items + [a], limits, count, total)
            <==> && a.size <= limits.maxEntryBytes && count + |items| + 1 <= limits.maxEntries
                 && total + Sum(items) + a.size <= limits.maxTotalBytes
  {
    hide Sum;
    SumSnoc(items, a);
    var longer := items + [a];
    assert longer[|items|] == a && forall i :: 0 <= i < |items| ==> longer[i] == items[i];
  }

  /** register_artifact, with checked 64-bit additions. */
  method Register(limits: Limits, count: nat, total: nat, a: Artifact) returns (r: Option<(nat, nat)>)
    requires SmallLimits(limits)
    ensures r.Some? <==> Fits([a], limits, count, total)
    ensures r.Some? <==> a.size <= limits.maxEntryBytes && count + 1 <= limits.maxEntries && total + a.size <= limits.maxTotalBytes
    ensures r.Some? ==> r.value == (count + 1, total + a.size)
  {
    assert Sum([a]) == a.size by { SumSnoc([], a); assert [] + [a] == [a]; }
    assert [a][0] == a;
    if a.size > limits.maxEntryBytes || count + 1 > U64_MAX || total + a.size > U64_MAX { return None; }
    if count + 1 > limits.maxEntries || total + a.size > limits.maxTotalBytes { return None; }
    r := Some((count + 1, total + a.size));
  }

  // ----- The stack -----

  /** A node that is still to be copied; the prefix ends in a slash. */
  datatype Pending = Pending(node: Node, at: Location, prefix: Bytes)

  predicate PendingOk(p: Pending) { p.at != [] && p.prefix == Unsplit(p.at) + [SLASH] }

  predicate StackOk(stack: seq<Pending>) { forall i :: 0 <= i < |stack| ==> PendingOk(stack[i]) }

  /** What remains to be placed; the top of the stack is its first element. */
  function Plan(stack: seq<Pending>): seq<Placement>
    decreases |stack|
  {
    if stack == [] then [] else ListNode(stack[0].node, stack[0].at) + Plan(stack[1..])
  }

  predicate StackNoLinks(stack: seq<Pending>) { forall i :: 0 <= i < |stack| ==> NodeNoLinks(stack[i].node) }

  function Size(node: Node): nat { if node.Dir? then 1 + ForestSize(node.children) else 1 }

  function ForestSize(f: Forest): nat { if f.Nil? then 0 else Size(f.node) + ForestSize(f.rest) }

  function StackSize(stack: seq<Pending>): nat
    decreases |stack|
  {
    if stack == [] then 0 else Size(stack[0].node) + StackSize(stack[1..])
  }

  /** The children of a directory, ready to go on the stack. */
  function Level(f: Forest, at: Location, prefix: Bytes): seq<Pending> {
    if f.Nil? then [] else [Pending(f.node, at + [f.name], prefix + f.name + [SLASH])] + Level(f.rest, at, prefix)
  }

  lemma {:induction false} UnsplitSnoc(at: Location, name: Name)
    requires at != []
    ensures Unsplit(at + [name]) == Unsplit(at) + [SLASH] + name
    decreases |at|
  {
    if |at| > 1 {
      UnsplitSnoc(at[1..], name);
      assert (at + [name])[1..] == at[1..] + [name];
    } else {
      assert (at + [name])[1..] == [name];
    }
  }

  lemma {:induction false} LevelOk(f: Forest, at: Location, prefix: Bytes)
    requires at != [] && prefix == Unsplit(at) + [SLASH]
    ensures StackOk(Level(f, at, prefix))
    ensures StackNoLinks(Level(f, at, prefix)) <==> NoLinks(f)
    ensures Plan(Level(f, at, prefix)) == List(f, at)
    ensures StackSize(Level(f, at, prefix)) == ForestSize(f)
    decreases f
  {
    if f.Cons? {
      UnsplitSnoc(at, f.name);
      LevelOk(f.rest, at, prefix);
      LevelSplit(f, at, prefix);
    }
  }

  lemma LevelSplit(f: Forest, at: Location, prefix: Bytes)
    requires f.Cons?
    ensures var l := Level(f, at, prefix);
            && l[0] == Pending(f.node, at + [f.name], prefix + f.name + [SLASH]) && l[1..] == Level(f.rest, at, prefix)
            && (StackNoLinks(l) <==> NodeNoLinks(f.node) && StackNoLinks(Level(f.rest, at, prefix)))
  {
  }

  lemma {:induction false} PlanAppend(a: seq<Pending>, b: seq<Pending>)
    ensures Plan(a + b) == Plan(a) + Plan(b) && StackSize(a + b) == StackSize(a) + StackSize(b)
    decreases |a|
  {
    if a == [] {
      assert a + b == b;
    } else {
      assert (a + b)[1..] == a[1..] + b;
      PlanAppend(a[1..], b);
    }
  }

  // ----- The copy -----

  datatype Copy = Copy(stack: seq<Pending>, artifacts: seq<Artifact>, count: nat, total: nat, staged: Files)

  /** What a copy starts from. */
  datatype Start = Start(limits: Limits, count: nat, total: nat, staged: Files)

  /** Some placements are done, the stack plans the others, and the totals are those of the done ones. */
  predicate Progress(c: Copy, placed: seq<Placement>, whole: seq<Placement>, s: Start, hash: Hash) {
    && StackOk(c.stack)
    && placed + Plan(c.stack) == whole
    && PutAll(s.staged, placed) == Some(c.staged)
    && c.artifacts == ArtifactsOf(placed, hash)
    && c.count == s.count + |c.artifacts| && c.total == s.total + Sum(c.artifacts)
    && Fits(c.artifacts, s.limits, s.count, s.total)
  }

  /** The whole tree can be placed within the limits. */
  predicate Copyable(whole: seq<Placement>, s: Start, hash: Hash) {
    PutAll(s.staged, whole).Some? && Fits(ArtifactsOf(whole, hash), s.limits, s.count, s.total)
  }

  lemma PutSnoc(fs: Files, ps: seq<Placement>, p: Placement, now: Files)
    requires PutAll(fs, ps) == Some(now)
    ensures PutAll(fs, ps + [p]) == Put(now, p)
  {
    PutAppend(fs, ps, [p]);
    if Put(now, p).Some? { assert PutAll(Put(now, p).value, []) == Put(now, p); }
  }

  /** A placement that does not go through makes the whole copy impossible. */
  lemma BadPlacement(placed: seq<Placement>, p: Placement, rest: seq<Placement>, s: Start, hash: Hash)
    requires PutAll(s.staged, placed + [p]).None? || !Fits(ArtifactsOf(placed + [p], hash), s.limits, s.count, s.total)
    ensures !Copyable(placed + [p] + rest, s, hash)
  {
    PutAppend(s.staged, placed + [p], rest);
    ArtifactsAppend(placed + [p], rest, hash);
    if Fits(ArtifactsOf(placed + [p] + rest, hash), s.limits, s.count, s.total) {
      FitsPrefix(ArtifactsOf(placed + [p], hash), ArtifactsOf(rest, hash), s.limits, s.count, s.total);
    }
  }

  /** The top of the stack is a directory: it is created and its children go on the stack. */
  method CopyDirectory(c: Copy, s: Start, hash: Hash, ghost placed: seq<Placement>, ghost whole: seq<Placement>)
    returns (r: Option<Copy>)
    requires c.stack != [] && c.stack[0].node.Dir? && Progress(c, placed, whole, s, hash)
    ensures r.Some? ==> && Progress(r.value, placed + [Placement(c.stack[0].at, DirItem)], whole, s, hash)
                        && r.value.stack == Level(c.stack[0].node.children, c.stack[0].at, c.stack[0].prefix) + c.stack[1..]
    ensures r.None? ==> !Copyable(whole, s, hash)
  {
    hide Plan, Fits, StackOk;
    var top, rest := c.stack[0], c.stack[1..];
    ghost var p, planned := Placement(top.at, DirItem), List(top.node.children, top.at) + Plan(rest);
    DirectoryPlan(c.stack, placed, whole);
    PutSnoc(s.staged, placed, p, c.staged);
    ArtifactsSnoc(placed, p, hash);
    var made := MakeDirs(c.staged, top.at);
    if made.None? {
      BadPlacement(placed, p, planned, s, hash);
      return None;
    }
    r := Some(c.(stack := Level(top.node.children, top.at, top.prefix) + rest, staged := made.value));
  }

  /** Pushing the children of a directory plans what its list says. */
  lemma {:induction false} DirectoryPlan(stack: seq<Pending>, placed: seq<Placement>, whole: seq<Placement>)
    requires stack != [] && stack[0].node.Dir? && StackOk(stack) && placed + Plan(stack) == whole
    ensures var top, p := stack[0], Placement(stack[0].at, DirItem);
            var next := Level(top.node.children, top.at, top.prefix) + stack[1..];
            && whole == placed + [p] + (List(top.node.children, top.at) + Plan(stack[1..]))
            && StackOk(next) && placed + [p] + Plan(next) == whole
  {
    hide Level, Unsplit, List, StackSize, StackNoLinks, Plan, StackOk;
    var top, rest := stack[0], stack[1..];
    DirectoryFirst(stack);
    var level := Level(top.node.children, top.at, top.prefix);
    LevelOk(top.node.children, top.at, top.prefix);
    PlanAppend(level, rest);
    StackOkAppend(level, rest);
    var p := Placement(top.at, DirItem);
    assert placed + ([p] + Plan(level) + Plan(rest)) == placed + [p] + (Plan(level) + Plan(rest));
  }

  lemma {:induction false} DirectoryFirst(stack: seq<Pending>)
    requires stack != [] && stack[0].node.Dir? && StackOk(stack)
    ensures PendingOk(stack[0]) && StackOk(stack[1..])
    ensures Plan(stack) == [Placement(stack[0].at, DirItem)] + List(stack[0].node.children, stack[0].at) + Plan(stack[1..])
  {
    hide PendingOk, List;
  }

  lemma {:induction false} StackOkAppend(a: seq<Pending>, b: seq<Pending>)
    requires StackOk(a) && StackOk(b)
    ensures StackOk(a + b)
  {
    hide PendingOk;
  }

  /** Popping a file leaves what is planned after it. */
  lemma {:induction false} FilePlan(stack: seq<Pending>, placed: seq<Placement>, whole: seq<Placement>)
    requires stack != [] && stack[0].node.File? && StackOk(stack) && placed + Plan(stack) == whole
    ensures var top := stack[0];
            && whole == placed + [Placement(top.at, FileItem(top.node.bytes))] + Plan(stack[1..])
            && StackOk(stack[1..]) && |top.prefix| >= 1 && top.prefix[..|top.prefix| - 1] == PathOf(top.at)
  {
    assert PendingOk(stack[0]);
  }

  /** The top of the stack is a file: it is copied, hashed and registered under its prefix without the slash. */
  method CopyFile(c: Copy, s: Start, hash: Hash, ghost placed: seq<Placement>, ghost whole: seq<Placement>)
    returns (r: Option<Copy>)
    requires SmallLimits(s.limits)
    requires c.stack != [] && c.stack[0].node.File? && Progress(c, placed, whole, s, hash)
    ensures r.Some? ==> && Progress(r.value, placed + [Placement(c.stack[0].at, FileItem(c.stack[0].node.bytes))], whole, s, hash)
                        && r.value.stack == c.stack[1..]
    ensures r.None? ==> !Copyable(whole, s, hash)
  {
    hide Plan, Fits, StackOk, Sum, Put, SmallLimits;
    FilePlan(c.stack, placed, whole);
    var top, rest := c.stack[0], c.stack[1..];
    var p := Placement(top.at, FileItem(top.node.bytes));
    PutSnoc(s.staged, placed, p, c.staged);
    ArtifactsSnoc(placed, p, hash);
    var path := top.prefix[..|top.prefix| - 1];
    var item := Artifact(path, |top.node.bytes|, hash(top.node.bytes));
    FitsSnoc(c.artifacts, item, s.limits, s.count, s.total);
    SumSnoc(c.artifacts, item);
    SingleFits(c, item, s);
    var staged := Put(c.staged, p);
    var registered := Register(s.limits, c.count, c.total, item);
    if staged.None? || registered.None? {
      BadPlacement(placed, p, Plan(rest), s, hash);
      return None;
    }
    r := Some(Copy(rest, c.artifacts + [item], registered.value.0, registered.value.1, staged.value));
  }

  lemma SingleFits(c: Copy, a: Artifact, s: Start)
    requires c.count == s.count + |c.artifacts| && c.total == s.total + Sum(c.artifacts)
    ensures Fits([a], s.limits, c.count, c.total)
            <==> && a.size <= s.limits.maxEntryBytes && s.count + |c.artifacts| + 1 <= s.limits.maxEntries
                 && s.total + Sum(c.artifacts) + a.size <= s.limits.maxTotalBytes
  {
    SumSnoc([], a);
    assert [] + [a] == [a] && [a][0] == a;
  }

  /** Popping a directory and pushing its children. */
  lemma Descend(stack: seq<Pending>)
    requires stack != [] && stack[0].node.Dir? && PendingOk(stack[0])
    ensures var next := Level(stack[0].node.children, stack[0].at, stack[0].prefix) + stack[1..];
            (StackNoLinks(next) <==> StackNoLinks(stack)) && StackSize(next) < StackSize(stack)
  {
    var level, rest := Level(stack[0].node.children, stack[0].at, stack[0].prefix), stack[1..];
    LevelOk(stack[0].node.children, stack[0].at, stack[0].prefix);
    PlanAppend(level, rest);
    NoLinksAppend(level, rest);
    NoLinksTop(stack);
  }

  lemma NoLinksAppend(a: seq<Pending>, b: seq<Pending>)
    ensures StackNoLinks(a + b) <==> StackNoLinks(a) && StackNoLinks(b)
  {
    if StackNoLinks(a + b) {
      assert forall i :: 0 <= i < |a| ==> (a + b)[i] == a[i];
      assert forall i :: 0 <= i < |b| ==> (a + b)[|a| + i] == b[i];
    }
  }

  lemma NoLinksTop(stack: seq<Pending>)
    requires stack != []
    ensures StackNoLinks(stack) <==> NodeNoLinks(stack[0].node) && StackNoLinks(stack[1..])
  {
  }

  lemma CopyStarts(p: Pending, s: Start, hash: Hash)
    requires PendingOk(p)
    ensures Progress(Copy([p], [], s.count, s.total, s.staged), [], ListNode(p.node, p.at), s, hash)
    ensures StackNoLinks([p]) <==> NodeNoLinks(p.node)
  {
  }

  /**
   copy_private_tree. It goes through exactly when the tree has no links, every file can be
   created and the limits hold; it then visits each node of the tree's list once, in order,
   and gives the artifacts sorted by path.
   */
  method CopyPrivateTree(source: Node, at: Location, prefix: Bytes, s: Start, hash: Hash) returns (r: Option<Copy>)
    requires SmallLimits(s.limits) && PendingOk(Pending(source, at, prefix))
    ensures r.Some? <==> NodeNoLinks(source) && Copyable(ListNode(source, at), s, hash)
    ensures r.Some? ==> && r.value.artifacts == SortByPath(ArtifactsOf(ListNode(source, at), hash))
                        && r.value.count == s.count + |ArtifactsOf(ListNode(source, at), hash)|
                        && r.value.total == s.total + Sum(ArtifactsOf(ListNode(source, at), hash))
                        && PutAll(s.staged, ListNode(source, at)) == Some(r.value.staged)
  {
    var c := Copy([Pending(source, at, prefix)], [], s.count, s.total, s.staged);
    ghost var placed: seq<Placement>, whole := [], ListNode(source, at);
    CopyStarts(Pending(source, at, prefix), s, hash);
    while c.stack != []
      invariant Progress(c, placed, whole, s, hash)
      invariant StackNoLinks(c.stack) <==> NodeNoLinks(source)
      decreases StackSize(c.stack)
    {
      var top := c.stack[0];
      NoLinksTop(c.stack);
      if top.node.Link? || top.node.Special? { return None; }
      if top.node.Dir? {
        Descend(c.stack);
        r := CopyDirectory(c, s, hash, placed, whole);
      } else {
        r := CopyFile(c, s, hash, placed, whole);
      }
      if r.None? { return; }
      placed := placed + [Placement(top.at, if top.node.Dir? then DirItem else FileItem(top.node.bytes))];
      c := r.value;
    }
    assert placed == whole;
    r := Some(c.(artifacts := SortByPath(c.artifacts)));
  }
}
