/**
 Directory swaps on service-owned roots: a staged directory is installed over a target
 whose previous contents move aside, and a list of swaps is undone in reverse order.

 A file system is a map from root paths to nodes. Each file-system call consults a fault
 script, so a statement about all scripts covers every way the calls can fail. The calls that
 create a staged directory have a script of their own, because their failure is handled apart.
 */
module RootSwap {
  import opened Prelude

  type Path = string

  /** A directory's files by relative path. */
  type Tree = map<string, Bytes>

  datatype Node = Dir(tree: Tree) | Link | Other

  type Nodes = map<Path, Node>

  datatype Swap = Swap(target: Path, aside: Option<Path>)

  function Get(n: Nodes, p: Path): Option<Node> { if p in n then Some(n[p]) else None }

  function Moved(n: Nodes, from: Path, to: Path): Nodes
    requires from in n
  {
    (n - {from})[to := n[from]]
  }

  /** The file system after one installed swap. */
  function Installed(n: Nodes, source: Path, target: Path, aside: Path): Nodes
    requires source in n && source != target
  {
    if target in n && aside != source then Moved(Moved(n, target, aside), source, target) else Moved(n, source, target)
  }

  /** Without faults, this swap goes through. */
  predicate Installable(n: Nodes, source: Path, target: Path, aside: Path) {
    && source in n && n[source].Dir? && source != target && aside !in n
    && (target in n ==> n[target].Dir?)
  }

  function Undo(n: Nodes, swaps: seq<Swap>): Nodes
    decreases |swaps|
  {
    if swaps == [] then n else Undo(UndoOne(n, swaps[|swaps| - 1]), swaps[..|swaps| - 1])
  }

  function UndoOne(n: Nodes, s: Swap): Nodes {
    var cleared := n - {s.target};
    if s.aside.Some? && s.aside.value in cleared then Moved(cleared, s.aside.value, s.target) else cleared
  }

  /** Without faults, undoing these swaps goes through. */
  predicate Undoable(n: Nodes, swaps: seq<Swap>)
    decreases |swaps|
  {
    swaps == []
    || (var s := swaps[|swaps| - 1];
        && UndoableOne(n, s)
        && Undoable(UndoOne(n, s), swaps[..|swaps| - 1]))
  }

  predicate UndoableOne(n: Nodes, s: Swap) {
    && (s.target in n ==> n[s.target].Dir?)
    && (s.aside.Some? ==> s.aside.value != s.target && s.aside.value in n && n[s.aside.value].Dir?)
  }

  /** The two file systems hold the same nodes outside some paths. */
  ghost predicate AgreeOff(a: Nodes, b: Nodes, except: set<Path>) {
    forall p :: p !in except ==> Get(a, p) == Get(b, p)
  }

  function Targets(swaps: seq<Swap>): set<Path> { set i | 0 <= i < |swaps| :: swaps[i].target }

  /** Live roots and the places they move to are outside the staging area, and no root is a rollback place. */
  predicate Apart(swaps: seq<Swap>, staged: set<Path>) {
    forall i, j :: 0 <= i < |swaps| && 0 <= j < |swaps| ==>
                     && swaps[i].target !in staged
                     && (swaps[j].aside.Some? ==> swaps[j].aside.value !in staged && swaps[j].aside.value != swaps[i].target)
  }

  lemma UndoOneInstalled(n: Nodes, source: Path, target: Path, aside: Path)
    requires source in n && source != target && source != aside && target != aside && aside !in n
    ensures UndoOne(Installed(n, source, target, aside), Swap(target, if target in n then Some(aside) else None)) == n - {source}
  {
  }

  lemma UndoOneLocal(a: Nodes, b: Nodes, s: Swap, except: set<Path>)
    requires AgreeOff(a, b, except + {s.target})
    requires s.aside.Some? ==> s.aside.value !in except && s.aside.value != s.target
    ensures AgreeOff(UndoOne(a, s), UndoOne(b, s), except)
  {
    if s.aside.Some? {
      assert Get(a, s.aside.value) == Get(b, s.aside.value);
    }
    forall p | p !in except
      ensures Get(UndoOne(a, s), p) == Get(UndoOne(b, s), p)
    {
      assert p != s.target ==> Get(a, p) == Get(b, p);
    }
  }

  /** Undoing does not look at the staging area or at what happened inside the installed roots. */
  lemma {:induction false} UndoLocal(a: Nodes, b: Nodes, swaps: seq<Swap>, staged: set<Path>)
    requires Apart(swaps, staged)
    requires AgreeOff(a, b, staged + Targets(swaps))
    ensures AgreeOff(Undo(a, swaps), Undo(b, swaps), staged)
    decreases |swaps|
  {
    if swaps != [] {
      var s, rest := swaps[|swaps| - 1], swaps[..|swaps| - 1];
      TargetsLast(swaps);
      assert forall i :: 0 <= i < |rest| ==> rest[i] == swaps[i];
      var except := staged + Targets(rest);
      assert except + {s.target} == staged + Targets(swaps);
      UndoOneLocal(a, b, s, except);
      UndoLocal(UndoOne(a, s), UndoOne(b, s), rest, staged);
    }
  }

  lemma TargetsLast(swaps: seq<Swap>)
    requires swaps != []
    ensures Targets(swaps) == Targets(swaps[..|swaps| - 1]) + {swaps[|swaps| - 1].target}
  {
  }

  class FileSystem {
    var nodes: Nodes
    var clock: nat
    var creates: nat
    const faults: nat -> bool
    const refused: nat -> bool

    constructor (nodes: Nodes, faults: nat -> bool, refused: nat -> bool)
      ensures this.nodes == nodes && this.faults == faults && this.refused == refused && clock == 0 && creates == 0
    {
      this.nodes, this.faults, this.refused, clock, creates := nodes, faults, refused, 0, 0;
    }

    /** Some call numbered from `lo` up to `hi` failed. */
    ghost predicate FaultIn(lo: nat, hi: nat) { exists c: nat :: lo <= c < hi && faults(c) }

    method Faulty() returns (fault: bool)
      modifies this`clock
      ensures clock == old(clock) + 1 && fault == faults(old(clock))
      ensures fault ==> FaultIn(old(clock), clock)
    {
      fault := faults(clock);
      clock := clock + 1;
    }

    method Stat(p: Path) returns (r: Result<Option<Node>, ()>)
      modifies this`clock
      ensures clock > old(clock)
      ensures r.Ok? ==> r.value == Get(nodes, p)
      ensures r.Err? ==> FaultIn(old(clock), clock)
    {
      var fault := Faulty();
      r := if fault then Err(()) else Ok(Get(nodes, p));
    }

    /** Moves a root to a place where there is nothing. */
    method Rename(from: Path, to: Path) returns (ok: bool)
      modifies this`nodes, this`clock
      ensures clock > old(clock)
      ensures ok ==> from in old(nodes) && to !in old(nodes) && nodes == Moved(old(nodes), from, to)
      ensures !ok ==> nodes == old(nodes)
      ensures !ok ==> from !in nodes || to in nodes || FaultIn(old(clock), clock)
    {
      var fault := Faulty();
      ok := !fault && from in nodes && to !in nodes;
      if ok { nodes := Moved(nodes, from, to); }
    }

    /** Deletes a directory; a failure may leave part of it. */
    method RemoveDirAll(p: Path) returns (ok: bool)
      modifies this`nodes, this`clock
      ensures clock > old(clock)
      ensures ok ==> nodes == old(nodes) - {p}
      ensures !ok ==> AgreeOff(nodes, old(nodes), {p}) && FaultIn(old(clock), clock)
    {
      var fault := Faulty();
      ok := !fault;
      nodes := if ok then nodes - {p} else nodes[p := Dir(map[])];
    }

    /** Creates a staged directory; the operating system may refuse, or something else may be there. */
    method CreateDirAll(p: Path) returns (ok: bool)
      modifies this`nodes, this`creates
      ensures creates == old(creates) + 1
      ensures nodes == if ok && p !in old(nodes) then old(nodes)[p := Dir(map[])] else old(nodes)
      ensures ok <==> !refused(old(creates)) && Get(old(nodes), p) != Some(Other)
    {
      ok := !refused(creates) && (p in nodes ==> !nodes[p].Other?);
      creates := creates + 1;
      if ok && p !in nodes { nodes := nodes[p := Dir(map[])]; }
    }

    /**
     install_staged_directory. A failure has a cause: the root could not be installed, or a
     call before `since` failed. What was moved is then moved back, and `undone` is false only
     if that very call, from `since` on, failed.
     */
    method Install(source: Path, target: Path, aside: Path) returns (r: Option<Swap>, undone: bool, ghost since: nat)
      modifies this`nodes, this`clock
      ensures old(clock) <= since <= clock && old(clock) < clock
      ensures r.Some? ==>
                && undone
                && source in old(nodes) && old(nodes)[source].Dir? && source != target
                && (target in old(nodes) ==> old(nodes)[target].Dir? && aside !in old(nodes))
                && r.value == Swap(target, if target in old(nodes) then Some(aside) else None)
                && nodes == Installed(old(nodes), source, target, aside)
      ensures r.Some? && aside in old(nodes) ==> FaultIn(old(clock), clock)
      ensures r.None? ==> !Installable(old(nodes), source, target, aside) || FaultIn(old(clock), since)
      ensures r.None? && undone ==> nodes == old(nodes)
      ensures !undone ==> FaultIn(since, clock)
    {
      undone := true;
      var s := Stat(source);
      since := clock;
      if s.Err? || s.value.None? || !s.value.value.Dir? { return None, true, clock; }
      var parent := Faulty();
      if parent { return None, true, clock; }
      var t := Stat(target);
      if t.Err? || (t.value.Some? && !t.value.value.Dir?) { return None, true, clock; }
      var a := Stat(aside);
      if a.Ok? && a.value.Some? { return None, true, clock; }
      if t.value.Some? {
        var moved := Rename(target, aside);
        if !moved { return None, true, clock; }
      }
      var installed := Rename(source, target);
      since := clock;
      if !installed {
        if t.value.Some? { undone := Rename(aside, target); }
        return None, undone, since;
      }
      r := Some(Swap(target, if t.value.Some? then Some(aside) else None));
    }

    /** rollback_directory_swaps: in reverse order, stopping at the first failure. */
    method Rollback(swaps: seq<Swap>) returns (ok: bool)
      modifies this`nodes, this`clock
      ensures clock >= old(clock)
      ensures ok ==> nodes == Undo(old(nodes), swaps)
      ensures !ok ==> !Undoable(old(nodes), swaps) || FaultIn(old(clock), clock)
    {
      var i := |swaps|;
      assert swaps[..i] == swaps;
      while i > 0
        invariant 0 <= i <= |swaps| && clock >= old(clock)
        invariant Undo(nodes, swaps[..i]) == Undo(old(nodes), swaps)
        invariant Undoable(old(nodes), swaps) ==> Undoable(nodes, swaps[..i])
      {
        i := i - 1;
        assert swaps[..i + 1][..i] == swaps[..i];
        ok := RollbackOne(swaps[i]);
        if !ok { return; }
      }
      ok := true;
    }

    method RollbackOne(s: Swap) returns (ok: bool)
      modifies this`nodes, this`clock
      ensures clock > old(clock)
      ensures ok ==> nodes == UndoOne(old(nodes), s)
      ensures !ok ==> !UndoableOne(old(nodes), s) || FaultIn(old(clock), clock)
    {
      var t := Stat(s.target);
      if t.Err? || (t.value.Some? && !t.value.value.Dir?) { return false; }
      if t.value.Some? {
        var removed := RemoveDirAll(s.target);
        if !removed { return false; }
      }
      assert nodes == old(nodes) - {s.target};
      if s.aside.Some? {
        var a := Stat(s.aside.value);
        if a.Ok? && a.value == Some(Link) { return false; }
        ok := Rename(s.aside.value, s.target);
        return;
      }
      ok := true;
    }

    /** cleanup_directory_swaps: removes the rollback directories, stopping at the first failure. */
    method Cleanup(swaps: seq<Swap>) returns (ok: bool)
      modifies this`nodes, this`clock
      ensures clock >= old(clock)
      ensures AgreeOff(nodes, old(nodes), Asides(swaps))
      ensures ok ==> forall p :: p in Asides(swaps) ==> p !in nodes
      ensures !ok ==> (exists p :: p in Asides(swaps) && p in old(nodes) && !old(nodes)[p].Dir?) || FaultIn(old(clock), clock)
    {
      var i := 0;
      while i < |swaps|
        invariant 0 <= i <= |swaps| && clock >= old(clock)
        invariant AgreeOff(nodes, old(nodes), Asides(swaps))
        invariant forall p :: p in nodes ==> p in old(nodes) && nodes[p] == old(nodes)[p]
        invariant forall j :: 0 <= j < i && swaps[j].aside.Some? ==> swaps[j].aside.value !in nodes
      {
        if swaps[i].aside.Some? {
          var p := swaps[i].aside.value;
          assert p in Asides(swaps);
          var a := Stat(p);
          if a.Err? || (a.value.Some? && !a.value.value.Dir?) { return false; }
          if a.value.Some? {
            var removed := RemoveDirAll(p);
            if !removed { return false; }
          }
        }
        i := i + 1;
      }
      ok := true;
    }
  }

  function Asides(swaps: seq<Swap>): set<Path> {
    set i | 0 <= i < |swaps| && swaps[i].aside.Some? :: swaps[i].aside.value
  }
}
