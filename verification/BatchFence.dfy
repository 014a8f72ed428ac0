/** The fence around one batch of at most eighty evidence blocks. */
module BatchFence {
  import opened Prelude

  const U64: nat := 0x1_0000_0000_0000_0000
  const BATCH := 80

  /** What `input` holds: each block's evidence index, the batch index and the batch count; a missing or non-u64 value is None. */
  datatype BatchInput = BatchInput(blocks: seq<Option<nat>>, batchIndex: Option<nat>, batchCount: Option<nat>) {
    /** JSON numbers that `as_u64` accepts. */
    predicate Representable() {
      && (forall i :: 0 <= i < |blocks| && blocks[i].Some? ==> blocks[i].value < U64)
      && (batchIndex.Some? ==> batchIndex.value < U64)
      && (batchCount.Some? ==> batchCount.value < U64)
    }
  }

  datatype FenceError = CatalogInvalid | FenceInvalid

  // ----- A BTreeSet of indices: the ascending sequence of its elements -----

  predicate Ascending(s: seq<nat>) { forall i, j :: 0 <= i < j < |s| ==> s[i] < s[j] }

  /** BTreeSet::insert: false when the element was there. */
  method Insert(s: seq<nat>, x: nat) returns (r: seq<nat>, isNew: bool)
    requires Ascending(s)
    ensures Ascending(r)
    ensures isNew <==> x !in s
    ensures isNew ==> |r| == |s| + 1 && forall y :: y in r <==> y == x || y in s
    ensures !isNew ==> r == s
  {
    var k := 0;
    while k < |s| && s[k] < x
      invariant 0 <= k <= |s|
      invariant forall i :: 0 <= i < k ==> s[i] < x
    {
      k := k + 1;
    }
    isNew := k == |s| || s[k] != x;
    if isNew {
      r := s[..k] + [x] + s[k..];
      Inserted(s, k, x);
    } else {
      r := s;
    }
  }

  lemma Inserted(s: seq<nat>, k: nat, x: nat)
    requires k <= |s|
    ensures forall y :: y in s[..k] + [x] + s[k..] <==> y == x || y in s
  {
  }

  // ----- The resolver's checks -----

  /** The blocks carry distinct positive indices, and there are between one and eighty of them. */
  ghost predicate CatalogOk(blocks: seq<Option<nat>>) {
    && 1 <= |blocks| <= 80
    && (forall i :: 0 <= i < |blocks| ==> blocks[i].Some? && blocks[i].value > 0)
    && (forall i, j :: 0 <= i < j < |blocks| ==> blocks[i] != blocks[j])
  }

  /** resolve_a80_observation_schema, as far as its fence: the ascending indices put into the schema, or the error. */
  method ResolveFence(input: BatchInput) returns (r: Result<seq<nat>, FenceError>)
    requires input.Representable()
    ensures r.Err? && r.error.CatalogInvalid? <==> !CatalogOk(input.blocks)
    ensures r.Ok? <==> CatalogOk(input.blocks) && Fenced(input)
    ensures r.Ok? ==> Ascending(r.value) && forall x :: x in r.value <==> Some(x) in input.blocks
  {
    var blocks := input.blocks;
    if |blocks| == 0 || |blocks| > BATCH { return Err(CatalogInvalid); }
    var indexes: seq<nat> := [];
    var i := 0;
    while i < |blocks|
      invariant 0 <= i <= |blocks|
      invariant Ascending(indexes) && |indexes| == i
      invariant forall j :: 0 <= j < i ==> blocks[j].Some? && blocks[j].value > 0
      invariant forall j, k :: 0 <= j < k < i ==> blocks[j] != blocks[k]
      invariant forall x :: x in indexes <==> Some(x) in blocks[..i]
    {
      if blocks[i].None? || blocks[i].value == 0 { return Err(CatalogInvalid); }
      var next, isNew := Insert(indexes, blocks[i].value);
      if !isNew {
        assert blocks[i] in blocks[..i];
        return Err(CatalogInvalid);
      }
      assert blocks[..i + 1] == blocks[..i] + [blocks[i]];
      indexes := next;
      i := i + 1;
    }
    assert blocks[..i] == blocks;
    var ok := CheckFence(input, indexes);
    r := if ok then Ok(indexes) else Err(FenceInvalid);
  }

  /** The batch is in range, does not overflow, and its indices are 80k+1, 80k+2, ... without a gap. */
  ghost predicate Fenced(input: BatchInput) {
    && input.batchIndex.Some? && input.batchCount.Some?
    && input.batchIndex.value < input.batchCount.value
    && (input.batchIndex.value + 1) * 80 < 0x1_0000_0000_0000_0000
    && forall x: nat :: Some(x) in input.blocks <==>
                        input.batchIndex.value * 80 < x <= input.batchIndex.value * 80 + |input.blocks|
  }

  lemma {:induction false} AscendingFromFirst(s: seq<nat>, first: nat)
    requires Ascending(s) && forall x: nat :: x in s <==> first <= x < first + |s|
    ensures forall i :: 0 <= i < |s| ==> s[i] == first + i
    decreases |s|
  {
    if s != [] {
      var n := |s| - 1;
      var last := s[n];
      assert first + n in s;
      var j :| 0 <= j < |s| && s[j] == first + n;
      assert last in s && last == first + n;
      var t := s[..n];
      forall x: nat ensures x in t <==> first <= x < first + n {
        if x in t { assert x in s && x < last; }
        if first <= x < first + n {
          assert x in s;
          var k :| 0 <= k < |s| && s[k] == x;
          assert t[k] == x;
        }
      }
      AscendingFromFirst(t, first);
    }
  }

  /** The tests on the ascending indices, with the checked u64 arithmetic. */
  method CheckFence(input: BatchInput, indexes: seq<nat>) returns (ok: bool)
    requires input.Representable() && Ascending(indexes) && |indexes| == |input.blocks| <= BATCH && indexes != []
    requires forall x :: x in indexes <==> Some(x) in input.blocks
    ensures ok <==> Fenced(input)
  {
    if input.batchIndex.None? || input.batchCount.None? || input.batchCount.value == 0 { return false; }
    var k, count := input.batchIndex.value, input.batchCount.value;
    var first := k * BATCH + 1;
    var end := (k + 1) * BATCH;
    if first >= U64 || end >= U64 || k >= count { return false; }
    if Fenced(input) {
      forall x: nat ensures x in indexes <==> first <= x < first + |indexes| { }
      AscendingFromFirst(indexes, first);
    }
    if indexes[0] != first || indexes[|indexes| - 1] > end { return false; }
    var i := 0;
    while i < |indexes|
      invariant 0 <= i <= |indexes|
      invariant forall j :: 0 <= j < i ==> indexes[j] == first + j
    {
      if indexes[i] != first + i { return false; }
      i := i + 1;
    }
    forall x: nat ensures x in indexes <==> k * BATCH < x <= k * BATCH + |indexes| {
      if k * BATCH < x <= k * BATCH + |indexes| { assert indexes[x - first] == x; }
    }
    ok := true;
  }

  // ----- What the fence is for -----

  ghost function Indices(input: BatchInput): iset<nat> { iset x: nat | Some(x) in input.blocks }

  /** Batches with different indices share no evidence. */
  lemma BatchesNeverOverlap(a: BatchInput, b: BatchInput)
    requires CatalogOk(a.blocks) && Fenced(a) && CatalogOk(b.blocks) && Fenced(b)
    requires a.batchIndex != b.batchIndex
    ensures Indices(a) !! Indices(b)
  {
  }

  /** Batches 0, 1, 2, ... that pass, all but the last one full. */
  ghost predicate Complete(batches: seq<BatchInput>) {
    && (forall k :: 0 <= k < |batches| ==>
                      CatalogOk(batches[k].blocks) && Fenced(batches[k]) && batches[k].batchIndex == Some(k))
    && (forall k :: 0 <= k < |batches| - 1 ==> |batches[k].blocks| == 80)
  }

  /** How many blocks they carry together. */
  function Blocks(batches: seq<BatchInput>): nat
    decreases |batches|
  {
    if batches == [] then 0 else Blocks(batches[..|batches| - 1]) + |batches[|batches| - 1].blocks|
  }

  lemma {:induction false} CompleteCount(batches: seq<BatchInput>)
    requires Complete(batches) && batches != []
    ensures Blocks(batches) == (|batches| - 1) * BATCH + |batches[|batches| - 1].blocks|
    decreases |batches|
  {
    var n := |batches| - 1;
    var front := batches[..n];
    if n > 0 {
      assert Complete(front);
      CompleteCount(front);
      assert front[n - 1] == batches[n - 1];
    }
  }

  lemma {:induction false} IndexKnowsItsBatch(batches: seq<BatchInput>, k: nat, x: nat)
    requires Complete(batches) && k < |batches| && Some(x) in batches[k].blocks
    ensures k == (x - 1) / 80 && 1 <= x <= Blocks(batches)
  {
    CompleteCount(batches);
    assert batches[k].batchIndex == Some(k) && Fenced(batches[k]);
    assert k * BATCH < x <= k * BATCH + |batches[k].blocks|;
    if k < |batches| - 1 { assert |batches[k].blocks| == BATCH; }
  }

  lemma {:induction false} BatchOfIndex(batches: seq<BatchInput>, x: nat) returns (k: nat)
    requires Complete(batches) && 1 <= x <= Blocks(batches)
    ensures k < |batches| && Some(x) in batches[k].blocks
  {
    CompleteCount(batches);
    k := (x - 1) / BATCH;
    assert batches[k].batchIndex == Some(k) && Fenced(batches[k]);
    if k < |batches| - 1 { assert |batches[k].blocks| == BATCH; }
  }

  /** A complete list of batches covers 1..N, each index in exactly one batch: the one at (x-1)/80. */
  lemma {:induction false} BatchesCoverEachIndexOnce(batches: seq<BatchInput>, x: nat)
    requires Complete(batches)
    ensures 1 <= x <= Blocks(batches) <==> exists k :: 0 <= k < |batches| && Some(x) in batches[k].blocks
    ensures forall k, j :: 0 <= k < |batches| && 0 <= j < |batches| ==>
                             Some(x) in batches[k].blocks && Some(x) in batches[j].blocks ==> k == j
  {
    forall k | 0 <= k < |batches| && Some(x) in batches[k].blocks
      ensures k == (x - 1) / 80 && 1 <= x <= Blocks(batches)
    {
      IndexKnowsItsBatch(batches, k, x);
    }
    if 1 <= x <= Blocks(batches) {
      var k := BatchOfIndex(batches, x);
    }
  }
}
