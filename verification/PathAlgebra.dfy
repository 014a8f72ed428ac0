/** Join and parent of parsed paths: operations on flat texts that are operations on segment lists. */
module PathAlgebra {
  import opened Prelude
  import opened PathText
  import opened VaultPaths

  // ----- What is assumed of the Unicode tables -----

  predicate RunAt(x: Bytes, i: nat, w: Bytes) {
    i + |w| <= |x| && forall k :: 0 <= k < |w| ==> x[i + k] == w[k]
  }

  ghost predicate Occurs(w: Bytes, x: Bytes) { exists i: nat :: RunAt(x, i, w) }

  predicate EscapeByte(b: Byte) { b == PERCENT || HexValue(b).Some? }

  /** Byte runs that normalization must not create: separators, controls, and runs that could be an escape. */
  predicate Protected(w: Bytes) {
    || (|w| == 1 && (w[0] == SLASH || w[0] == BACKSLASH || w[0] < 0x20 || w[0] == 0x7f))
    || (|w| == 2 && w[0] == 0xc2 && 0x80 <= w[1] <= 0x9f)
    || ((|w| == 3 || |w| == 5) && forall i :: 0 <= i < |w| ==> EscapeByte(w[i]))
  }

  /**
   Normalization is idempotent, treats the two sides of a slash separately, keeps
   nothing-ness, and creates no protected run.
   */
  ghost predicate NfcLaws(nfc: Bytes -> Bytes) {
    && (forall x :: nfc(nfc(x)) == nfc(x))
    && (forall x, y :: nfc(Sep(x, y)) == Sep(nfc(x), nfc(y)))
    && (forall x :: nfc(x) == [] <==> x == [])
    && (forall x, w :: Protected(w) && Occurs(w, nfc(x)) ==> Occurs(w, x))
  }

  /** Lowercasing also treats the two sides of a slash separately and creates no slash. */
  ghost predicate LowerLaws(lower: Bytes -> Bytes) {
    && (forall x, y :: lower(Sep(x, y)) == Sep(lower(x), lower(y)))
    && (forall x :: lower(x) == [] <==> x == [])
    && (forall x :: NoSlash(x) ==> NoSlash(lower(x)))
  }

  lemma ByteComesFrom(nfc: Bytes -> Bytes, x: Bytes, b: Byte)
    requires NfcLaws(nfc) && Protected([b]) && b in nfc(x)
    ensures b in x
  {
    var n := nfc(x);
    var i :| 0 <= i < |n| && n[i] == b;
    assert RunAt(n, i, [b]);
    var j: nat :| RunAt(x, j, [b]);
    assert x[j + 0] == b;
  }

  lemma NoNewSlash(nfc: Bytes -> Bytes, x: Bytes)
    requires NfcLaws(nfc) && NoSlash(x)
    ensures NoSlash(nfc(x))
  {
    if SLASH in nfc(x) { ByteComesFrom(nfc, x, SLASH); }
  }

  /** The refused run refuses wherever it stands. */
  lemma RefusalMoves(n: Bytes, i: nat, x: Bytes, j: nat, k: nat)
    requires RefusedAt(n, i) && k == (if Unsafe(HexPair(n[i + 1], n[i + 2]).value) then 3 else 5)
    requires RunAt(x, j, n[i..i + k])
    ensures RefusedAt(x, j)
  {
    var w := n[i..i + k];
    assert x[j + 0] == w[0] && x[j + 1] == w[1] && x[j + 2] == w[2];
    if k == 5 { assert x[j + 3] == w[3] && x[j + 4] == w[4]; }
  }

  /** Normalization creates no escape that the scanner refuses. */
  lemma NoNewRefusal(nfc: Bytes -> Bytes, x: Bytes)
    requires NfcLaws(nfc) && SafeEscapes(x)
    ensures SafeEscapes(nfc(x))
  {
    var n := nfc(x);
    forall i: nat ensures !RefusedAt(n, i) {
      if RefusedAt(n, i) {
        var k := if Unsafe(HexPair(n[i + 1], n[i + 2]).value) then 3 else 5;
        var w := n[i..i + k];
        assert RunAt(n, i, w) && Protected(w);
        var j: nat :| RunAt(x, j, w);
        RefusalMoves(n, i, x, j, k);
      }
    }
  }

  lemma NoNewControl(nfc: Bytes -> Bytes, x: Bytes)
    requires NfcLaws(nfc) && !HasControl(x)
    ensures !HasControl(nfc(x))
  {
    var n := nfc(x);
    if HasControl(n) {
      var i: nat :| i < |n| && ControlAt(n, i);
      var k := if n[i] == 0xc2 then 2 else 1;
      var w := n[i..i + k];
      assert RunAt(n, i, w) && Protected(w);
      var j: nat :| RunAt(x, j, w);
      assert x[j + 0] == w[0] && (k == 2 ==> x[j + 1] == w[1]);
      assert ControlAt(x, j);
    }
  }

  /** A clean input normalizes to a clean text. */
  lemma NormalizedIsClean(nfc: Bytes -> Bytes, x: Bytes)
    requires NfcLaws(nfc) && Clean(x)
    ensures Clean(nfc(x))
  {
    NoNewRefusal(nfc, x);
    NoNewControl(nfc, x);
    if BACKSLASH in nfc(x) { ByteComesFrom(nfc, x, BACKSLASH); }
    if 0 in nfc(x) { ByteComesFrom(nfc, x, 0); }
    if nfc(x) != [] && nfc(x)[0] == SLASH {
      StaysRelative(nfc, x);
    }
  }

  lemma StaysRelative(nfc: Bytes -> Bytes, x: Bytes)
    requires NfcLaws(nfc) && x != [] && x[0] != SLASH
    ensures nfc(x) != [] && nfc(x)[0] != SLASH
  {
    if NoSlash(x) {
      NoNewSlash(nfc, x);
    } else {
      var i := FirstSlash(x);
      var a, b := x[..i], x[i + 1..];
      assert x == Sep(a, b);
      NoNewSlash(nfc, a);
      assert nfc(x) == Sep(nfc(a), nfc(b)) && nfc(a) != [];
      assert nfc(x)[0] == nfc(a)[0];
    }
  }

  lemma {:induction false} FirstSlash(x: Bytes) returns (i: nat)
    requires SLASH in x
    ensures i < |x| && x[i] == SLASH && NoSlash(x[..i])
    decreases |x|
  {
    if x[0] == SLASH {
      i := 0;
    } else {
      i := FirstSlash(x[1..]);
      i := i + 1;
      assert x[..i] == [x[0]] + x[1..][..i - 1];
    }
  }

  /** `parse` is idempotent: every path it returns satisfies the path invariant. */
  lemma ParseIsIdempotent(nfc: Bytes -> Bytes, input: Bytes)
    requires NfcLaws(nfc) && Parse(nfc, input).Ok?
    ensures Parsed(nfc, Parse(nfc, input).value)
  {
    if input != [] {
      ParseAccepts(nfc, input);
      NormalizedIsClean(nfc, input);
    }
  }

  // ----- Join -----

  /** VaultPath::join: glue the texts and parse again. */
  ghost function Join(nfc: Bytes -> Bytes, a: VaultPath, b: VaultPath): Result<VaultPath, PathError> {
    if a.IsRoot() then Ok(b)
    else if b.IsRoot() then Ok(a)
    else Parse(nfc, Sep(a.text, b.text))
  }

  /** No escape reaches across the new slash, so the scanner accepts the glued text. */
  lemma RefusalIsLocal(a: Bytes, b: Bytes, i: nat)
    requires RefusedAt(Sep(a, b), i)
    ensures RefusedAt(a, i) || (i > |a| && RefusedAt(b, i - |a| - 1))
  {
  }

  lemma GluedIsClean(a: Bytes, b: Bytes)
    requires Clean(a) && Clean(b) && a != []
    ensures Clean(Sep(a, b))
  {
    var s := Sep(a, b);
    forall i: nat ensures !RefusedAt(s, i) {
      if RefusedAt(s, i) { RefusalIsLocal(a, b, i); }
    }
    forall i: nat | i < |s| ensures !ControlAt(s, i) {
      if i < |a| { assert !ControlAt(a, i); }
      if i > |a| { assert !ControlAt(b, i - |a| - 1); }
    }
  }

  /** Joining parsed non-root paths succeeds exactly when the result is short and shallow enough; it then concatenates the segments. */
  lemma JoinConcatenates(nfc: Bytes -> Bytes, a: VaultPath, b: VaultPath)
    requires NfcLaws(nfc) && Parsed(nfc, a) && Parsed(nfc, b) && !a.IsRoot() && !b.IsRoot()
    ensures Join(nfc, a, b).Ok? <==>
            |a.text| + 1 + |b.text| <= MAX_PATH_BYTES && a.Depth() + b.Depth() <= MAX_SEGMENTS
    ensures Join(nfc, a, b).Ok? ==>
              var p := Join(nfc, a, b).value;
              p.text == Sep(a.text, b.text) && p.Segments() == a.Segments() + b.Segments() && Parsed(nfc, p)
  {
    var s := Sep(a.text, b.text);
    GluedIsClean(a.text, b.text);
    SplitSep(a.text, b.text);
    ParseAccepts(nfc, s);
    assert nfc(s) == s;
    assert forall i :: 0 <= i < |Split(s)| ==> SegmentOk(Split(s)[i]);
    if Join(nfc, a, b).Ok? { ParseIsIdempotent(nfc, s); }
  }

  /** The root is neutral; otherwise as above. Segments always concatenate. */
  lemma JoinSegments(nfc: Bytes -> Bytes, a: VaultPath, b: VaultPath)
    requires NfcLaws(nfc) && Parsed(nfc, a) && Parsed(nfc, b) && Join(nfc, a, b).Ok?
    ensures Parsed(nfc, Join(nfc, a, b).value)
    ensures Join(nfc, a, b).value.Segments() == a.Segments() + b.Segments()
  {
    if !a.IsRoot() && !b.IsRoot() { JoinConcatenates(nfc, a, b); }
  }

  /** A path is determined by its segments. */
  lemma SegmentsDetermine(p: VaultPath, q: VaultPath)
    ensures p.Segments() == q.Segments() ==> p == q
  {
    UnsplitSplit(p.text);
    UnsplitSplit(q.text);
  }

  ghost function JoinLeft(nfc: Bytes -> Bytes, a: VaultPath, b: VaultPath, c: VaultPath): Result<VaultPath, PathError> {
    var ab := Join(nfc, a, b);
    if ab.Err? then ab else Join(nfc, ab.value, c)
  }

  ghost function JoinRight(nfc: Bytes -> Bytes, a: VaultPath, b: VaultPath, c: VaultPath): Result<VaultPath, PathError> {
    var bc := Join(nfc, b, c);
    if bc.Err? then bc else Join(nfc, a, bc.value)
  }

  /** Join is associative: the two ways succeed together and give the same path. */
  lemma JoinIsAssociative(nfc: Bytes -> Bytes, a: VaultPath, b: VaultPath, c: VaultPath)
    requires NfcLaws(nfc) && Parsed(nfc, a) && Parsed(nfc, b) && Parsed(nfc, c)
    ensures JoinLeft(nfc, a, b, c).Ok? <==> JoinRight(nfc, a, b, c).Ok?
    ensures JoinLeft(nfc, a, b, c).Ok? ==> JoinLeft(nfc, a, b, c) == JoinRight(nfc, a, b, c)
  {
    if !a.IsRoot() && !b.IsRoot() && !c.IsRoot() {
      JoinLeftConcatenates(nfc, a, b, c);
      JoinRightConcatenates(nfc, a, b, c);
    }
  }

  lemma SepAssociates(a: Bytes, b: Bytes, c: Bytes)
    ensures Sep(Sep(a, b), c) == Sep(a, Sep(b, c))
  {
  }

  function Total(a: VaultPath, b: VaultPath, c: VaultPath): nat { |a.text| + 1 + |b.text| + 1 + |c.text| }

  lemma JoinLeftConcatenates(nfc: Bytes -> Bytes, a: VaultPath, b: VaultPath, c: VaultPath)
    requires NfcLaws(nfc) && Parsed(nfc, a) && Parsed(nfc, b) && Parsed(nfc, c)
    requires !a.IsRoot() && !b.IsRoot() && !c.IsRoot()
    ensures JoinLeft(nfc, a, b, c).Ok? <==>
            Total(a, b, c) <= MAX_PATH_BYTES && a.Depth() + b.Depth() + c.Depth() <= MAX_SEGMENTS
    ensures JoinLeft(nfc, a, b, c).Ok? ==> JoinLeft(nfc, a, b, c).value.text == Sep(a.text, Sep(b.text, c.text))
  {
    var ab := Join(nfc, a, b);
    JoinConcatenates(nfc, a, b);
    if ab.Ok? {
      JoinConcatenates(nfc, ab.value, c);
      SepAssociates(a.text, b.text, c.text);
    }
  }

  lemma JoinRightConcatenates(nfc: Bytes -> Bytes, a: VaultPath, b: VaultPath, c: VaultPath)
    requires NfcLaws(nfc) && Parsed(nfc, a) && Parsed(nfc, b) && Parsed(nfc, c)
    requires !a.IsRoot() && !b.IsRoot() && !c.IsRoot()
    ensures JoinRight(nfc, a, b, c).Ok? <==>
            Total(a, b, c) <= MAX_PATH_BYTES && a.Depth() + b.Depth() + c.Depth() <= MAX_SEGMENTS
    ensures JoinRight(nfc, a, b, c).Ok? ==> JoinRight(nfc, a, b, c).value.text == Sep(a.text, Sep(b.text, c.text))
  {
    var bc := Join(nfc, b, c);
    JoinConcatenates(nfc, b, c);
    if bc.Ok? {
      JoinConcatenates(nfc, a, bc.value);
    }
  }

  // ----- Parent -----

  /** `rsplit_once('/')`, left part. */
  function Front(s: Bytes): Option<Bytes>
    decreases |s|
  {
    if s == [] then None
    else if s[|s| - 1] == SLASH then Some(s[..|s| - 1])
    else Front(s[..|s| - 1])
  }

  function Parent(p: VaultPath): Option<VaultPath> {
    if p.IsRoot() then None
    else match Front(p.text)
      case Some(f) => Some(VaultPath(f))
      case None => Some(Root)
  }

  lemma {:induction false} FrontOfSep(front: Bytes, last: Bytes)
    requires NoSlash(last)
    ensures Front(Sep(front, last)) == Some(front)
    decreases |last|
  {
    var s := Sep(front, last);
    if last == [] {
      assert s[..|s| - 1] == front;
    } else {
      assert s[|s| - 1] == last[|last| - 1];
      assert s[..|s| - 1] == Sep(front, last[..|last| - 1]);
      FrontOfSep(front, last[..|last| - 1]);
    }
  }

  lemma {:induction false} FrontOfPlain(s: Bytes)
    requires NoSlash(s)
    ensures Front(s).None?
    decreases |s|
  {
    if s != [] { FrontOfPlain(s[..|s| - 1]); }
  }

  /** The parent drops the last segment, and although it is not parsed again it still is a parsed path. */
  lemma ParentDropsLast(nfc: Bytes -> Bytes, p: VaultPath)
    requires NfcLaws(nfc) && Parsed(nfc, p) && !p.IsRoot()
    ensures Parent(p).Some? && Parsed(nfc, Parent(p).value)
    ensures Parent(p).value.Segments() == p.Segments()[..p.Depth() - 1]
  {
    if |Split(p.text)| == 1 {
      SplitPieces(p.text);
      UnsplitSplit(p.text);
      assert p.text == Split(p.text)[0];
      FrontOfPlain(p.text);
    } else {
      var front, last := SplitLast(p.text);
      FrontOfSep(front, last);
      FrontIsParsed(nfc, p, front, last);
    }
  }

  lemma FrontIsParsed(nfc: Bytes -> Bytes, p: VaultPath, front: Bytes, last: Bytes)
    requires NfcLaws(nfc) && Parsed(nfc, p) && p.text == Sep(front, last) && NoSlash(last)
    ensures front != [] && Parsed(nfc, VaultPath(front))
  {
    SplitSep(front, last);
    SplitPlain(last);
    assert p.text[0] != SLASH;
    assert p.text[|front|] == SLASH;
    assert Split(p.text)[0] == Split(front)[0];
    FrontIsClean(front, last);
    FrontIsNormal(nfc, front, last);
    forall i | 0 <= i < |Split(front)| ensures SegmentOk(Split(front)[i]) { assert Split(p.text)[i] == Split(front)[i]; }
  }

  lemma FrontIsClean(front: Bytes, last: Bytes)
    requires Clean(Sep(front, last)) && front != []
    ensures Clean(front)
  {
    var s := Sep(front, last);
    assert s[0] == front[0];
    forall i: nat ensures !RefusedAt(front, i) {
      if RefusedAt(front, i) {
        assert s[i + 1] == front[i + 1] && s[i + 2] == front[i + 2];
        if i + 4 < |front| { assert s[i + 3] == front[i + 3] && s[i + 4] == front[i + 4]; }
        assert RefusedAt(s, i);
      }
    }
    forall i: nat | i < |front| ensures !ControlAt(front, i) {
      assert !ControlAt(s, i) && s[i] == front[i] && (i + 1 < |front| ==> s[i + 1] == front[i + 1]);
    }
  }

  /** The last slash of a normalized text stays where it is. */
  lemma FrontIsNormal(nfc: Bytes -> Bytes, front: Bytes, last: Bytes)
    requires NfcLaws(nfc) && NoSlash(last) && nfc(Sep(front, last)) == Sep(front, last)
    ensures nfc(front) == front
  {
    NoNewSlash(nfc, last);
    FrontOfSep(front, last);
    FrontOfSep(nfc(front), nfc(last));
  }

  /** `n` times the parent; the root has none. */
  function Ancestor(p: VaultPath, n: nat): Option<VaultPath>
    decreases n
  {
    if n == 0 then Some(p)
    else match Parent(p)
      case None => None
      case Some(q) => Ancestor(q, n - 1)
  }

  lemma {:induction false} AncestorDrops(nfc: Bytes -> Bytes, p: VaultPath, n: nat)
    requires NfcLaws(nfc) && Parsed(nfc, p)
    ensures Ancestor(p, n).Some? <==> n <= p.Depth()
    ensures n <= p.Depth() ==> Parsed(nfc, Ancestor(p, n).value)
                               && Ancestor(p, n).value.Segments() == p.Segments()[..p.Depth() - n]
    decreases n
  {
    if n > 0 && !p.IsRoot() {
      ParentDropsLast(nfc, p);
      var q, d := Parent(p).value, p.Depth();
      assert q.Depth() == d - 1;
      AncestorDrops(nfc, q, n - 1);
      assert n <= d ==> p.Segments()[..d - 1][..d - n] == p.Segments()[..d - n];
    }
  }

  /** Join is undone by as many parent steps as the child is deep. */
  lemma ParentsUndoJoin(nfc: Bytes -> Bytes, a: VaultPath, b: VaultPath)
    requires NfcLaws(nfc) && Parsed(nfc, a) && Parsed(nfc, b) && Join(nfc, a, b).Ok?
    ensures Ancestor(Join(nfc, a, b).value, b.Depth()) == Some(a)
  {
    var p := Join(nfc, a, b).value;
    JoinSegments(nfc, a, b);
    AncestorDrops(nfc, p, b.Depth());
    assert p.Segments()[..p.Depth() - b.Depth()] == a.Segments();
    SegmentsDetermine(Ancestor(p, b.Depth()).value, a);
  }
}
