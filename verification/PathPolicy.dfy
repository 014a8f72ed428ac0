/** Prefix, the reserved namespace, collisions, and what a second decode of a path can do. */
module PathPolicy {
  import opened Prelude
  import opened PathText
  import opened PathDecode
  import opened VaultPaths
  import opened PathAlgebra

  // ----- starts_with -----

  /** The text begins with the key and a slash follows. */
  predicate Under(text: Bytes, key: Bytes) {
    |key| < |text| && text[..|key|] == key && text[|key|] == SLASH
  }

  predicate StartsWith(p: VaultPath, ancestor: VaultPath) {
    ancestor.IsRoot() || p.text == ancestor.text || Under(p.text, ancestor.text)
  }

  lemma {:induction false} UnsplitAppend(r: seq<Bytes>, q: seq<Bytes>)
    requires |r| >= 1 && |q| >= 1
    ensures Unsplit(r + q) == Sep(Unsplit(r), Unsplit(q))
    decreases |r|
  {
    assert (r + q)[1..] == r[1..] + q;
    if |r| > 1 {
      UnsplitAppend(r[1..], q);
      SepAssociates(r[0], Unsplit(r[1..]), Unsplit(q));
    } else {
      assert r[1..] + q == q;
    }
  }

  /** On nonempty texts: equal or under, exactly when the segments are a prefix. */
  lemma UnderIsPrefix(text: Bytes, key: Bytes)
    requires text != [] && key != []
    ensures text == key || Under(text, key) <==> Split(key) <= Split(text)
  {
    if Under(text, key) {
      var rest := text[|key| + 1..];
      assert text == Sep(key, rest);
      SplitSep(key, rest);
    }
    if Split(key) <= Split(text) {
      var n := |Split(key)|;
      UnsplitSplit(text);
      UnsplitSplit(key);
      assert Split(text) == Split(key) + Split(text)[n..];
      if n == |Split(text)| {
        assert Split(text) == Split(key);
      } else {
        UnsplitAppend(Split(key), Split(text)[n..]);
        assert text == Sep(key, Unsplit(Split(text)[n..]));
      }
    }
  }

  /** String-based `starts_with` is the prefix relation on segment lists. */
  lemma StartsWithIsPrefix(p: VaultPath, ancestor: VaultPath)
    ensures StartsWith(p, ancestor) <==> ancestor.Segments() <= p.Segments()
  {
    if !ancestor.IsRoot() && !p.IsRoot() { UnderIsPrefix(p.text, ancestor.text); }
  }

  /** Hence a partial order. */
  lemma StartsWithIsPartialOrder(p: VaultPath, q: VaultPath, r: VaultPath)
    ensures StartsWith(p, p)
    ensures StartsWith(p, q) && StartsWith(q, p) ==> p == q
    ensures StartsWith(p, q) && StartsWith(q, r) ==> StartsWith(p, r)
  {
  }

  lemma JoinStartsWithLeft(nfc: Bytes -> Bytes, a: VaultPath, b: VaultPath)
    requires NfcLaws(nfc) && Parsed(nfc, a) && Parsed(nfc, b) && Join(nfc, a, b).Ok?
    ensures StartsWith(Join(nfc, a, b).value, a)
  {
  }

  // ----- The reserved namespace -----

  datatype CaseSensitivity = Sensitive | Insensitive

  /** comparison_key. `lower` stands for Unicode lowercasing. */
  function Key(lower: Bytes -> Bytes, c: CaseSensitivity, p: VaultPath): Bytes {
    if c.Sensitive? then p.text else lower(p.text)
  }

  /** VaultPathPolicy::is_reserved. */
  predicate IsReserved(lower: Bytes -> Bytes, c: CaseSensitivity, reserved: VaultPath, p: VaultPath) {
    Key(lower, c, p) == Key(lower, c, reserved) || Under(Key(lower, c, p), Key(lower, c, reserved))
  }

  function FoldEach(lower: Bytes -> Bytes, c: CaseSensitivity, r: seq<Bytes>): (f: seq<Bytes>)
    ensures |f| == |r| && forall i :: 0 <= i < |r| ==> f[i] == (if c.Sensitive? then r[i] else lower(r[i]))
  {
    seq(|r|, i requires 0 <= i < |r| => if c.Sensitive? then r[i] else lower(r[i]))
  }

  /** Folding the text folds its segments. */
  lemma {:induction false} FoldSegments(lower: Bytes -> Bytes, s: Bytes)
    requires LowerLaws(lower)
    ensures Split(lower(s)) == FoldEach(lower, Insensitive, Split(s))
    decreases |Split(s)|
  {
    SplitPieces(s);
    if |Split(s)| == 1 {
      UnsplitSplit(s);
      assert s == Split(s)[0];
      SplitPlain(lower(s));
    } else {
      var front, last := SplitLast(s);
      FoldSegments(lower, front);
      SplitSep(lower(front), lower(last));
      SplitPlain(lower(last));
      assert Split(s) == Split(front) + [last];
    }
  }

  lemma KeySegments(lower: Bytes -> Bytes, c: CaseSensitivity, p: VaultPath)
    requires LowerLaws(lower) && !p.IsRoot()
    ensures Key(lower, c, p) != []
    ensures Split(Key(lower, c, p)) == FoldEach(lower, c, p.Segments())
  {
    if c.Insensitive? {
      FoldSegments(lower, p.text);
    } else {
      assert FoldEach(lower, c, p.Segments()) == p.Segments();
    }
  }

  lemma {:induction false} PrefixByIndex(a: seq<Bytes>, b: seq<Bytes>)
    ensures a <= b <==> |a| <= |b| && forall i :: 0 <= i < |a| ==> a[i] == b[i]
  {
  }

  /** A path is reserved exactly when the reserved root's folded segments are a prefix of its folded segments. */
  lemma ReservedIsPrefix(lower: Bytes -> Bytes, c: CaseSensitivity, reserved: VaultPath, p: VaultPath)
    requires LowerLaws(lower) && !reserved.IsRoot()
    ensures IsReserved(lower, c, reserved, p) <==>
            FoldEach(lower, c, reserved.Segments()) <= FoldEach(lower, c, p.Segments())
    ensures IsReserved(lower, c, reserved, p) <==>
            && |reserved.Segments()| <= |p.Segments()|
            && forall i :: 0 <= i < |reserved.Segments()| ==>
                             if c == Sensitive then p.Segments()[i] == reserved.Segments()[i]
                             else lower(p.Segments()[i]) == lower(reserved.Segments()[i])
  {
    PrefixByIndex(FoldEach(lower, c, reserved.Segments()), FoldEach(lower, c, p.Segments()));
    KeySegments(lower, c, reserved);
    if p.IsRoot() {
      assert Key(lower, c, p) == [];
    } else {
      KeySegments(lower, c, p);
      UnderIsPrefix(Key(lower, c, p), Key(lower, c, reserved));
    }
  }

  datatype PolicyError = ReservedPath(path: VaultPath) | PathNotManaged

  function ValidateUserPath(lower: Bytes -> Bytes, c: CaseSensitivity, reserved: VaultPath, p: VaultPath): Option<PolicyError> {
    if IsReserved(lower, c, reserved, p) then Some(ReservedPath(p)) else None
  }

  function ValidateManagedPath(lower: Bytes -> Bytes, c: CaseSensitivity, reserved: VaultPath, p: VaultPath): Option<PolicyError> {
    if IsReserved(lower, c, reserved, p) then None else Some(PathNotManaged)
  }

  /**
   Every path is accepted by exactly one of the two validators, and which one depends only on
   whether the reserved root's folded segments are a prefix of the path's.
   */
  lemma UserAndManagedAreComplements(lower: Bytes -> Bytes, c: CaseSensitivity, reserved: VaultPath, p: VaultPath)
    requires LowerLaws(lower) && !reserved.IsRoot()
    ensures ValidateManagedPath(lower, c, reserved, p).None? <==> ValidateUserPath(lower, c, reserved, p).Some?
    ensures ValidateManagedPath(lower, c, reserved, p).None? <==>
              && |reserved.Segments()| <= |p.Segments()|
              && forall i :: 0 <= i < |reserved.Segments()| ==>
                               if c == Sensitive then p.Segments()[i] == reserved.Segments()[i]
                               else lower(p.Segments()[i]) == lower(reserved.Segments()[i])
    ensures ValidateManagedPath(lower, c, reserved, p).Some? ==> ValidateManagedPath(lower, c, reserved, p).value == PathNotManaged
    ensures ValidateUserPath(lower, c, reserved, p).Some? ==> ValidateUserPath(lower, c, reserved, p).value == ReservedPath(p)
  {
    ReservedIsPrefix(lower, c, reserved, p);
  }

  /** Nothing below a reserved path leaves the namespace. */
  lemma ReservedClosedUnderJoin(nfc: Bytes -> Bytes, lower: Bytes -> Bytes, c: CaseSensitivity,
                                reserved: VaultPath, a: VaultPath, b: VaultPath)
    requires NfcLaws(nfc) && LowerLaws(lower) && !reserved.IsRoot()
    requires Parsed(nfc, a) && Parsed(nfc, b) && Join(nfc, a, b).Ok?
    requires IsReserved(lower, c, reserved, a)
    ensures IsReserved(lower, c, reserved, Join(nfc, a, b).value)
  {
  }

  // ----- Collisions -----

  ghost predicate Collides(lower: Bytes -> Bytes, c: CaseSensitivity, paths: seq<VaultPath>, i: int, j: int) {
    && 0 <= i < j < |paths|
    && if c == Sensitive then paths[i].text == paths[j].text else lower(paths[i].text) == lower(paths[j].text)
  }

  /** detect_path_collisions: finds the first path that repeats a key, with the path it repeats. */
  method DetectPathCollisions(lower: Bytes -> Bytes, c: CaseSensitivity, paths: seq<VaultPath>)
    returns (collision: Option<(VaultPath, VaultPath)>)
    ensures collision.None? <==> forall i, j :: !Collides(lower, c, paths, i, j)
    ensures collision.Some? ==>
              exists i, j :: Collides(lower, c, paths, i, j) && collision.value == (paths[i], paths[j])
                             && forall k, m :: m < j ==> !Collides(lower, c, paths, k, m)
  {
    var seen: map<Bytes, VaultPath> := map[];
    ghost var at: map<Bytes, nat> := map[];
    var n := 0;
    while n < |paths|
      invariant 0 <= n <= |paths|
      invariant forall i, j :: j < n ==> !Collides(lower, c, paths, i, j)
      invariant seen.Keys == at.Keys
      invariant forall i :: 0 <= i < n ==> Key(lower, c, paths[i]) in seen
      invariant forall key :: key in at ==>
                                at[key] < n && seen[key] == paths[at[key]] && Key(lower, c, paths[at[key]]) == key
    {
      var key := Key(lower, c, paths[n]);
      if key in seen {
        assert Collides(lower, c, paths, at[key], n);
        return Some((seen[key], paths[n]));
      }
      seen := seen[key := paths[n]];
      at := at[key := n];
      n := n + 1;
    }
    collision := None;
  }

  // ----- Decoding a parsed path once more -----

  /**
   A parsed path can be decoded once more without escaping: its segments are decoded one
   by one, none becomes empty, `.` or `..`, and no backslash or NUL appears.
   */
  lemma SecondDecodeIsHarmless(nfc: Bytes -> Bytes, p: VaultPath)
    requires Parsed(nfc, p) && !p.IsRoot()
    ensures Split(Decode(p.text)) == DecodeEach(p.Segments())
    ensures forall i :: 0 <= i < p.Depth() ==>
                          var d := DecodeEach(p.Segments())[i]; d != [] && d != [DOT] && d != [DOT, DOT]
    ensures BACKSLASH !in Decode(p.text) && 0 !in Decode(p.text)
  {
    ScannerImpliesNoUnsafeEscape(p.text);
    DecodeKeepsSegments(p.text);
    forall i | 0 <= i < p.Depth()
      ensures var d := DecodeEach(p.Segments())[i]; d != [] && d != [DOT] && d != [DOT, DOT]
    {
      SegmentIsSafe(p.text, i);
      SegmentDecodes(p.Segments()[i]);
    }
    DecodeIntroducesNothingIff(p.text);
    assert Count(Decode(p.text), BACKSLASH) == Count(p.text, BACKSLASH) == 0;
    assert Count(Decode(p.text), 0) == Count(p.text, 0) == 0;
  }

  lemma {:induction false} SegmentIsSafe(s: Bytes, i: nat)
    requires NoUnsafeEscape(s) && i < |Split(s)|
    ensures NoUnsafeEscape(Split(s)[i])
    decreases |Split(s)|
  {
    if |Split(s)| == 1 {
      UnsplitSplit(s);
      assert s == Split(s)[0];
    } else {
      var front, last := SplitLast(s);
      NoUnsafeEscapeInParts(front, last);
      if i < |Split(front)| { SegmentIsSafe(front, i); }
    }
  }

  lemma SegmentDecodes(s: Bytes)
    requires SegmentOk(s) && NoUnsafeEscape(s)
    ensures Decode(s) != [] && Decode(s) != [DOT] && Decode(s) != [DOT, DOT]
  {
    EveryIndexIsEnough(s);
    if forall i :: 0 <= i < |Decode(s)| ==> Decode(s)[i] == 0x2e { DecodeToDots(s); }
  }

  // ----- URL paths -----

  function HexDigit(v: Byte, upper: bool): (b: Byte)
    requires v < 16
    ensures HexValue(b) == Some(v)
  {
    if v < 10 then v + 0x30 else if upper then v - 10 + 0x41 else v - 10 + 0x61
  }

  /** Percent-encoding that leaves the bytes in `keep` as they are (never the percent sign), with digits in either case. */
  function Encode(keep: set<Byte>, upper: Byte -> bool, s: Bytes): Bytes
    decreases |s|
  {
    if s == [] then []
    else if s[0] in keep && s[0] != PERCENT then [s[0]] + Encode(keep, upper, s[1..])
    else [PERCENT, HexDigit(s[0] / 16, upper(s[0])), HexDigit(s[0] % 16, upper(s[0]))] + Encode(keep, upper, s[1..])
  }

  lemma {:induction false} DecodeEncode(keep: set<Byte>, upper: Byte -> bool, s: Bytes)
    ensures WellEncoded(Encode(keep, upper, s)) && Decode(Encode(keep, upper, s)) == s
    decreases |s|
  {
    if s != [] {
      DecodeEncode(keep, upper, s[1..]);
      var e, rest := Encode(keep, upper, s), Encode(keep, upper, s[1..]);
      if s[0] in keep && s[0] != PERCENT {
        assert e[1..] == rest;
      } else {
        assert e[3..] == rest;
        assert HexPair(e[1], e[2]) == Some(s[0]);
      }
    }
  }

  /** Every percent sign starts an escape: after one it cannot stand at its digits. */
  lemma {:induction false} WellEncodedMeans(s: Bytes)
    ensures WellEncoded(s) <==> forall i :: 0 <= i < |s| && s[i] == PERCENT ==> i + 2 < |s| && HexPair(s[i + 1], s[i + 2]).Some?
    decreases |s|
  {
    if s != [] {
      var n := if s[0] == PERCENT then 3 else 1;
      if n <= |s| {
        var rest := s[n..];
        WellEncodedMeans(rest);
        assert forall i :: 0 <= i < |rest| ==> rest[i] == s[i + n];
        assert forall i :: n <= i < |s| ==> s[i] == rest[i - n];
      }
    }
  }

  /**
   `from_url_path` takes one leading slash off, refuses a percent sign that starts no escape and
   bytes that are no UTF-8, and parses what one decoding gives.
   */
  lemma {:induction false} UrlPathDecides(nfc: Bytes -> Bytes, utf8: Bytes -> bool, input: Bytes)
    ensures var rest := if input != [] && input[0] as char == '/' then input[1..] else input;
            FromUrlPath(nfc, utf8, input)
            == if exists i :: 0 <= i < |rest| && rest[i] as char == '%' && !(i + 2 < |rest| && HexPair(rest[i + 1], rest[i + 2]).Some?)
               then Err(InvalidPercentEncoding)
               else if !utf8(Decode(rest)) then Err(InvalidUtf8)
               else Parse(nfc, Decode(rest))
  {
    WellEncodedMeans(if input != [] && input[0] == SLASH then input[1..] else input);
  }

  /** `from_url_path` undoes one percent-encoding, whatever bytes the encoder left alone, and then parses: exactly one decode. */
  lemma UrlPathDecodesOnce(nfc: Bytes -> Bytes, utf8: Bytes -> bool, keep: set<Byte>, upper: Byte -> bool, s: Bytes)
    requires utf8(s)
    ensures FromUrlPath(nfc, utf8, [SLASH] + Encode(keep, upper, s)) == Parse(nfc, s)
    ensures SLASH !in keep ==> FromUrlPath(nfc, utf8, Encode(keep, upper, s)) == Parse(nfc, s)
  {
    DecodeEncode(keep, upper, s);
    assert ([SLASH] + Encode(keep, upper, s))[1..] == Encode(keep, upper, s);
  }
}
