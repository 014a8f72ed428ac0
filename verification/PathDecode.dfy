/**
 One further percent-decode of an accepted path is harmless: it moves no segment
 boundary and makes no dot, slash, backslash or NUL.
 */
module PathDecode {
  import opened Prelude
  import opened PathText

  /** The escape values that a left-to-right pass meets. */
  function Escapes(s: Bytes): seq<Byte>
    decreases |s|
  {
    if s == [] then []
    else if EscapeAt(s, 0) then [HexPair(s[1], s[2]).value] + Escapes(s[3..])
    else Escapes(s[1..])
  }

  /** How often a byte occurs. */
  function Count(s: Bytes, b: Byte): nat { multiset(s)[b] }

  lemma CountCons(x: Byte, s: Bytes, b: Byte)
    ensures Count([x] + s, b) == (if x == b then 1 else 0) + Count(s, b)
  {
  }

  lemma CountTail(s: Bytes, b: Byte)
    requires s != []
    ensures Count(s, b) == (if s[0] == b then 1 else 0) + Count(s[1..], b)
  {
    assert s == [s[0]] + s[1..];
    CountCons(s[0], s[1..], b);
  }

  /** The three bytes of an escape are a percent sign and hex digits, never an unsafe byte. */
  lemma EscapeBytes(s: Bytes)
    requires EscapeAt(s, 0)
    ensures forall b: Byte :: Unsafe(b) ==> b != s[0] && b != s[1] && b != s[2]
  {
  }

  lemma CountEscape(s: Bytes, b: Byte)
    requires EscapeAt(s, 0) && Unsafe(b)
    ensures Count(s, b) == Count(s[3..], b)
  {
    EscapeBytes(s);
    CountTail(s, b);
    CountTail(s[1..], b);
    CountTail(s[1..][1..], b);
    assert s[1..][1..][1..] == s[3..];
  }

  /** Decoding adds an unsafe byte exactly once for each escape that stands for it. */
  lemma {:induction false} DecodeCounts(s: Bytes, b: Byte)
    requires Unsafe(b)
    ensures Count(Decode(s), b) == Count(s, b) + Count(Escapes(s), b)
    decreases |s|
  {
    if s == [] {
    } else if EscapeAt(s, 0) {
      var v := HexPair(s[1], s[2]).value;
      DecodeCounts(s[3..], b);
      CountEscape(s, b);
      CountCons(v, Decode(s[3..]), b);
      CountCons(v, Escapes(s[3..]), b);
    } else {
      DecodeCounts(s[1..], b);
      CountTail(s, b);
      CountCons(s[0], Decode(s[1..]), b);
    }
  }

  /** No escape at any index stands for an unsafe byte. */
  ghost predicate NoUnsafeEscape(s: Bytes) {
    forall i: nat :: EscapeAt(s, i) ==> !Unsafe(HexPair(s[i + 1], s[i + 2]).value)
  }

  /** Escapes never overlap, so the pass that looks at every index finds exactly the escapes that decoding uses. */
  lemma {:induction false} EveryIndexIsEnough(s: Bytes)
    ensures NoUnsafeEscape(s) <==> forall v :: v in Escapes(s) ==> !Unsafe(v)
    decreases |s|
  {
    if s == [] {
    } else if EscapeAt(s, 0) {
      EveryIndexIsEnough(s[3..]);
      var v := HexPair(s[1], s[2]).value;
      assert Escapes(s) == [v] + Escapes(s[3..]);
      ShiftEscapes(s, 3);
      assert !EscapeAt(s, 1) && !EscapeAt(s, 2);
      assert forall i: nat :: i < 3 && i != 0 ==> !EscapeAt(s, i);
    } else {
      EveryIndexIsEnough(s[1..]);
      ShiftEscapes(s, 1);
    }
  }

  lemma ShiftEscapes(s: Bytes, k: nat)
    requires k <= |s|
    ensures forall i: nat :: EscapeAt(s[k..], i) <==> EscapeAt(s, i + k)
    ensures NoUnsafeEscape(s[k..]) <==>
            forall i: nat :: i >= k && EscapeAt(s, i) ==> !Unsafe(HexPair(s[i + 1], s[i + 2]).value)
  {
    if NoUnsafeEscape(s[k..]) {
      forall i: nat | i >= k && EscapeAt(s, i)
        ensures !Unsafe(HexPair(s[i + 1], s[i + 2]).value)
      {
        assert EscapeAt(s[k..], i - k);
      }
    }
    if forall i: nat :: i >= k && EscapeAt(s, i) ==> !Unsafe(HexPair(s[i + 1], s[i + 2]).value) {
      forall i: nat | EscapeAt(s[k..], i)
        ensures !Unsafe(HexPair(s[k..][i + 1], s[k..][i + 2]).value)
      {
        assert EscapeAt(s, i + k);
      }
    }
  }

  /**
   Decode once. A further decode introduces no unsafe byte (each occurs as often as
   before) exactly when no escape at any index stands for one.
   */
  lemma DecodeIntroducesNothingIff(s: Bytes)
    ensures NoUnsafeEscape(s) <==> forall b: Byte :: Unsafe(b) ==> Count(Decode(s), b) == Count(s, b)
  {
    EveryIndexIsEnough(s);
    forall b: Byte | Unsafe(b)
      ensures Count(Decode(s), b) == Count(s, b) + Count(Escapes(s), b)
    {
      DecodeCounts(s, b);
    }
    if !NoUnsafeEscape(s) {
      var v :| v in Escapes(s) && Unsafe(v);
      assert Count(Escapes(s), v) >= 1;
    } else {
      forall b: Byte | Unsafe(b) ensures Count(Escapes(s), b) == 0 {
        assert b !in Escapes(s);
      }
    }
  }

  lemma ScannerImpliesNoUnsafeEscape(s: Bytes)
    requires SafeEscapes(s)
    ensures NoUnsafeEscape(s)
  {
    forall i: nat | EscapeAt(s, i)
      ensures !Unsafe(HexPair(s[i + 1], s[i + 2]).value)
    {
      assert !RefusedAt(s, i);
    }
  }

  // ----- Segments survive decoding -----

  /** An escape never reaches across a slash. */
  lemma EscapeInFront(a: Bytes, b: Bytes)
    ensures a != [] ==> (EscapeAt(Sep(a, b), 0) <==> EscapeAt(a, 0))
    ensures a == [] ==> !EscapeAt(Sep(a, b), 0)
  {
  }

  lemma {:induction false} DecodeSep(a: Bytes, b: Bytes)
    ensures Decode(Sep(a, b)) == Sep(Decode(a), Decode(b))
    decreases |a|
  {
    var s := Sep(a, b);
    EscapeInFront(a, b);
    if a == [] {
      assert s[1..] == b;
    } else if EscapeAt(a, 0) {
      assert s[3..] == Sep(a[3..], b) && s[1] == a[1] && s[2] == a[2];
      DecodeSep(a[3..], b);
    } else {
      assert s[1..] == Sep(a[1..], b) && s[0] == a[0];
      DecodeSep(a[1..], b);
    }
  }

  function DecodeEach(r: seq<Bytes>): (d: seq<Bytes>)
    ensures |d| == |r| && forall i :: 0 <= i < |r| ==> d[i] == Decode(r[i])
  {
    seq(|r|, i requires 0 <= i < |r| => Decode(r[i]))
  }

  /** A segment without unsafe escapes decodes to a segment. */
  lemma DecodePlain(s: Bytes)
    requires NoSlash(s) && NoUnsafeEscape(s)
    ensures NoSlash(Decode(s))
  {
    DecodeIntroducesNothingIff(s);
    assert Count(Decode(s), SLASH) == Count(s, SLASH) == 0;
  }

  lemma NoUnsafeEscapeInParts(a: Bytes, b: Bytes)
    requires NoUnsafeEscape(Sep(a, b))
    ensures NoUnsafeEscape(a) && NoUnsafeEscape(b)
  {
    var s := Sep(a, b);
    forall i: nat | EscapeAt(a, i)
      ensures !Unsafe(HexPair(a[i + 1], a[i + 2]).value)
    {
      assert EscapeAt(s, i) && s[i + 1] == a[i + 1] && s[i + 2] == a[i + 2];
    }
    assert s[|a| + 1..] == b;
    ShiftEscapes(s, |a| + 1);
  }

  /** Decoding a safe string decodes its segments one by one and moves no boundary. */
  lemma {:induction false} DecodeKeepsSegments(s: Bytes)
    requires NoUnsafeEscape(s)
    ensures Split(Decode(s)) == DecodeEach(Split(s))
    decreases |Split(s)|
  {
    if |Split(s)| == 1 {
      UnsplitSplit(s);
      SplitPieces(s);
      assert NoSlash(s) by { assert s == Split(s)[0]; }
      DecodePlain(s);
      SplitPlain(Decode(s));
      assert DecodeEach(Split(s)) == [Decode(s)];
    } else {
      var front, last := SplitLast(s);
      NoUnsafeEscapeInParts(front, last);
      DecodeSep(front, last);
      DecodeKeepsSegments(front);
      DecodePlain(last);
      SplitPlain(Decode(last));
      SplitSep(Decode(front), Decode(last));
      assert DecodeEach(Split(s)) == DecodeEach(Split(front)) + [Decode(last)];
    }
  }

  lemma FirstEscape(s: Bytes)
    requires EscapeAt(s, 0)
    ensures Decode(s) != [] && Decode(s)[0] in Escapes(s)
  {
  }

  /** A safe string decodes to a string of dots only if it was that string. */
  lemma {:induction false} DecodeToDots(s: Bytes)
    requires forall v :: v in Escapes(s) ==> !Unsafe(v)
    requires forall i :: 0 <= i < |Decode(s)| ==> Decode(s)[i] == 0x2e
    ensures Decode(s) == s
    decreases |s|
  {
    if s != [] {
      assert Decode(s)[0] == 0x2e;
      if EscapeAt(s, 0) {
        FirstEscape(s);
        assert false;
      }
      assert Decode(s)[1..] == Decode(s[1..]);
      forall i | 0 <= i < |Decode(s[1..])| ensures Decode(s[1..])[i] == 0x2e { assert Decode(s)[i + 1] == 0x2e; }
      DecodeToDots(s[1..]);
    }
  }
}
