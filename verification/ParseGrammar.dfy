/**
 What `parse` accepts, and which error it gives otherwise, said over characters and positions in
 the text instead of through the validator's own functions.
 */
module ParseGrammar {
  import opened Prelude
  import opened PathText
  import opened PathSegments
  import opened VaultPaths

  // ----- One segment -----

  const FORBIDDEN := ":*?\"<>|"

  const DEVICES: set<string> := {
    "CON", "PRN", "AUX", "NUL",
    "COM1", "COM2", "COM3", "COM4", "COM5", "COM6", "COM7", "COM8", "COM9",
    "LPT1", "LPT2", "LPT3", "LPT4", "LPT5", "LPT6", "LPT7", "LPT8", "LPT9"
  }

  /** The text in ASCII upper case. */
  function UpperText(s: Bytes): (t: string)
    ensures |t| == |s|
    ensures forall i :: 0 <= i < |s| ==> t[i] == if 'a' <= s[i] as char <= 'z' then (s[i] - 32) as char else s[i] as char
    decreases |s|
  {
    if s == [] then []
    else [if 'a' <= s[0] as char <= 'z' then (s[0] - 32) as char else s[0] as char] + UpperText(s[1..])
  }

  /** What comes before the first dot, or before the end, is a device name of Windows. */
  ghost predicate IsDevice(s: Bytes) {
    exists k: nat :: k <= |s| && (k == |s| || s[k] as char == '.') && (forall i :: 0 <= i < k ==> s[i] as char != '.')
                     && UpperText(s[..k]) in DEVICES
  }

  /** What is wrong with a segment. */
  ghost predicate SegmentFault(e: PathError, s: Bytes) {
    match e
    case Traversal => (|s| == 1 && s[0] as char == '.') || (|s| == 2 && s[0] as char == '.' && s[1] as char == '.')
    case SegmentTooLong => |s| > 255
    case TrailingSpaceOrPeriod => |s| > 0 && (s[|s| - 1] as char == ' ' || s[|s| - 1] as char == '.')
    case InvalidPlatformCharacter => exists i :: 0 <= i < |s| && s[i] as char in FORBIDDEN
    case ReservedPlatformName => IsDevice(s)
    case _ => false
  }

  /** The order of the checks. */
  function Rank(e: PathError): nat {
    match e
    case EncodedUnsafeComponent => 0
    case Absolute => 1
    case Backslash => 2
    case Nul => 3
    case ControlCharacter => 4
    case TooLong => 5
    case TooDeep => 6
    case EmptySegment => 7
    case Traversal => 8
    case SegmentTooLong => 9
    case TrailingSpaceOrPeriod => 10
    case InvalidPlatformCharacter => 11
    case ReservedPlatformName => 12
    case InvalidPercentEncoding => 13
    case InvalidUtf8 => 14
  }

  ghost predicate FirstSegmentFault(e: PathError, s: Bytes) {
    SegmentFault(e, s) && forall d :: Rank(d) < Rank(e) ==> !SegmentFault(d, s)
  }

  lemma {:induction false} StemIsPrefix(s: Bytes)
    ensures |Stem(s)| <= |s| && Stem(s) == s[..|Stem(s)|] && DOT !in Stem(s)
    ensures |Stem(s)| == |s| || s[|Stem(s)|] == DOT
    decreases |s|
  {
    if s != [] && s[0] != DOT { StemIsPrefix(s[1..]); }
  }

  /** The stem is the only prefix that ends before the first dot. */
  lemma {:induction false} StemIsUnique(s: Bytes, k: nat)
    requires k <= |s| && (k == |s| || s[k] == DOT) && forall i :: 0 <= i < k ==> s[i] != DOT
    ensures s[..k] == Stem(s)
  {
    StemIsPrefix(s);
  }

  /** Names of three or four characters, spelled out. */
  lemma {:induction false} DeviceNames(stem: Bytes)
    ensures UpperText(stem) in DEVICES
            <==> || (|stem| == 3 &&
                     var u := [Upper(stem[0]), Upper(stem[1]), Upper(stem[2])];
                     u == [0x43, 0x4f, 0x4e] || u == [0x50, 0x52, 0x4e] || u == [0x41, 0x55, 0x58] || u == [0x4e, 0x55, 0x4c])
                 || (|stem| == 4 && 0x31 <= stem[3] <= 0x39 &&
                     var u := [Upper(stem[0]), Upper(stem[1]), Upper(stem[2])];
                     u == [0x43, 0x4f, 0x4d] || u == [0x4c, 0x50, 0x54])
  {
    hide UpperText;
    var t := UpperText(stem);
    if |stem| == 3 {
      assert t == [t[0], t[1], t[2]];
      assert t in DEVICES <==> t == "CON" || t == "PRN" || t == "AUX" || t == "NUL";
    } else if |stem| == 4 {
      NumberedDevices(stem, t);
    } else {
      assert t !in DEVICES;
    }
  }

  lemma {:induction false} NumberedDevices(stem: Bytes, t: string)
    requires |stem| == 4 && t == UpperText(stem)
    ensures t in DEVICES
            <==> 0x31 <= stem[3] <= 0x39 &&
                 var u := [Upper(stem[0]), Upper(stem[1]), Upper(stem[2])];
                 u == [0x43, 0x4f, 0x4d] || u == [0x4c, 0x50, 0x54]
  {
    hide UpperText;
    assert t == [t[0], t[1], t[2], t[3]];
    assert t in DEVICES <==> (t[..3] == "COM" || t[..3] == "LPT") && '1' <= t[3] <= '9';
  }

  lemma {:induction false} DeviceIsReserved(s: Bytes)
    ensures IsDevice(s) <==> ReservedName(s)
  {
    StemIsPrefix(s);
    DeviceNames(Stem(s));
    if IsDevice(s) {
      var k: nat :| k <= |s| && (k == |s| || s[k] as char == '.') && (forall i :: 0 <= i < k ==> s[i] as char != '.')
                    && UpperText(s[..k]) in DEVICES;
      StemIsUnique(s, k);
    }
    if ReservedName(s) {
      var k := |Stem(s)|;
      assert forall i :: 0 <= i < k ==> s[i] == Stem(s)[i];
    }
  }

  /** The validator of segments reports the first fault, and accepts exactly segments without one. */
  lemma {:induction false} SegmentFaults(s: Bytes, e: PathError)
    ensures ValidateSegment(s) == Some(e) <==> FirstSegmentFault(e, s)
    ensures ValidateSegment(s).None? <==> forall d :: !SegmentFault(d, s)
  {
    hide ValidateSegment, FirstSegmentFault, SegmentFault;
    SegmentOrder(s);
    SegmentRanks(s, e);
    assert Faultless(s) <==> forall d :: !SegmentFault(d, s) by { OnlyFiveFaults(s); }
  }

  lemma {:induction false} OnlyFiveFaults(s: Bytes)
    ensures Faultless(s) <==> forall d :: !SegmentFault(d, s)
  {
    hide IsDevice;
  }

  function FirstOf(a: bool, b: bool, c: bool, d: bool, e: bool): Option<PathError> {
    if a then Some(Traversal) else if b then Some(SegmentTooLong) else if c then Some(TrailingSpaceOrPeriod)
    else if d then Some(InvalidPlatformCharacter) else if e then Some(ReservedPlatformName) else None
  }

  lemma {:induction false} SegmentOrder(s: Bytes)
    ensures ValidateSegment(s) == FirstOf(SegmentFault(Traversal, s), SegmentFault(SegmentTooLong, s), SegmentFault(TrailingSpaceOrPeriod, s),
                                          SegmentFault(InvalidPlatformCharacter, s), SegmentFault(ReservedPlatformName, s))
  {
    hide IsDevice, ReservedName, PlatformCharacter;
    DeviceIsReserved(s);
    ForbiddenCharacters(s);
    assert s == [DOT] <==> |s| == 1 && s[0] == DOT;
    assert s == [DOT, DOT] <==> |s| == 2 && s[0] == DOT && s[1] == DOT;
  }

  lemma {:induction false} SegmentRanks(s: Bytes, e: PathError)
    ensures FirstSegmentFault(e, s)
            <==> FirstOf(SegmentFault(Traversal, s), SegmentFault(SegmentTooLong, s), SegmentFault(TrailingSpaceOrPeriod, s),
                         SegmentFault(InvalidPlatformCharacter, s), SegmentFault(ReservedPlatformName, s)) == Some(e)
  {
    hide IsDevice;
  }

  /** All five faults are absent. */
  ghost predicate Faultless(s: Bytes) {
    && !SegmentFault(Traversal, s) && !SegmentFault(SegmentTooLong, s) && !SegmentFault(TrailingSpaceOrPeriod, s)
    && !SegmentFault(InvalidPlatformCharacter, s) && !SegmentFault(ReservedPlatformName, s)
  }

  lemma {:induction false} ForbiddenCharacters(s: Bytes)
    ensures forall i :: 0 <= i < |s| ==> (PlatformCharacter(s[i]) <==> s[i] as char in FORBIDDEN)
  {
    forall i | 0 <= i < |s|
      ensures PlatformCharacter(s[i]) <==> s[i] as char in FORBIDDEN
    {
      var c := s[i] as char;
      assert c in FORBIDDEN <==> c == ':' || c == '*' || c == '?' || c == '\"' || c == '<' || c == '>' || c == '|';
    }
  }

  /** What a segment may be. */
  lemma {:induction false} SegmentMeans(s: Bytes)
    ensures SegmentOk(s) <==> && 1 <= |s| <= 255
                              && s[|s| - 1] as char != ' ' && s[|s| - 1] as char != '.'
                              && (forall i :: 0 <= i < |s| ==> s[i] as char !in FORBIDDEN)
                              && !IsDevice(s)
  {
    DeviceIsReserved(s);
    ForbiddenCharacters(s);
  }

  // ----- A whole path -----

  /** The byte is the hexadecimal digit of a value, in either case. */
  predicate SpellsDigit(b: Byte, v: nat)
    requires v < 16
  {
    b as char == "0123456789abcdef"[v] || b as char == "0123456789ABCDEF"[v]
  }

  /** The two bytes from `i` on spell a byte. */
  predicate Spells(s: Bytes, i: nat, v: Byte) { i + 1 < |s| && SpellsDigit(s[i], v / 16) && SpellsDigit(s[i + 1], v % 16) }

  /** NUL, dot, slash, backslash. */
  const HIDDEN: set<Byte> := {0, '.' as int, '/' as int, '\\' as int}

  /** Behind a percent sign, or behind an escaped percent sign, such a byte is spelled. */
  ghost predicate HidesAt(s: Bytes, i: nat, v: Byte) {
    && v in HIDDEN && i < |s| && s[i] as char == '%'
    && (Spells(s, i + 1, v) || (Spells(s, i + 1, '%' as int) && Spells(s, i + 3, v)))
  }

  /** `char::is_control` on UTF-8. */
  predicate IsControl(s: Bytes, i: nat) {
    i < |s| && (s[i] < 32 || s[i] == 127 || (s[i] == 0xc2 && i + 1 < |s| && 128 <= s[i + 1] < 160))
  }

  /** What is wrong with the input, or with its normalization `n`, as a whole. */
  ghost predicate WholeFault(e: PathError, input: Bytes, n: Bytes) {
    match e
    case EncodedUnsafeComponent => exists i: nat, v: Byte :: HidesAt(input, i, v)
    case Absolute => |input| > 0 && input[0] as char == '/'
    case Backslash => exists i :: 0 <= i < |input| && input[i] as char == '\\'
    case Nul => exists i :: 0 <= i < |input| && input[i] == 0
    case ControlCharacter => exists i: nat :: IsControl(input, i)
    case TooLong => |n| > 4096
    case TooDeep => multiset(n)['/' as int] >= 64
    case EmptySegment => exists i: nat :: SegmentAt(n, i, i)
    case _ => false
  }

  /** A segment has this as its first fault, and no segment before it has any. */
  ghost predicate SegmentsFault(e: PathError, n: Bytes) {
    exists i: nat, j: nat ::
      SegmentAt(n, i, j) && FirstSegmentFault(e, n[i..j])
      && forall a: nat, b: nat, d: PathError :: SegmentAt(n, a, b) && a < i ==> !SegmentFault(d, n[a..b])
  }

  /** The first fault of a non-empty input. */
  ghost predicate FirstFault(e: PathError, input: Bytes, n: Bytes) {
    || (WholeFault(e, input, n) && forall d :: Rank(d) < Rank(e) ==> !WholeFault(d, input, n))
    || (SegmentsFault(e, n) && forall d :: !WholeFault(d, input, n))
  }

  // ----- The validator's functions are these -----

  lemma {:induction false} HexMeans(b: Byte, v: Byte)
    requires v < 16
    ensures HexValue(b) == Some(v) <==> SpellsDigit(b, v)
  {
  }

  lemma {:induction false} PairMeans(s: Bytes, i: nat, v: Byte)
    ensures Spells(s, i, v) <==> i + 1 < |s| && HexPair(s[i], s[i + 1]) == Some(v)
  {
    if i + 1 < |s| {
      HexMeans(s[i], v / 16);
      HexMeans(s[i + 1], v % 16);
      assert v == v / 16 * 16 + v % 16;
    }
  }

  lemma {:induction false} RefusedMeans(s: Bytes, i: nat)
    ensures RefusedAt(s, i) <==> exists v: Byte :: HidesAt(s, i, v)
  {
    if RefusedAt(s, i) {
      var v := HexPair(s[i + 1], s[i + 2]).value;
      PairMeans(s, i + 1, v);
      if !Unsafe(v) {
        PairMeans(s, i + 3, HexPair(s[i + 3], s[i + 4]).value);
        assert HidesAt(s, i, HexPair(s[i + 3], s[i + 4]).value);
      } else {
        assert HidesAt(s, i, v);
      }
    }
    if v: Byte :| HidesAt(s, i, v) {
      PairMeans(s, i + 1, v);
      PairMeans(s, i + 1, PERCENT);
      PairMeans(s, i + 3, v);
    }
  }

  lemma {:induction false} EscapesMean(s: Bytes, n: Bytes)
    ensures SafeEscapes(s) <==> !WholeFault(EncodedUnsafeComponent, s, n)
  {
    hide RefusedAt, HidesAt;
    if i: nat, v: Byte :| HidesAt(s, i, v) {
      RefusedMeans(s, i);
    } else {
      forall i: nat
        ensures !RefusedAt(s, i)
      {
        RefusedMeans(s, i);
      }
    }
  }

  lemma {:induction false} ShapeMeans(s: Bytes, n: Bytes)
    ensures |Split(n)| > MAX_SEGMENTS <==> WholeFault(TooDeep, s, n)
    ensures [] in Split(n) <==> WholeFault(EmptySegment, s, n)
  {
    PiecesAndSlashes(n);
    if [] in Split(n) {
      var k :| 0 <= k < |Split(n)| && Split(n)[k] == [];
      var i, j := PieceIsSegment(n, k);
      assert |n[i..j]| == j - i;
      assert SegmentAt(n, i, i);
    }
    if i: nat :| SegmentAt(n, i, i) { SegmentIsPiece(n, i, i); }
  }

  lemma {:induction false} FirstErrorIs(r: seq<Bytes>, k: nat, e: PathError)
    requires k < |r| && ValidateSegment(r[k]) == Some(e) && forall j :: 0 <= j < k ==> ValidateSegment(r[j]).None?
    ensures FirstSegmentError(r) == Some(e)
    decreases |r|
  {
    hide ValidateSegment;
    if k > 0 { FirstErrorIs(r[1..], k - 1, e); }
  }

  lemma {:induction false} FirstErrorAt(r: seq<Bytes>) returns (k: nat)
    requires FirstSegmentError(r).Some?
    ensures k < |r| && ValidateSegment(r[k]) == FirstSegmentError(r) && forall j :: 0 <= j < k ==> ValidateSegment(r[j]).None?
    decreases |r|
  {
    hide ValidateSegment;
    if ValidateSegment(r[0]).Some? {
      k := 0;
    } else {
      k := FirstErrorAt(r[1..]);
      k := k + 1;
      assert forall j :: 0 < j < k ==> r[j] == r[1..][j - 1];
    }
  }

  /** The loop over the segments gives the first fault of the first segment that has one. */
  lemma {:induction false} SegmentsMean(n: Bytes, e: PathError)
    ensures FirstSegmentError(Split(n)) == Some(e) <==> SegmentsFault(e, n)
  {
    hide ValidateSegment, SegmentFault, FirstSegmentFault, Split;
    if FirstSegmentError(Split(n)) == Some(e) {
      var k := FirstErrorAt(Split(n));
      var i, j := PieceIsSegment(n, k);
      SegmentFaults(n[i..j], e);
      forall a: nat, b: nat, d: PathError | SegmentAt(n, a, b) && a < i
        ensures !SegmentFault(d, n[a..b])
      {
        SegmentIsPiece(n, a, b);
        LaterSegment(n, a, i);
        SegmentFaults(n[a..b], d);
      }
    }
    if SegmentsFault(e, n) {
      var i: nat, j: nat :| SegmentAt(n, i, j) && FirstSegmentFault(e, n[i..j])
                            && forall a: nat, b: nat, d: PathError :: SegmentAt(n, a, b) && a < i ==> !SegmentFault(d, n[a..b]);
      SegmentIsPiece(n, i, j);
      SegmentFaults(n[i..j], e);
      forall k: nat | k < Slashes(n[..i])
        ensures ValidateSegment(Split(n)[k]).None?
      {
        var a, b := PieceIsSegment(n, k);
        if a > i { LaterSegment(n, i, a); }
        SegmentFaults(n[a..b], e);
      }
      FirstErrorIs(Split(n), Slashes(n[..i]), e);
    }
  }

  /** None of the faults of the whole. */
  ghost predicate WholeOk(input: Bytes, n: Bytes) {
    && !WholeFault(EncodedUnsafeComponent, input, n) && !WholeFault(Absolute, input, n) && !WholeFault(Backslash, input, n)
    && !WholeFault(Nul, input, n) && !WholeFault(ControlCharacter, input, n) && !WholeFault(TooLong, input, n)
    && !WholeFault(TooDeep, input, n) && !WholeFault(EmptySegment, input, n)
  }

  lemma {:induction false} PlainFaults(input: Bytes, n: Bytes)
    ensures WholeFault(Backslash, input, n) <==> BACKSLASH in input
    ensures WholeFault(Nul, input, n) <==> 0 in input
    ensures WholeFault(ControlCharacter, input, n) <==> HasControl(input)
    ensures WholeFault(Absolute, input, n) <==> input != [] && input[0] == SLASH
  {
    assert forall i: nat :: IsControl(input, i) <==> ControlAt(input, i);
    assert forall i :: 0 <= i < |input| ==> (input[i] as char == '\\' <==> input[i] == BACKSLASH);
  }

  /** parse accepts exactly inputs without a fault, normalized, and reports the first fault of any other. */
  lemma {:induction false} ParseDecides(nfc: Bytes -> Bytes, input: Bytes, e: PathError)
    ensures input == [] ==> Parse(nfc, input) == Ok(Root)
    ensures input != [] ==> (Parse(nfc, input) == Err(e) <==> FirstFault(e, input, nfc(input)))
    ensures input != [] ==> (Parse(nfc, input).Ok? <==> forall d :: !FirstFault(d, input, nfc(input)))
    ensures Parse(nfc, input).Ok? && input != [] ==> Parse(nfc, input).value.text == nfc(input)
  {
    if input != [] {
      ParseFaults(nfc, input, e);
      var r := Parse(nfc, input);
      if r.Err? { ParseFaults(nfc, input, r.error); }
      forall d
        ensures r == Err(d) <==> FirstFault(d, input, nfc(input))
      {
        ParseFaults(nfc, input, d);
      }
    }
  }

  lemma {:induction false} ParseFaults(nfc: Bytes -> Bytes, input: Bytes, e: PathError)
    requires input != []
    ensures Parse(nfc, input) == Err(e) <==> FirstFault(e, input, nfc(input))
  {
    hide SafeEscapes, HasControl, FirstSegmentError, Split, SegmentsFault;
    var n := nfc(input);
    EscapesMean(input, n);
    ShapeMeans(input, n);
    PlainFaults(input, n);
    SegmentsMean(n, e);
    WholeOrder(input, n, e);
  }

  /** Which fault of the whole is the first. */
  lemma {:induction false} WholeOrder(input: Bytes, n: Bytes, e: PathError)
    ensures FirstFault(e, input, n)
            <==> if WholeFault(EncodedUnsafeComponent, input, n) then e == EncodedUnsafeComponent
                 else if WholeFault(Absolute, input, n) then e == Absolute
                 else if WholeFault(Backslash, input, n) then e == Backslash
                 else if WholeFault(Nul, input, n) then e == Nul
                 else if WholeFault(ControlCharacter, input, n) then e == ControlCharacter
                 else if WholeFault(TooLong, input, n) then e == TooLong
                 else if WholeFault(TooDeep, input, n) then e == TooDeep
                 else if WholeFault(EmptySegment, input, n) then e == EmptySegment
                 else SegmentsFault(e, n)
  {
    hide SegmentsFault;
    assert WholeOk(input, n) <==> forall d :: !WholeFault(d, input, n);
  }
}
