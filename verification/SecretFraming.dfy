/** Length-prefixed framing of associated data and digest inputs. */
module SecretFraming {
  import opened Prelude

  const U32: nat := 0x1_0000_0000

  /** `(n as u32).to_be_bytes()`: the cast truncates. */
  function Be32(n: nat): (r: Bytes)
    ensures |r| == 4
    ensures (((r[0] as int) * 0x100 + r[1] as int) * 0x100 + r[2] as int) * 0x100 + r[3] as int == n % 0x1_0000_0000
  {
    var v := n % U32;
    var high := v / 0x100;
    var higher := high / 0x100;
    [higher / 0x100, higher % 0x100, high % 0x100, v % 0x100]
  }

  /** Each part behind its length. */
  function Frame(parts: seq<Bytes>): Bytes
    decreases |parts|
  {
    if parts == [] then [] else Be32(|parts[0]|) + parts[0] + Frame(parts[1..])
  }

  lemma {:induction false} FrameAppend(a: seq<Bytes>, part: Bytes)
    ensures Frame(a + [part]) == Frame(a) + Be32(|part|) + part
    decreases |a|
  {
    if a == [] {
      assert [part][1..] == [];
      assert (a + [part])[0] == part && (a + [part])[1..] == [];
    } else {
      assert (a + [part])[1..] == a[1..] + [part];
      FrameAppend(a[1..], part);
    }
  }

  predicate Short(parts: seq<Bytes>) { forall i :: 0 <= i < |parts| ==> |parts[i]| < 0x1_0000_0000 }

  lemma FrameHead(a: seq<Bytes>)
    requires a != []
    ensures |Frame(a)| >= 4 + |a[0]|
    ensures Frame(a)[..4] == Be32(|a[0]|)
    ensures Frame(a)[4..4 + |a[0]|] == a[0]
    ensures Frame(a)[4 + |a[0]|..] == Frame(a[1..])
  {
  }

  lemma SameLength(m: nat, n: nat)
    requires m < U32 && n < U32 && Be32(m) == Be32(n)
    ensures m == n
  {
  }

  /** Framing is injective on lists of equally many parts, each shorter than 2^32 bytes. */
  lemma {:induction false} FrameInjective(a: seq<Bytes>, b: seq<Bytes>)
    requires |a| == |b| && Short(a) && Short(b) && Frame(a) == Frame(b)
    ensures a == b
    decreases |a|
  {
    if a != [] {
      FrameHead(a);
      FrameHead(b);
      SameLength(|a[0]|, |b[0]|);
      FrameInjective(a[1..], b[1..]);
      assert a == [a[0]] + a[1..] && b == [b[0]] + b[1..];
    }
  }

  function OrEmpty(id: Option<Bytes>): Bytes { if id.Some? then id.value else [] }

  /** associated_data: a missing owner id is framed like an empty one. */
  method AssociatedData(purpose: Bytes, ownerType: Bytes, ownerId: Option<Bytes>) returns (data: Bytes)
    ensures data == Frame([purpose, ownerType, OrEmpty(ownerId)])
  {
    data := UpdateAssociatedData([], [purpose, ownerType, OrEmpty(ownerId)]);
    assert [] + Frame([purpose, ownerType, OrEmpty(ownerId)]) == Frame([purpose, ownerType, OrEmpty(ownerId)]);
  }

  /** update_associated_data: the bytes fed to the digest so far, extended by the framed parts. */
  method UpdateAssociatedData(mac: Bytes, parts: seq<Bytes>) returns (mac': Bytes)
    ensures mac' == mac + Frame(parts)
  {
    mac' := mac;
    var i := 0;
    while i < |parts|
      invariant 0 <= i <= |parts|
      invariant mac' == mac + Frame(parts[..i])
    {
      FrameAppend(parts[..i], parts[i]);
      assert parts[..i + 1] == parts[..i] + [parts[i]];
      mac' := mac' + Be32(|parts[i]|);
      mac' := mac' + parts[i];
      i := i + 1;
    }
    assert parts[..i] == parts;
  }

  /** Two secrets share associated data exactly when they agree on purpose, owner type and owner id, a missing id counting as empty. */
  lemma AssociatedDataInjective(p: Bytes, t: Bytes, id: Option<Bytes>, p': Bytes, t': Bytes, id': Option<Bytes>)
    requires Short([p, t, OrEmpty(id)]) && Short([p', t', OrEmpty(id')])
    ensures Frame([p, t, OrEmpty(id)]) == Frame([p', t', OrEmpty(id')])
       <==> p == p' && t == t' && OrEmpty(id) == OrEmpty(id')
  {
    var a, b := [p, t, OrEmpty(id)], [p', t', OrEmpty(id')];
    if Frame(a) == Frame(b) {
      FrameInjective(a, b);
      assert a[0] == b[0] && a[1] == b[1] && a[2] == b[2];
    }
  }

  /** Two digest inputs agree exactly when purpose and value agree. */
  lemma DigestInputInjective(p: Bytes, v: Bytes, p': Bytes, v': Bytes)
    requires Short([p, v]) && Short([p', v'])
    ensures Frame([p, v]) == Frame([p', v']) <==> p == p' && v == v'
  {
    if Frame([p, v]) == Frame([p', v']) {
      FrameInjective([p, v], [p', v']);
      assert [p, v][0] == [p', v'][0] && [p, v][1] == [p', v'][1];
    }
  }

  function Zeros(n: nat): Bytes { seq(n, i => 0) }

  /** The bound is sharp: a part of exactly 2^32 zero bytes is framed with length zero and can trade places with an empty part. */
  lemma FramingCollidesAtTheBound()
    ensures Zeros(U32) != [] && Frame([Zeros(U32), []]) == Frame([[], Zeros(U32)])
  {
  }
}
