/**
 The canonical certificate encoding of bin/yip-ca/src/rpc.rs. The decoder is this model's own: it is there to show that
 the encoding loses nothing, so that a signature over the bytes is a signature over exactly one certificate.
 */
module CertTbs {
  import opened Prelude
  import opened Wire

  datatype Tag = Tag(kind: Byte, value: Bytes)
  datatype Fields = Fields(
    version: Byte, memberKey: Bytes, signKey: Bytes, network: Bytes, notBefore: nat, notAfter: nat, tags: seq<Tag>)

  /** The widths the Rust field types impose. */
  predicate WellTyped(t: Fields) {
    |t.memberKey| == 32 && |t.signKey| == 32 && |t.network| == 16 && Fits(t.notBefore, 8) && Fits(t.notAfter, 8)
  }

  type Tbs = t: Fields | WellTyped(t)
    witness Fields(0, seq(32, _ => 0), seq(32, _ => 0), seq(16, _ => 0), 0, 0, [])

  /** What the two `expect`s of `to_canonical_bytes` demand: anything else panics. */
  predicate Encodable(t: Tbs) {
    |t.tags| <= U16_MAX && FitTags(t.tags)
  }

  predicate FitTags(tags: seq<Tag>) {
    forall i :: 0 <= i < |tags| ==> |tags[i].value| <= U16_MAX
  }

  function TagBytes(tag: Tag): Bytes
    requires |tag.value| <= U16_MAX
  {
    [tag.kind] + U16(|tag.value|) + tag.value
  }

  function TagsBytes(tags: seq<Tag>): Bytes
    requires FitTags(tags)
  {
    if tags == [] then [] else TagBytes(tags[0]) + TagsBytes(tags[1..])
  }

  function Names(t: Tbs): (b: Bytes)
    ensures |b| == 81
  {
    [t.version] + t.memberKey + t.signKey + t.network
  }

  function Times(t: Tbs): (b: Bytes)
    requires |t.tags| <= U16_MAX
    ensures |b| == 18
  {
    BigEndian(t.notBefore, 8) + BigEndian(t.notAfter, 8) + U16(|t.tags|)
  }

  function Head(t: Tbs): (b: Bytes)
    requires |t.tags| <= U16_MAX
    ensures |b| == 99
  {
    Names(t) + Times(t)
  }

  function Canonical(t: Tbs): Bytes
    requires Encodable(t)
  {
    Head(t) + TagsBytes(t.tags)
  }

  method ToCanonicalBytes(t: Tbs) returns (out: Bytes)
    requires Encodable(t)
    ensures out == Canonical(t)
  {
    out := [t.version];
    out := out + t.memberKey;
    out := out + t.signKey;
    out := out + t.network;
    assert out == Names(t);
    out := out + BigEndian(t.notBefore, 8);
    out := out + BigEndian(t.notAfter, 8);
    out := out + U16(|t.tags|);
    assert out == Head(t);
    out := AppendTags(out, t.tags);
  }

  /** The loop of `to_canonical_bytes`. */
  method AppendTags(start: Bytes, tags: seq<Tag>) returns (out: Bytes)
    requires FitTags(tags)
    ensures out == start + TagsBytes(tags)
  {
    out := start;
    for i := 0 to |tags|
      invariant out + TagsBytes(tags[i..]) == start + TagsBytes(tags)
    {
      var tag := tags[i];
      assert tags[i..][1..] == tags[i + 1..];
      assert out + TagsBytes(tags[i..]) == out + TagBytes(tag) + TagsBytes(tags[i + 1..]);
      out := out + [tag.kind];
      out := out + U16(|tag.value|);
      out := out + tag.value;
    }
  }

  // ---- Decoding -------------------------------------------------------------------------------------------------

  function DecodeTags(b: Bytes, count: nat): Option<seq<Tag>>
    decreases count
  {
    if count == 0 then (if b == [] then Some([]) else None)
    else if |b| < 3 || |b| < 3 + FromU16(b[1], b[2]) then None
    else
      var end := 3 + FromU16(b[1], b[2]);
      match DecodeTags(b[end..], count - 1)
      case None => None
      case Some(rest) => Some([Tag(b[0], b[3..end])] + rest)
  }

  function Decode(b: Bytes): Option<Fields> {
    if |b| < 99 then None
    else match DecodeTags(b[99..], FromU16(b[97], b[98]))
         case None => None
         case Some(tags) => Some(Fields(b[0], b[1..33], b[33..65], b[65..81],
                                        FromBigEndian(b[81..89]), FromBigEndian(b[89..97]), tags))
  }

  lemma {:induction false} TagsRoundTrip(tags: seq<Tag>)
    requires FitTags(tags)
    ensures DecodeTags(TagsBytes(tags), |tags|) == Some(tags)
  {
    if tags != [] {
      TagsRoundTrip(tags[1..]);
      var b, end := TagsBytes(tags), 3 + |tags[0].value|;
      assert b[..end] == TagBytes(tags[0]);
      assert b[end..] == TagsBytes(tags[1..]);
      assert b[3..end] == tags[0].value;
      assert [tags[0]] + tags[1..] == tags;
    }
  }

  /** Left inverse: every encodable certificate is recovered from its canonical bytes. */
  lemma DecodeInvertsCanonical(t: Tbs)
    requires Encodable(t)
    ensures Decode(Canonical(t)) == Some(t)
  {
    var b := Canonical(t);
    assert b[..99] == Head(t);
    assert b[99..] == TagsBytes(t.tags);
    TagsRoundTrip(t.tags);
    BigEndianRoundTrip(t.notBefore, 8);
    BigEndianRoundTrip(t.notAfter, 8);
    HeadSlices(t);
    SliceOfPrefix(b, 99, 1, 33);
    SliceOfPrefix(b, 99, 33, 65);
    SliceOfPrefix(b, 99, 65, 81);
    SliceOfPrefix(b, 99, 81, 89);
    SliceOfPrefix(b, 99, 89, 97);
  }

  lemma SliceOfPrefix(b: Bytes, k: nat, lo: nat, hi: nat)
    requires lo <= hi <= k <= |b|
    ensures b[lo..hi] == b[..k][lo..hi]
  {
  }

  lemma HeadSlices(t: Tbs)
    requires |t.tags| <= U16_MAX
    ensures var h := Head(t);
            && h[0] == t.version && h[1..33] == t.memberKey && h[33..65] == t.signKey && h[65..81] == t.network
            && h[81..89] == BigEndian(t.notBefore, 8) && h[89..97] == BigEndian(t.notAfter, 8)
            && FromU16(h[97], h[98]) == |t.tags|
  {
    var n, x := Names(t), Times(t);
    assert n[0] == t.version && n[1..33] == t.memberKey && n[33..65] == t.signKey && n[65..81] == t.network;
    assert x[0..8] == BigEndian(t.notBefore, 8) && x[8..16] == BigEndian(t.notAfter, 8);
    assert [x[16], x[17]] == U16(|t.tags|);
    forall lo: nat, hi: nat
      ensures lo <= hi <= 81 ==> (n + x)[lo..hi] == n[lo..hi]
      ensures lo <= hi <= 18 ==> (n + x)[81 + lo..81 + hi] == x[lo..hi]
    {
    }
  }

  lemma TagFromSlice(b: Bytes)
    requires |b| >= 3 && |b| >= 3 + FromU16(b[1], b[2])
    ensures TagBytes(Tag(b[0], b[3..3 + FromU16(b[1], b[2])])) == b[..3 + FromU16(b[1], b[2])]
  {
    U16OfFromU16(b[1], b[2]);
  }

  lemma DecodeTagsStep(b: Bytes, count: nat)
    requires count > 0 && DecodeTags(b, count).Some?
    ensures |b| >= 3 && |b| >= 3 + FromU16(b[1], b[2])
    ensures var end := 3 + FromU16(b[1], b[2]);
            && DecodeTags(b[end..], count - 1).Some?
            && DecodeTags(b, count).value == [Tag(b[0], b[3..end])] + DecodeTags(b[end..], count - 1).value
  {
  }

  lemma TagsBytesStep(tag: Tag, rest: seq<Tag>)
    requires |tag.value| <= U16_MAX && FitTags(rest)
    ensures FitTags([tag] + rest) && TagsBytes([tag] + rest) == TagBytes(tag) + TagsBytes(rest)
  {
    assert ([tag] + rest)[1..] == rest;
  }

  lemma {:induction false} DecodedTags(b: Bytes, count: nat)
    requires DecodeTags(b, count).Some?
    ensures var tags := DecodeTags(b, count).value; |tags| == count && FitTags(tags) && TagsBytes(tags) == b
  {
    if count > 0 {
      hide DecodeTags, TagsBytes, TagBytes;
      DecodeTagsStep(b, count);
      var end := 3 + FromU16(b[1], b[2]);
      DecodedTags(b[end..], count - 1);
      TagFromSlice(b);
      TagsBytesStep(Tag(b[0], b[3..end]), DecodeTags(b[end..], count - 1).value);
      assert b == b[..end] + b[end..];
    }
  }

  /** Right inverse: bytes that decode are the canonical bytes of what they decode to. */
  lemma CanonicalInvertsDecode(b: Bytes)
    requires Decode(b).Some?
    ensures WellTyped(Decode(b).value) && Encodable(Decode(b).value) && Canonical(Decode(b).value) == b
  {
    DecodedTags(b[99..], FromU16(b[97], b[98]));
    FromBigEndianRoundTrip(b[81..89]);
    FromBigEndianRoundTrip(b[89..97]);
    HeadFromSlices(Decode(b).value, b);
  }

  lemma HeadFromSlices(t: Tbs, b: Bytes)
    requires |b| >= 99 && |t.tags| == FromU16(b[97], b[98])
    requires t.version == b[0] && t.memberKey == b[1..33] && t.signKey == b[33..65] && t.network == b[65..81]
    requires BigEndian(t.notBefore, 8) == b[81..89] && BigEndian(t.notAfter, 8) == b[89..97]
    ensures Head(t) == b[..99]
  {
    U16OfFromU16(b[97], b[98]);
    assert [t.version] + t.memberKey == b[..33];
    assert b[..33] + t.signKey == b[..65];
    assert b[..65] + t.network == b[..81];
    assert b[81..89] + b[89..97] == b[81..97];
    assert b[81..97] + [b[97], b[98]] == b[81..99];
    assert b[..81] + b[81..99] == b[..99];
  }

  /** Injectivity: one byte string, one certificate. */
  lemma CanonicalIsInjective(t: Tbs, u: Tbs)
    requires Encodable(t) && Encodable(u) && Canonical(t) == Canonical(u)
    ensures t == u
  {
    DecodeInvertsCanonical(t);
    DecodeInvertsCanonical(u);
  }

  // ---- Proof of possession --------------------------------------------------------------------------------------

  /** `ENROLL_POP_CONTEXT`, the ASCII bytes of "YIP-CA-ENROLL-POP-V1". */
  const PopContext: Bytes := [89, 73, 80, 45, 67, 65, 45, 69, 78, 82, 79, 76, 76, 45, 80, 79, 80, 45, 86, 49]

  /** The message `verify_enrollment_pop` checks the client's signature over. */
  function PopMessage(challenge: Bytes, t: Tbs): Bytes
    requires Encodable(t)
  {
    PopContext + challenge + Canonical(t)
  }

  /** A proof-of-possession signature binds one 32-byte challenge and one certificate. */
  lemma PopMessageIsInjective(c: Bytes, t: Tbs, c': Bytes, t': Tbs)
    requires |c| == 32 && |c'| == 32 && Encodable(t) && Encodable(t')
    requires PopMessage(c, t) == PopMessage(c', t')
    ensures c == c' && t == t'
  {
    assert PopMessage(c, t)[20..52] == c && PopMessage(c', t')[20..52] == c';
    assert PopMessage(c, t)[52..] == Canonical(t) && PopMessage(c', t')[52..] == Canonical(t');
    CanonicalIsInjective(t, t');
  }
}
