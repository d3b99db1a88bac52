/**
 Exactly which bytes the ClientHello parser accepts, and what it reads from them, malformed input included: a message is
 accepted if and only if it has the form of a ClientHello with well-framed extensions, whatever is inside them.
 */
module HelloForms {
  import opened Prelude
  import opened Wire
  import opened ClientHello

  /** One `u16 tag | u16 length | value` record: an extension, or a key_share entry. */
  datatype Raw = Raw(tag: nat, value: Bytes)

  predicate FitRecords(rs: seq<Raw>) {
    forall i :: 0 <= i < |rs| ==> rs[i].tag <= U16_MAX && |rs[i].value| <= U16_MAX
  }

  function RecordsBytes(rs: seq<Raw>): Bytes
    requires FitRecords(rs)
  {
    if rs == [] then [] else Tagged(rs[0].tag, rs[0].value) + RecordsBytes(rs[1..])
  }

  lemma FrontIsTagged(b: Bytes)
    requires Front(b).Record?
    ensures
      var r := Front(b);
      r.tag <= U16_MAX && |r.value| <= U16_MAX && b == Tagged(r.tag, r.value) + r.rest && |r.rest| < |b|
  {
    U16OfFromU16(b[0], b[1]);
    U16OfFromU16(b[2], b[3]);
    var end := 4 + FromU16(b[2], b[3]);
    assert b == [b[0], b[1]] + [b[2], b[3]] + b[4..end] + b[end..];
  }

  // ---- Extensions --------------------------------------------------------------------------------------------------

  /** What the extensions contribute, one after the other. */
  function ReadAll(utf8: Utf8, found: Found, rs: seq<Raw>): Found
    decreases rs
  {
    if rs == [] then found else ReadAll(utf8, OnExtension(utf8, found, rs[0].tag, rs[0].value), rs[1..])
  }

  lemma {:induction false} FramedExtensionsAreRead(utf8: Utf8, rs: seq<Raw>, found: Found)
    requires FitRecords(rs)
    ensures ParseExtensions(utf8, RecordsBytes(rs), found) == Some(ReadAll(utf8, found, rs))
    decreases rs
  {
    if rs != [] {
      TaggedIsFront(rs[0].tag, rs[0].value, RecordsBytes(rs[1..]));
      FramedExtensionsAreRead(utf8, rs[1..], OnExtension(utf8, found, rs[0].tag, rs[0].value));
      hide OnExtension, Tagged;
    }
  }

  lemma {:induction false} ReadExtensionsAreFramed(utf8: Utf8, buf: Bytes, found: Found) returns (rs: seq<Raw>)
    requires ParseExtensions(utf8, buf, found).Some?
    ensures FitRecords(rs) && buf == RecordsBytes(rs)
    decreases |buf|
  {
    if buf == [] {
      rs := [];
    } else {
      FrontIsTagged(buf);
      var r := Front(buf);
      var rest := ReadExtensionsAreFramed(utf8, r.rest, OnExtension(utf8, found, r.tag, r.value));
      rs := [Raw(r.tag, r.value)] + rest;
      assert rs[1..] == rest;
    }
  }

  // ---- The whole message -------------------------------------------------------------------------------------------

  datatype Form = Form(version: Bytes, random: Bytes, sessionId: Bytes, suites: Bytes, methods: Bytes, extensions: seq<Raw>, trailing: Bytes)

  predicate Fit(h: Form) {
    && |h.version| == 2 && |h.random| == 32
    && |h.sessionId| <= 255 && |h.suites| <= U16_MAX && |h.methods| <= 255
    && FitRecords(h.extensions) && |RecordsBytes(h.extensions)| <= U16_MAX
    && |FormBody(h)| < 0x100_0000
  }

  function FormBody(h: Form): Bytes
    requires |h.sessionId| <= 255 && |h.suites| <= U16_MAX && |h.methods| <= 255
    requires FitRecords(h.extensions) && |RecordsBytes(h.extensions)| <= U16_MAX
  {
    h.version + h.random +
    (Opaque(h.sessionId, 1) + (Opaque(h.suites, 2) + (Opaque(h.methods, 1) + (Opaque(RecordsBytes(h.extensions), 2) + h.trailing))))
  }

  function FormBytes(h: Form): Bytes
    requires Fit(h)
  {
    Handshake(FormBody(h))
  }

  lemma FormBodyIsRead(utf8: Utf8, h: Form)
    requires Fit(h)
    ensures ParseBody(utf8, FormBody(h)) == Some(Info(h.random, h.sessionId, ReadAll(utf8, Nothing, h.extensions)))
  {
    var exts := RecordsBytes(h.extensions);
    var d := Opaque(exts, 2) + h.trailing;
    var c := Opaque(h.methods, 1) + d;
    var b := Opaque(h.suites, 2) + c;
    FramedExtensionsAreRead(utf8, h.extensions, Nothing);
    assert FormBody(h)[2..34] == h.random;
    assert FormBody(h)[34..] == Opaque(h.sessionId, 1) + b;
    hide FormBody, RecordsBytes, ParseExtensions, Opaque;
    OpaqueIsVector(h.sessionId, 1, b);
    OpaqueIsVector(h.suites, 2, c);
    OpaqueIsVector(h.methods, 1, d);
    OpaqueIsVector(exts, 2, h.trailing);
  }

  /** Every message of that form is accepted, and read as the form says. */
  lemma {:induction false} FormIsRead(utf8: Utf8, h: Form)
    requires Fit(h)
    ensures ParseClientHello(utf8, FormBytes(h)) == Some(Info(h.random, h.sessionId, ReadAll(utf8, Nothing, h.extensions)))
  {
    FormBodyIsRead(utf8, h);
    HandshakeRoundTrip(utf8, FormBody(h));
    hide ParseBody, ParseClientHello, FormBody, Handshake;
  }

  lemma VectorIsOpaque(b: Bytes, width: nat)
    requires (width == 1 || width == 2) && Vector(b, width).Some?
    ensures
      var (value, rest) := Vector(b, width).value;
      && |value| <= (if width == 1 then 255 else U16_MAX)
      && b == Opaque(value, width) + rest
  {
    if width == 2 {
      U16OfFromU16(b[0], b[1]);
    }
    var (value, rest) := Vector(b, width).value;
    assert b == b[..width] + value + rest;
  }

  lemma {:induction false} ReadBodySplits(utf8: Utf8, body: Bytes)
    returns (sessionId: Bytes, suites: Bytes, methods: Bytes, extensions: Bytes, trailing: Bytes)
    requires ParseBody(utf8, body).Some?
    ensures |body| >= 34 && |sessionId| <= 255 && |suites| <= U16_MAX && |methods| <= 255 && |extensions| <= U16_MAX
    ensures body[34..] == Opaque(sessionId, 1) + (Opaque(suites, 2) + (Opaque(methods, 1) + (Opaque(extensions, 2) + trailing)))
    ensures ParseExtensions(utf8, extensions, Nothing).Some?
  {
    hide Vector, Opaque, ParseExtensions;
    var b := body[34..];
    VectorIsOpaque(b, 1);
    var (s, afterId) := Vector(b, 1).value;
    VectorIsOpaque(afterId, 2);
    var (u, afterSuites) := Vector(afterId, 2).value;
    VectorIsOpaque(afterSuites, 1);
    var (m, afterMethods) := Vector(afterSuites, 1).value;
    VectorIsOpaque(afterMethods, 2);
    var (e, t) := Vector(afterMethods, 2).value;
    sessionId, suites, methods, extensions, trailing := s, u, m, e, t;
  }

  lemma {:induction false} ReadBodyHasForm(utf8: Utf8, body: Bytes) returns (h: Form)
    requires |body| < 0x100_0000 && ParseBody(utf8, body).Some?
    ensures Fit(h) && FormBody(h) == body
  {
    hide ParseBody, Opaque, RecordsBytes, ParseExtensions;
    var sessionId, suites, methods, extensions, trailing := ReadBodySplits(utf8, body);
    var rs := ReadExtensionsAreFramed(utf8, extensions, Nothing);
    h := Form(body[..2], body[2..34], sessionId, suites, methods, rs, trailing);
    assert body == body[..2] + body[2..34] + body[34..];
  }

  lemma {:induction false} ReadMessageIsHandshake(utf8: Utf8, msg: Bytes)
    requires ParseClientHello(utf8, msg).Some?
    ensures |msg| >= 4 && |msg[4..]| < 0x100_0000 && msg == Handshake(msg[4..]) && ParseBody(utf8, msg[4..]).Some?
  {
    FromBigEndianRoundTrip(msg[1..4]);
    assert msg == [msg[0]] + msg[1..4] + msg[4..];
    var n := FromBigEndian(msg[1..4]);
    assert Fits(n, 3);
    assert Fits(n / 256, 2) && Fits(n / 256 / 256, 1) && Fits(n / 256 / 256 / 256, 0);
    hide ParseBody, BigEndian, FromBigEndian;
  }

  /** Nothing else is accepted. */
  lemma {:induction false} AcceptedHasForm(utf8: Utf8, msg: Bytes) returns (h: Form)
    requires ParseClientHello(utf8, msg).Some?
    ensures Fit(h) && FormBytes(h) == msg
  {
    ReadMessageIsHandshake(utf8, msg);
    h := ReadBodyHasForm(utf8, msg[4..]);
    hide ParseBody, ParseClientHello, FormBody, Handshake;
  }

  // ---- Inside the two extensions -----------------------------------------------------------------------------------

  /** `list length | type 0 | name | anything`. */
  predicate NameForm(body: Bytes, name: Bytes, list: Bytes, rest: Bytes) {
    |list| == 2 && |name| <= U16_MAX && body == list + [0] + (U16(|name|) + name) + rest
  }

  /** A server_name extension yields a name exactly when it has that form and the name is UTF-8. */
  lemma NameIsReadIff(utf8: Utf8, body: Bytes, name: Bytes)
    ensures ParseServerName(utf8, body) == Some(name) <==> utf8(name) && exists list, rest :: NameForm(body, name, list, rest)
  {
    if ParseServerName(utf8, body) == Some(name) {
      U16OfFromU16(body[3], body[4]);
      assert body == body[..2] + [0] + ([body[3], body[4]] + name) + body[5 + |name|..];
      assert NameForm(body, name, body[..2], body[5 + |name|..]);
    }
    if utf8(name) && exists list, rest :: NameForm(body, name, list, rest) {
      var list, rest :| NameForm(body, name, list, rest);
      var len := U16(|name|);
      assert body[2] == 0 && body[3] == len[0] && body[4] == len[1];
      assert body[5..5 + |name|] == name;
    }
  }

  /** The entries of a key_share extension are what its length prefix covers, if it is all there. */
  lemma EntriesAreReadIff(body: Bytes, entries: Bytes)
    ensures KeyShareEntries(body) == Some(entries) <==>
            |entries| <= U16_MAX && |body| >= 2 + |entries| && body[..2 + |entries|] == U16(|entries|) + entries
  {
    if KeyShareEntries(body) == Some(entries) {
      U16OfFromU16(body[0], body[1]);
      assert body[..2 + |entries|] == [body[0], body[1]] + entries;
    }
    if |entries| <= U16_MAX && |body| >= 2 + |entries| && body[..2 + |entries|] == U16(|entries|) + entries {
      var b := body[..2 + |entries|];
      assert body[0] == b[0] && body[1] == b[1] && b[2..] == entries;
      assert body[2..2 + |entries|] == b[2..];
    }
  }

  predicate Matches(r: Raw, group: nat, length: nat) {
    r.tag == group && |r.value| == length
  }

  /** The key is preceded by well-framed entries, none of them a match; what follows it does not matter. */
  predicate KeyForm(entries: Bytes, group: nat, length: nat, key: Bytes, skipped: seq<Raw>, rest: Bytes) {
    && group <= U16_MAX && |key| == length <= U16_MAX && FitRecords(skipped)
    && (forall i :: 0 <= i < |skipped| ==> !Matches(skipped[i], group, length))
    && entries == RecordsBytes(skipped) + (Tagged(group, key) + rest)
  }

  lemma {:induction false} KeyOfThatFormIsFound(entries: Bytes, group: nat, length: nat, key: Bytes, skipped: seq<Raw>, rest: Bytes)
    requires KeyForm(entries, group, length, key, skipped, rest)
    ensures FindKey(entries, group, length) == Some(key)
    decreases skipped
  {
    if skipped == [] {
      assert entries == Tagged(group, key) + rest;
      TaggedIsFront(group, key, rest);
    } else {
      var tail := RecordsBytes(skipped[1..]) + (Tagged(group, key) + rest);
      assert entries == Tagged(skipped[0].tag, skipped[0].value) + tail;
      TaggedIsFront(skipped[0].tag, skipped[0].value, tail);
      assert !Matches(skipped[0], group, length);
      KeyOfThatFormIsFound(tail, group, length, key, skipped[1..], rest);
      hide RecordsBytes, Tagged;
    }
  }

  lemma {:induction false} FoundKeyHasForm(entries: Bytes, group: nat, length: nat) returns (skipped: seq<Raw>, rest: Bytes)
    requires FindKey(entries, group, length).Some?
    ensures KeyForm(entries, group, length, FindKey(entries, group, length).value, skipped, rest)
    decreases |entries|
  {
    FrontIsTagged(entries);
    var r := Front(entries);
    if r.tag == group && |r.value| == length {
      skipped, rest := [], r.rest;
      assert RecordsBytes([]) == [];
    } else {
      var more;
      more, rest := FoundKeyHasForm(r.rest, group, length);
      skipped := [Raw(r.tag, r.value)] + more;
      assert skipped[1..] == more;
      var key := FindKey(entries, group, length).value;
      assert entries == Tagged(r.tag, r.value) + (RecordsBytes(more) + (Tagged(group, key) + rest));
    }
  }
}
