/**
 The ClientHello parser of bin/yip-rendezvous/src/reality.rs, against the serialisation of section 4.1.2 of RFC 8446
 (key_share: section 4.2.8; server_name: section 3 of RFC 6066). UTF-8 validity is an opaque predicate on bytes.
 */
module ClientHello {
  import opened Prelude
  import opened Wire

  const ExtServerName: nat := 0x0000
  const ExtKeyShare: nat := 0x0033
  const GroupX25519: nat := 0x001d
  const GroupX25519MlKem768: nat := 4588
  const MlKemEkLen: nat := 1184
  const MlKemKeyLen: nat := 1216
  const TypeClientHello: nat := 1

  type Utf8 = Bytes -> bool

  /** What the extensions contribute. */
  datatype Found = Found(sni: Option<Bytes>, x25519: Option<Bytes>, mlkem: Option<(Bytes, Bytes)>)
  datatype Info = Info(random: Bytes, sessionId: Bytes, found: Found)

  const Nothing: Found := Found(None, None, None)

  // ---- The parser ------------------------------------------------------------------------------------------------

  function ParseServerName(utf8: Utf8, body: Bytes): Option<Bytes> {
    if |body| < 3 || body[2] != 0 || |body| < 5 || |body| < 5 + FromU16(body[3], body[4]) then None else
      var name := body[5..5 + FromU16(body[3], body[4])];
      if utf8(name) then Some(name) else None
  }

  /** A `u16 tag | u16 len | value` record at the front of the buffer, and what follows it. */
  datatype Record = Malformed | Record(tag: nat, value: Bytes, rest: Bytes)

  function Front(b: Bytes): Record {
    if |b| < 4 || |b| < 4 + FromU16(b[2], b[3]) then Malformed else
      var end := 4 + FromU16(b[2], b[3]);
      Record(FromU16(b[0], b[1]), b[4..end], b[end..])
  }

  /** The first entry of this group and key length; nothing behind a malformed entry is looked at. */
  function FindKey(entries: Bytes, group: nat, length: nat): Option<Bytes>
    decreases |entries|
  {
    if entries == [] || Front(entries).Malformed? then None else
      var r := Front(entries);
      if r.tag == group && |r.value| == length then Some(r.value) else FindKey(r.rest, group, length)
  }

  function KeyShareEntries(body: Bytes): Option<Bytes> {
    if |body| < 2 || |body| < 2 + FromU16(body[0], body[1]) then None else Some(body[2..2 + FromU16(body[0], body[1])])
  }

  function ParseKeyShare(body: Bytes, group: nat, length: nat): Option<Bytes> {
    match KeyShareEntries(body)
    case None => None
    case Some(entries) => FindKey(entries, group, length)
  }

  function ParseMlKem(body: Bytes): Option<(Bytes, Bytes)> {
    match ParseKeyShare(body, GroupX25519MlKem768, MlKemKeyLen)
    case Some(key) => if |key| == MlKemKeyLen then Some((key[..MlKemEkLen], key[MlKemEkLen..])) else None
    case None => None
  }

  function OnExtension(utf8: Utf8, found: Found, kind: nat, body: Bytes): Found {
    if kind == ExtServerName then found.(sni := ParseServerName(utf8, body))
    else if kind == ExtKeyShare then
      found.(x25519 := ParseKeyShare(body, GroupX25519, 32),
             mlkem := if ParseMlKem(body).Some? then ParseMlKem(body) else found.mlkem)
    else found
  }

  function ParseExtensions(utf8: Utf8, buf: Bytes, found: Found): Option<Found>
    decreases |buf|
  {
    if buf == [] then Some(found)
    else match Front(buf)
         case Malformed => None
         case Record(kind, body, rest) => ParseExtensions(utf8, rest, OnExtension(utf8, found, kind, body))
  }

  /** A `u8 len | value` or `u16 len | value` vector at the front of the buffer. */
  function Vector(b: Bytes, width: nat): Option<(Bytes, Bytes)>
    requires width == 1 || width == 2
  {
    if |b| < width then None else
      var len := if width == 1 then b[0] as nat else FromU16(b[0], b[1]);
      if |b| < width + len then None else Some((b[width..width + len], b[width + len..]))
  }

  function ParseBody(utf8: Utf8, body: Bytes): Option<Info> {
    if |body| < 34 then None else
      match Vector(body[34..], 1)
      case None => None
      case Some((sessionId, afterId)) =>
        match Vector(afterId, 2)
        case None => None
        case Some((_, afterSuites)) =>
          match Vector(afterSuites, 1)
          case None => None
          case Some((_, afterMethods)) =>
            match Vector(afterMethods, 2)
            case None => None
            case Some((extensions, _)) =>
              match ParseExtensions(utf8, extensions, Nothing)
              case None => None
              case Some(found) => Some(Info(body[2..34], sessionId, found))
  }

  function ParseClientHello(utf8: Utf8, msg: Bytes): Option<Info> {
    if |msg| < 4 || msg[0] != TypeClientHello || 4 + FromBigEndian(msg[1..4]) != |msg| then None
    else ParseBody(utf8, msg[4..])
  }

  // ---- The loops of the source -----------------------------------------------------------------------------------

  /** `parse_key_share_x25519` and `parse_key_share_mlkem768` scan alike; every turn strictly shrinks `entries`. */
  method ScanKeyShare(body: Bytes, group: nat, length: nat) returns (key: Option<Bytes>)
    ensures key == ParseKeyShare(body, group, length)
    ensures key.Some? ==> |key.value| == length
  {
    if |body| < 2 {
      return None;
    }
    var sharesLen := FromU16(body[0], body[1]);
    if |body| < 2 + sharesLen {
      return None;
    }
    var entries := body[2..2 + sharesLen];
    while entries != []
      invariant FindKey(entries, group, length) == ParseKeyShare(body, group, length)
      decreases |entries|
    {
      if |entries| < 4 {
        return None;
      }
      var g := FromU16(entries[0], entries[1]);
      var keyLen := FromU16(entries[2], entries[3]);
      if |entries| < 4 + keyLen {
        return None;
      }
      if g == group && keyLen == length {
        return Some(entries[4..4 + keyLen]);
      }
      entries := entries[4 + keyLen..];
    }
    return None;
  }

  method WalkExtensions(utf8: Utf8, extensions: Bytes) returns (r: Option<Found>)
    ensures r == ParseExtensions(utf8, extensions, Nothing)
  {
    var buf := extensions;
    var sni, x25519, mlkem := None, None, None;
    while buf != []
      invariant ParseExtensions(utf8, buf, Found(sni, x25519, mlkem)) == ParseExtensions(utf8, extensions, Nothing)
      decreases |buf|
    {
      if |buf| < 4 {
        return None;
      }
      var kind, len := FromU16(buf[0], buf[1]), FromU16(buf[2], buf[3]);
      if |buf| < 4 + len {
        return None;
      }
      var body := buf[4..4 + len];
      if kind == ExtServerName {
        sni := ParseServerName(utf8, body);
      } else if kind == ExtKeyShare {
        x25519 := ScanKeyShare(body, GroupX25519, 32);
        var hybrid := ScanKeyShare(body, GroupX25519MlKem768, MlKemKeyLen);
        if hybrid.Some? {
          mlkem := Some((hybrid.value[..MlKemEkLen], hybrid.value[MlKemEkLen..]));
        }
      }
      buf := buf[4 + len..];
    }
    return Some(Found(sni, x25519, mlkem));
  }

  // ---- The serialisation -----------------------------------------------------------------------------------------

  datatype KeyEntry = KeyEntry(group: nat, key: Bytes)
  datatype Extension = ServerName(host: Bytes) | KeyShare(entries: seq<KeyEntry>) | Other(kind: nat, body: Bytes)
  datatype Hello = Hello(version: Bytes, random: Bytes, sessionId: Bytes, suites: Bytes, methods: Bytes, extensions: seq<Extension>)

  function Tagged(tag: nat, value: Bytes): Bytes
    requires tag <= U16_MAX && |value| <= U16_MAX
  {
    U16(tag) + U16(|value|) + value
  }

  predicate FitEntries(entries: seq<KeyEntry>) {
    forall i :: 0 <= i < |entries| ==> entries[i].group <= U16_MAX && |entries[i].key| <= U16_MAX
  }

  function EntriesBytes(entries: seq<KeyEntry>): Bytes
    requires FitEntries(entries)
  {
    if entries == [] then [] else Tagged(entries[0].group, entries[0].key) + EntriesBytes(entries[1..])
  }

  function Kind(e: Extension): nat {
    match e
    case ServerName(_) => 0x0000
    case KeyShare(_) => 0x0033
    case Other(kind, _) => kind
  }

  /** Lengths fit their prefixes, and an extension of another kind does not pose as one of the two. */
  predicate FitExtension(e: Extension) {
    match e
    case ServerName(host) => |host| + 5 <= U16_MAX
    case KeyShare(entries) => FitEntries(entries) && |EntriesBytes(entries)| + 2 <= U16_MAX
    case Other(kind, body) => kind <= U16_MAX && kind != 0x0000 && kind != 0x0033 && |body| <= U16_MAX
  }

  function ExtensionBody(e: Extension): (b: Bytes)
    requires FitExtension(e)
    ensures |b| <= U16_MAX
  {
    match e
    case ServerName(host) => U16(|host| + 3) + [0] + U16(|host|) + host
    case KeyShare(entries) => U16(|EntriesBytes(entries)|) + EntriesBytes(entries)
    case Other(_, body) => body
  }

  predicate FitExtensions(es: seq<Extension>) {
    forall i :: 0 <= i < |es| ==> FitExtension(es[i])
  }

  function ExtensionsBytes(es: seq<Extension>): Bytes
    requires FitExtensions(es)
  {
    if es == [] then [] else Tagged(Kind(es[0]), ExtensionBody(es[0])) + ExtensionsBytes(es[1..])
  }

  predicate WellFormed(h: Hello) {
    && |h.version| == 2 && |h.random| == 32
    && |h.sessionId| <= 255 && |h.suites| <= U16_MAX && |h.methods| <= 255
    && FitExtensions(h.extensions) && |ExtensionsBytes(h.extensions)| <= U16_MAX
  }

  function Opaque(value: Bytes, width: nat): Bytes
    requires (width == 1 && |value| <= 255) || (width == 2 && |value| <= U16_MAX)
  {
    (if width == 1 then [|value|] else U16(|value|)) + value
  }

  function Body(h: Hello): Bytes
    requires WellFormed(h)
  {
    h.version + h.random +
    (Opaque(h.sessionId, 1) + (Opaque(h.suites, 2) + (Opaque(h.methods, 1) + Opaque(ExtensionsBytes(h.extensions), 2))))
  }

  function Serialise(h: Hello): Bytes
    requires WellFormed(h)
  {
    Handshake(Body(h))
  }

  /** The handshake header: message type and a 24-bit length. */
  function Handshake(body: Bytes): Bytes {
    [1] + BigEndian(|body|, 3) + body
  }

  // ---- Round trip ------------------------------------------------------------------------------------------------

  lemma TaggedIsFront(tag: nat, value: Bytes, rest: Bytes)
    requires tag <= U16_MAX && |value| <= U16_MAX
    ensures Front(Tagged(tag, value) + rest) == Record(tag, value, rest)
  {
    var b := Tagged(tag, value) + rest;
    assert b[..4] == U16(tag) + U16(|value|);
    assert b[0] == U16(tag)[0] && b[1] == U16(tag)[1] && b[2] == U16(|value|)[0] && b[3] == U16(|value|)[1];
    assert b[4..4 + |value|] == value && b[4 + |value|..] == rest;
  }

  lemma OpaqueIsVector(value: Bytes, width: nat, rest: Bytes)
    requires (width == 1 && |value| <= 255) || (width == 2 && |value| <= U16_MAX)
    ensures Vector(Opaque(value, width) + rest, width) == Some((value, rest))
  {
    var b := Opaque(value, width) + rest;
    assert b[0] == Opaque(value, width)[0] && (width == 2 ==> b[1] == Opaque(value, width)[1]);
    assert b[width..width + |value|] == value && b[width + |value|..] == rest;
  }

  /** The first entry with this group and key length, as a list of entries. */
  function FirstKey(entries: seq<KeyEntry>, group: nat, length: nat): Option<Bytes> {
    if entries == [] then None
    else if entries[0].group == group && |entries[0].key| == length then Some(entries[0].key)
    else FirstKey(entries[1..], group, length)
  }

  lemma {:induction false} EntriesRoundTrip(entries: seq<KeyEntry>, group: nat, length: nat)
    requires FitEntries(entries)
    ensures FindKey(EntriesBytes(entries), group, length) == FirstKey(entries, group, length)
  {
    if entries != [] {
      TaggedIsFront(entries[0].group, entries[0].key, EntriesBytes(entries[1..]));
      EntriesRoundTrip(entries[1..], group, length);
    }
  }

  /** What an extension contributes, read off the value. */
  function Contribution(utf8: Utf8, found: Found, e: Extension): Found {
    match e
    case ServerName(host) => found.(sni := if utf8(host) then Some(host) else None)
    case KeyShare(entries) =>
      var hybrid := FirstKey(entries, GroupX25519MlKem768, MlKemKeyLen);
      found.(x25519 := FirstKey(entries, GroupX25519, 32),
             mlkem := if hybrid.Some? && |hybrid.value| == MlKemKeyLen
                      then Some((hybrid.value[..MlKemEkLen], hybrid.value[MlKemEkLen..])) else found.mlkem)
    case Other(_, _) => found
  }

  function Contributions(utf8: Utf8, found: Found, es: seq<Extension>): Found
    decreases es
  {
    if es == [] then found else Contributions(utf8, Contribution(utf8, found, es[0]), es[1..])
  }

  lemma ServerNameRoundTrip(utf8: Utf8, host: Bytes)
    requires FitExtension(ServerName(host))
    ensures ParseServerName(utf8, ExtensionBody(ServerName(host))) == if utf8(host) then Some(host) else None
  {
    var b, len := ExtensionBody(ServerName(host)), U16(|host|);
    assert b == (U16(|host| + 3) + [0] + len) + host;
    assert b[2] == 0 && b[3] == len[0] && b[4] == len[1];
    assert b[5..5 + |host|] == host;
  }

  lemma KeyShareRoundTrip(entries: seq<KeyEntry>)
    requires FitExtension(KeyShare(entries))
    ensures KeyShareEntries(ExtensionBody(KeyShare(entries))) == Some(EntriesBytes(entries))
  {
    var bytes := EntriesBytes(entries);
    var b := ExtensionBody(KeyShare(entries));
    hide EntriesBytes;
    assert b[0] == U16(|bytes|)[0] && b[1] == U16(|bytes|)[1];
    assert b[2..2 + |bytes|] == bytes;
  }

  lemma ExtensionRoundTrip(utf8: Utf8, found: Found, e: Extension)
    requires FitExtension(e)
    ensures OnExtension(utf8, found, Kind(e), ExtensionBody(e)) == Contribution(utf8, found, e)
  {
    match e {
      case ServerName(host) => ServerNameRoundTrip(utf8, host);
      case KeyShare(entries) =>
        KeyShareRoundTrip(entries);
        EntriesRoundTrip(entries, GroupX25519, 32);
        EntriesRoundTrip(entries, GroupX25519MlKem768, MlKemKeyLen);
      case Other(kind, body) =>
    }
    hide ParseServerName, ExtensionBody, FindKey, EntriesBytes, FirstKey;
  }

  lemma {:induction false} ExtensionsRoundTrip(utf8: Utf8, found: Found, es: seq<Extension>)
    requires FitExtensions(es)
    ensures ParseExtensions(utf8, ExtensionsBytes(es), found) == Some(Contributions(utf8, found, es))
    decreases es
  {
    if es != [] {
      TaggedIsFront(Kind(es[0]), ExtensionBody(es[0]), ExtensionsBytes(es[1..]));
      ExtensionRoundTrip(utf8, found, es[0]);
      hide Tagged, Kind, ExtensionBody, OnExtension, Contribution, FitExtension;
      ExtensionsRoundTrip(utf8, Contribution(utf8, found, es[0]), es[1..]);
    }
  }

  lemma BodyRoundTrip(utf8: Utf8, h: Hello)
    requires WellFormed(h)
    ensures ParseBody(utf8, Body(h)) == Some(Info(h.random, h.sessionId, Contributions(utf8, Nothing, h.extensions)))
  {
    var exts := ExtensionsBytes(h.extensions);
    var d := Opaque(exts, 2);
    var c := Opaque(h.methods, 1) + d;
    var b := Opaque(h.suites, 2) + c;
    assert Body(h)[2..34] == h.random;
    assert Body(h)[34..] == Opaque(h.sessionId, 1) + b;
    OpaqueIsVector(h.sessionId, 1, b);
    OpaqueIsVector(h.suites, 2, c);
    OpaqueIsVector(h.methods, 1, d);
    assert d + [] == d;
    OpaqueIsVector(exts, 2, []);
    ExtensionsRoundTrip(utf8, Nothing, h.extensions);
  }

  /** Round trip: every well-formed ClientHello, with any extensions in any order, is recovered from its serialisation. */
  lemma {:induction false} HelloRoundTrip(utf8: Utf8, h: Hello)
    requires WellFormed(h)
    ensures ParseClientHello(utf8, Serialise(h)) ==
            Some(Info(h.random, h.sessionId, Contributions(utf8, Nothing, h.extensions)))
  {
    BodyRoundTrip(utf8, h);
    BodyFits(h);
    HandshakeRoundTrip(utf8, Body(h));
  }

  lemma BodyFits(h: Hello)
    requires WellFormed(h)
    ensures |Body(h)| < 0x100_0000
  {
  }

  lemma HandshakeRoundTrip(utf8: Utf8, body: Bytes)
    requires |body| < 0x100_0000
    ensures ParseClientHello(utf8, Handshake(body)) == ParseBody(utf8, body)
  {
    var msg := Handshake(body);
    assert Fits(|body|, 3) by {
      assert Fits(|body| / 256 / 256 / 256, 0);
      assert Fits(|body| / 256 / 256, 1);
      assert Fits(|body| / 256, 2);
    }
    BigEndianRoundTrip(|body|, 3);
    assert msg[1..4] == BigEndian(|body|, 3);
    assert msg[4..] == body;
  }

  // ---- Without repeated extensions -------------------------------------------------------------------------------

  predicate NoRepeats(es: seq<Extension>) {
    forall i, j :: 0 <= i < j < |es| ==> Kind(es[i]) != Kind(es[j])
  }

  lemma {:induction false} UntouchedBy(utf8: Utf8, found: Found, es: seq<Extension>)
    requires FitExtensions(es)
    ensures (forall i :: 0 <= i < |es| ==> !es[i].ServerName?) ==> Contributions(utf8, found, es).sni == found.sni
    ensures (forall i :: 0 <= i < |es| ==> !es[i].KeyShare?) ==>
              Contributions(utf8, found, es).x25519 == found.x25519 && Contributions(utf8, found, es).mlkem == found.mlkem
    decreases es
  {
    if es != [] {
      UntouchedBy(utf8, Contribution(utf8, found, es[0]), es[1..]);
    }
  }

  /** The one server_name extension gives the host name. */
  lemma {:induction false} HostNameIsFound(utf8: Utf8, found: Found, es: seq<Extension>, i: nat)
    requires FitExtensions(es) && NoRepeats(es) && i < |es| && es[i].ServerName?
    ensures Contributions(utf8, found, es).sni == if utf8(es[i].host) then Some(es[i].host) else None
    decreases es
  {
    var found' := Contribution(utf8, found, es[0]);
    if i == 0 {
      assert forall j :: 0 <= j < |es[1..]| ==> Kind(es[1..][j]) != Kind(es[0]);
      UntouchedBy(utf8, found', es[1..]);
    } else {
      HostNameIsFound(utf8, found', es[1..], i - 1);
    }
  }

  /** The one key_share extension gives the first 32-byte x25519 key and the 1184/32 split of the first 1216-byte hybrid key. */
  lemma {:induction false} KeysAreFound(utf8: Utf8, found: Found, es: seq<Extension>, i: nat)
    requires FitExtensions(es) && NoRepeats(es) && i < |es| && es[i].KeyShare?
    ensures
      var r, hybrid := Contributions(utf8, found, es), FirstKey(es[i].entries, GroupX25519MlKem768, MlKemKeyLen);
      && r.x25519 == FirstKey(es[i].entries, GroupX25519, 32)
      && (hybrid.Some? ==> r.mlkem.Some? && |r.mlkem.value.0| == 1184 && |r.mlkem.value.1| == 32
                           && r.mlkem.value.0 + r.mlkem.value.1 == hybrid.value)
      && (hybrid == None && found.mlkem == None ==> r.mlkem == None)
    decreases es
  {
    var found' := Contribution(utf8, found, es[0]);
    if i == 0 {
      assert forall j :: 0 <= j < |es[1..]| ==> Kind(es[1..][j]) != Kind(es[0]);
      UntouchedBy(utf8, found', es[1..]);
      FirstKeyLength(es[0].entries, GroupX25519MlKem768, MlKemKeyLen);
    } else {
      KeysAreFound(utf8, found', es[1..], i - 1);
    }
  }

  lemma {:induction false} FirstKeyLength(entries: seq<KeyEntry>, group: nat, length: nat)
    ensures FirstKey(entries, group, length).Some? ==> |FirstKey(entries, group, length).value| == length
  {
    if entries != [] {
      FirstKeyLength(entries[1..], group, length);
    }
  }

  /** The hello has at most one of each, and these are what a client that sent `es` wants read. */
  predicate Reads(utf8: Utf8, es: seq<Extension>, r: Found) {
    && (forall i :: 0 <= i < |es| && es[i].ServerName? ==> r.sni == if utf8(es[i].host) then Some(es[i].host) else None)
    && ((forall i :: 0 <= i < |es| ==> !es[i].ServerName?) ==> r.sni == None)
    && (forall i :: 0 <= i < |es| && es[i].KeyShare? ==> ReadsKeys(es[i].entries, r))
    && ((forall i :: 0 <= i < |es| ==> !es[i].KeyShare?) ==> r.x25519 == None && r.mlkem == None)
  }

  /** The first 32-byte x25519 key, and the first 1216-byte hybrid key cut into 1184 and 32 bytes. */
  predicate ReadsKeys(entries: seq<KeyEntry>, r: Found) {
    var hybrid := FirstKey(entries, 4588, 1216);
    && r.x25519 == FirstKey(entries, 0x001d, 32)
    && (r.mlkem.Some? <==> hybrid.Some?)
    && (hybrid.Some? ==> |r.mlkem.value.0| == 1184 && |r.mlkem.value.1| == 32 && r.mlkem.value.0 + r.mlkem.value.1 == hybrid.value)
  }

  lemma {:induction false} ContributionsRead(utf8: Utf8, es: seq<Extension>)
    requires FitExtensions(es) && NoRepeats(es)
    ensures Reads(utf8, es, Contributions(utf8, Nothing, es))
  {
    var r := Contributions(utf8, Nothing, es);
    UntouchedBy(utf8, Nothing, es);
    forall i | 0 <= i < |es| && es[i].ServerName?
      ensures r.sni == if utf8(es[i].host) then Some(es[i].host) else None
    {
      HostNameIsFound(utf8, Nothing, es, i);
    }
    forall i | 0 <= i < |es| && es[i].KeyShare?
      ensures ReadsKeys(es[i].entries, r)
    {
      KeysAreFound(utf8, Nothing, es, i);
    }
    hide Contributions, FitExtensions, FirstKey;
  }

  /** End to end: parsing the serialisation of a hello without repeated extensions reads exactly what was put in. */
  lemma {:induction false} HelloFieldsAreRecovered(utf8: Utf8, h: Hello)
    requires WellFormed(h) && NoRepeats(h.extensions)
    ensures ParseClientHello(utf8, Serialise(h)).Some?
    ensures
      var info := ParseClientHello(utf8, Serialise(h)).value;
      info.random == h.random && info.sessionId == h.sessionId && Reads(utf8, h.extensions, info.found)
  {
    HelloRoundTrip(utf8, h);
    ContributionsRead(utf8, h.extensions);
    hide ParseClientHello, Serialise, Contributions, Reads;
  }
}
