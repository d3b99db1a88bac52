/**
 The REALITY branch of a connection (`run_reality_conn` of bin/yip-rendezvous/src/tls_front.rs) up to the commit point:
 read one record, parse the hello, decide, and either serve the handshake or splice the client to the real upstream.
 */
module RealityConn {
  import opened Prelude
  import CH = ClientHello
  import R = Replay
  import G = RealityGate
  import T = TlsRecord

  /** The configuration and the parts decided elsewhere, as functions. */
  datatype Config = Config(
    utf8: CH.Utf8,
    serverNames: set<Bytes>,                 // empty accepts any name
    recover: CH.Info -> Option<nat>,         // the seal opens under a known short id: its timestamp
    hasFields: Bytes -> bool,                // stolen certificate fields cached for the name
    templateGroup: Bytes -> Option<nat>,     // negotiated group of the captured flight
    emits: CH.Info -> bool)                  // leaf, key and ServerHello could all be made

  datatype Outcome =
    | Dropped
    | Spliced(replayed: Bytes)   // upstream gets these, then whatever the client sends on
    | Served(info: CH.Info, key: Bytes)   // the handshake goes on with this x25519 key of the client

  function SelectX25519(group: nat, info: CH.Info): Option<Bytes> {
    if group == CH.GroupX25519MlKem768 then
      match info.found.mlkem case Some((_, tail)) => Some(tail) case None => None
    else if group == CH.GroupX25519 then info.found.x25519
    else None
  }

  /** What the hello would ask the replay guard, if it is authentic, fresh enough and for a name with an acceptor. */
  function Asks(c: Config, info: CH.Info, now: nat): Option<R.Call> {
    if info.found.sni == None || !(c.serverNames == {} || info.found.sni.value in c.serverNames) then None
    else if c.recover(info) == None || |info.sessionId| != 32 || !c.hasFields(info.found.sni.value) then None
    else
      var call := R.Call(info.sessionId, c.recover(info).value, now);
      if G.InSkew(call) then Some(call) else None
  }

  /** Everything that may still fail after the guard has said yes and before the first byte is written. */
  predicate CanCommit(c: Config, info: CH.Info) {
    && info.found.sni.Some? && c.templateGroup(info.found.sni.value).Some?
    && SelectX25519(c.templateGroup(info.found.sni.value).value, info).Some?
    && c.emits(info)
  }

  /** The hello in the first record of a stream, if there is one. */
  function Heard(c: Config, stream: Bytes): Option<CH.Info> {
    match T.RecordOf(stream)
    case Complete(record) => CH.ParseClientHello(c.utf8, record[5..])
    case _ => None
  }

  function Call(c: Config, stream: Bytes, now: nat): Option<R.Call> {
    match Heard(c, stream)
    case Some(info) => Asks(c, info, now)
    case None => None
  }

  /** The stream is answered here, on a guard in this state. */
  predicate Serves(c: Config, g: R.Guard, stream: Bytes, now: nat)
    requires R.Shaped(g)
  {
    && Heard(c, stream).Some? && CanCommit(c, Heard(c, stream).value)
    && Call(c, stream, now).Some? && R.Verdicts(g, Call(c, stream, now).value) == R.Fresh
  }

  /**
   Splice transparency: whenever the connection goes upstream, upstream receives exactly the client's stream, also what is
   sent after the deadline; it is dropped iff nothing arrived before, and served only if the guard found its seal fresh.
   */
  method RunRealityConn(tcp: T.Socket, guard: R.ReplayGuard, c: Config, now: nat) returns (out: Outcome)
    requires tcp.Valid() && guard.Valid()
    modifies tcp, guard, guard.buckets
    ensures out == Dropped <==> old(tcp.Timely()) == []
    ensures out.Spliced? ==> out.replayed + tcp.Unread() == old(tcp.Unread())
    ensures
      var call := Call(c, old(tcp.Timely()), now);
      guard.Abs() == if call.Some? then R.Check(old(guard.Abs()), call.value) else old(guard.Abs())
    ensures out.Served? <==> Serves(c, old(guard.Abs()), old(tcp.Timely()), now)
    ensures out.Served? ==>
              && Heard(c, old(tcp.Timely())) == Some(out.info) && out.info.found.sni.Some?
              && c.templateGroup(out.info.found.sni.value).Some?
              && SelectX25519(c.templateGroup(out.info.found.sni.value).value, out.info) == Some(out.key)
  {
    hide CH.ParseClientHello, R.Check, R.Verdicts;
    var record := tcp.ReadFirstTlsRecord();
    match record {
      case Empty => return Dropped;
      case Passthrough(bytes) => return Spliced(bytes);
      case Complete(rec) =>
        var info := CH.ParseClientHello(c.utf8, rec[5..]);
        if info.Some? {
          var call := Asks(c, info.value, now);
          if call.Some? {
            var verdict := guard.CheckSeal(call.value.seal, call.value.ts, call.value.now);
            if verdict == R.Fresh && CanCommit(c, info.value) {
              var group := c.templateGroup(info.value.found.sni.value).value;
              return Served(info.value, SelectX25519(group, info.value).value);
            }
          }
        }
        return Spliced(rec);
    }
  }

  // ---- Who is served -----------------------------------------------------------------------------------------------

  predicate EndsWith(whole: Bytes, n: nat, tail: Bytes) {
    n <= |whole| && whole[n..] == tail
  }

  /** The key share the negotiated group calls for: the x25519 part of the first hybrid key, or the first plain key. */
  predicate BringsKey(h: CH.Hello, group: nat, key: Bytes) {
    exists j ::
      && 0 <= j < |h.extensions| && h.extensions[j].KeyShare?
      && var entries := h.extensions[j].entries;
         || (group == 4588 && CH.FirstKey(entries, 4588, 1216).Some? && EndsWith(CH.FirstKey(entries, 4588, 1216).value, 1184, key))
         || (group == 29 && CH.FirstKey(entries, 0x001d, 32) == Some(key))
  }

  /** Name, seal and freshness: an allowed name with cached fields, a 32-byte seal that opens to a time within 10 minutes. */
  predicate Authentic(c: Config, h: CH.Hello, info: CH.Info, host: Bytes, now: nat) {
    && c.utf8(host) && (c.serverNames == {} || host in c.serverNames) && c.hasFields(host)
    && |h.sessionId| == 32
    && c.recover(info).Some? && c.recover(info).value <= now + 10 && now <= c.recover(info).value + 10
  }

  lemma KeyIsSelected(utf8: CH.Utf8, h: CH.Hello, found: CH.Found, info: CH.Info, group: nat, key: Bytes)
    requires CH.NoRepeats(h.extensions) && CH.Reads(utf8, h.extensions, found) && info.found == found
    ensures SelectX25519(group, info) == Some(key) <==> BringsKey(h, group, key)
  {
    if exists j :: 0 <= j < |h.extensions| && h.extensions[j].KeyShare? {
      var j :| 0 <= j < |h.extensions| && h.extensions[j].KeyShare?;
      var entries := h.extensions[j].entries;
      assert CH.ReadsKeys(entries, found);
      assert forall i :: 0 <= i < |h.extensions| && h.extensions[i].KeyShare? ==> i == j;
      if found.mlkem.Some? {
        var hybrid := CH.FirstKey(entries, 4588, 1216).value;
        assert hybrid[1184..] == found.mlkem.value.1;
      }
      hide CH.FirstKey, CH.Reads;
    }
  }

  lemma {:induction false} RecordedHelloIsHeard(c: Config, h: CH.Hello, kind: Byte, version: Bytes, rest: Bytes) returns (info: CH.Info)
    requires CH.WellFormed(h) && CH.NoRepeats(h.extensions) && |CH.Serialise(h)| <= 16_384 && |version| == 2
    ensures Heard(c, T.RecordBytes(kind, version, CH.Serialise(h)) + rest) == Some(info)
    ensures info.sessionId == h.sessionId && CH.Reads(c.utf8, h.extensions, info.found)
  {
    hide CH.WellFormed, CH.Serialise, CH.Reads, CH.ParseClientHello, T.RecordOf;
    T.WholeRecordIsComplete(kind, version, CH.Serialise(h), rest);
    T.HeaderOf(kind, version, CH.Serialise(h), rest);
    CH.HelloFieldsAreRecovered(c.utf8, h);
    info := CH.ParseClientHello(c.utf8, CH.Serialise(h)).value;
    hide T.RecordBytes;
  }

  /**
   Who is served: the client that sends, in one record and whatever behind it, a hello without repeated extensions is
   served if and only if its name, its seal and its key shares say so and the guard finds the seal fresh.
   */
  lemma {:induction false} HelloIsServedIff(c: Config, g: R.Guard, h: CH.Hello, kind: Byte, version: Bytes, rest: Bytes, now: nat)
    returns (info: CH.Info)
    requires R.Shaped(g)
    requires CH.WellFormed(h) && CH.NoRepeats(h.extensions) && |CH.Serialise(h)| <= 16_384 && |version| == 2
    ensures Heard(c, T.RecordBytes(kind, version, CH.Serialise(h)) + rest) == Some(info)
    ensures Serves(c, g, T.RecordBytes(kind, version, CH.Serialise(h)) + rest, now) <==>
            exists i ::
              && 0 <= i < |h.extensions| && h.extensions[i].ServerName?
              && var host := h.extensions[i].host;
                 && Authentic(c, h, info, host, now)
                 && R.Verdicts(g, R.Call(h.sessionId, c.recover(info).value, now)) == R.Fresh
                 && c.templateGroup(host).Some? && (exists key :: BringsKey(h, c.templateGroup(host).value, key)) && c.emits(info)
  {
    hide CH.WellFormed, CH.Serialise, T.RecordBytes, CH.Reads, R.Verdicts;
    info := RecordedHelloIsHeard(c, h, kind, version, rest);
    ServedByName(c, g, h, info, now);
    hide Heard, CanCommit, Asks;
  }

  lemma ServedByName(c: Config, g: R.Guard, h: CH.Hello, info: CH.Info, now: nat)
    requires R.Shaped(g) && CH.NoRepeats(h.extensions) && info.sessionId == h.sessionId && CH.Reads(c.utf8, h.extensions, info.found)
    ensures CanCommit(c, info) && Asks(c, info, now).Some? && R.Verdicts(g, Asks(c, info, now).value) == R.Fresh <==>
            exists i ::
              && 0 <= i < |h.extensions| && h.extensions[i].ServerName?
              && var host := h.extensions[i].host;
                 && Authentic(c, h, info, host, now)
                 && R.Verdicts(g, R.Call(h.sessionId, c.recover(info).value, now)) == R.Fresh
                 && c.templateGroup(host).Some? && (exists key :: BringsKey(h, c.templateGroup(host).value, key)) && c.emits(info)
  {
    if exists i :: 0 <= i < |h.extensions| && h.extensions[i].ServerName? {
      var i :| 0 <= i < |h.extensions| && h.extensions[i].ServerName?;
      var host := h.extensions[i].host;
      assert info.found.sni == if c.utf8(host) then Some(host) else None;
      assert forall k :: 0 <= k < |h.extensions| && h.extensions[k].ServerName? ==> k == i;
      if c.templateGroup(host).Some? {
        var group := c.templateGroup(host).value;
        forall key
          ensures SelectX25519(group, info) == Some(key) <==> BringsKey(h, group, key)
        {
          KeyIsSelected(c.utf8, h, info.found, info, group, key);
        }
        if SelectX25519(group, info).Some? {
          assert BringsKey(h, group, SelectX25519(group, info).value);
        }
      }
      hide CH.Reads, R.Verdicts, BringsKey, SelectX25519;
    } else {
      assert info.found.sni == None;
    }
  }
}
