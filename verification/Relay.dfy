/**
 One relay connection from its first byte (`read_and_classify` and `handle_connection` of
 bin/yip-rendezvous/src/conn.rs, `run_tunnel` of conn_tunnel.rs): classify the first frame, hand what was read past it to
 the tunnel or replay everything to the decoy. The bytes arrive in arbitrary chunks.
 */
module Relay {
  import opened Prelude
  import opened Wire
  import opened Framing

  type NodeId(==, !new)

  /** How the reads end when the chunks run out. */
  datatype Ending = Closed | Failed | TimedOut
  datatype Decision = Upgrade(node: NodeId, reply: Bytes) | Decoy | Undecided
  /** An admitted first message: the node it registers and the framed reply. */
  datatype Admission = Admission(node: NodeId, reply: Bytes)
  /** Deobfuscation, decoding and the server's freshness test of the first envelope. */
  type Admit = Bytes -> Option<Admission>

  function Admitted(admit: Admit, env: Bytes): Decision {
    match admit(env)
    case Some(a) => Upgrade(a.node, a.reply)
    case None => Decoy
  }

  /** `classify_first_frame_at`: only the first frame counts, and anything short of one is for the decoy. */
  function ClassifyFirstFrame(admit: Admit, buf: Bytes): Decision {
    if |buf| < 2 then Decoy else
      var len := FromU16(buf[0], buf[1]);
      if len == 0 || len > FrameCap then Decoy
      else if |buf| < 2 + len then Decoy
      else Admitted(admit, buf[2..2 + len])
  }

  // ---- The whole stream at once ----------------------------------------------------------------------------------

  function WholeDecision(admit: Admit, stream: Bytes, ending: Ending): Decision {
    match Split(stream)
    case Complete(env, rest) => Admitted(admit, env)
    case BadLength => Decoy
    case Incomplete => if ending == TimedOut then Undecided else Decoy
  }

  /** What becomes of a connection's bytes: some are parsed as tunnel frames, or all of them are replayed to the decoy. */
  datatype Handled = Tunnelled(decision: Decision, reader: Reader) | Proxied(decision: Decision, bytes: Bytes)

  function WholeConnection(admit: Admit, o: Oracle, stream: Bytes, ending: Ending): Handled {
    var decision := WholeDecision(admit, stream, ending);
    if decision.Upgrade? then Tunnelled(decision, Drain(o, Start(Split(stream).rest)))
    else Proxied(decision, stream)
  }

  // ---- Chunk by chunk --------------------------------------------------------------------------------------------

  /** A whole frame, or a length that cannot be one, decides: what follows does not matter. */
  lemma FrontDecides(admit: Admit, buf: Bytes, more: Bytes, ending: Ending)
    requires |buf| >= 2
    ensures
      var len := FromU16(buf[0], buf[1]);
      && (0 < len <= FrameCap && |buf| >= 2 + len ==>
            Split(buf).Complete? && WholeDecision(admit, buf + more, ending) == ClassifyFirstFrame(admit, buf))
      && (len == 0 || len > FrameCap ==> WholeDecision(admit, buf + more, ending) == Decoy)
  {
    SplitAppend(buf, more);
  }

  /** Anything less leaves it to how the reads end. */
  lemma EndingDecides(admit: Admit, buf: Bytes, ending: Ending)
    requires |buf| >= 2 ==> var len := FromU16(buf[0], buf[1]); 0 < len <= FrameCap && |buf| < 2 + len
    ensures WholeDecision(admit, buf, ending) == if ending == TimedOut then Undecided else Decoy
  {
  }

  lemma {:induction false} NextChunk(buf: Bytes, chunks: seq<Bytes>, read: nat)
    requires read < |chunks|
    ensures buf + Concat(chunks[read..]) == buf + chunks[read] + Concat(chunks[read + 1..])
  {
    assert chunks[read..][0] == chunks[read] && chunks[read..][1..] == chunks[read + 1..];
  }

  /** The decision is that of the whole stream, however it was cut, and every byte is either buffered or still unread. */
  method ReadAndClassify(admit: Admit, chunks: seq<Bytes>, ending: Ending)
    returns (decision: Decision, buf: Bytes, read: nat)
    ensures read <= |chunks| && buf + Concat(chunks[read..]) == Concat(chunks)
    ensures decision == WholeDecision(admit, Concat(chunks), ending)
    ensures decision.Upgrade? ==> Split(buf).Complete?
  {
    buf, read := [], 0;
    assert chunks[0..] == chunks;
    hide Split, WholeDecision;
    while true
      invariant read <= |chunks| && buf + Concat(chunks[read..]) == Concat(chunks)
      decreases |chunks| - read
    {
      if |buf| >= 2 {
        FrontDecides(admit, buf, Concat(chunks[read..]), ending);
        var len := FromU16(buf[0], buf[1]);
        if len > 0 && len <= FrameCap && |buf| >= 2 + len {
          decision := ClassifyFirstFrame(admit, buf);
          return;
        }
        if len == 0 || len > FrameCap {
          return Decoy, buf, read;
        }
      }
      if read == |chunks| {
        assert Concat(chunks[read..]) == [] && buf == Concat(chunks);
        EndingDecides(admit, buf, ending);
        return if ending == TimedOut then Undecided else Decoy, buf, read;
      }
      NextChunk(buf, chunks, read);
      buf := buf + chunks[read];
      read := read + 1;
    }
  }

  /**
   Chunking independence of the whole connection: classification, hand-off of the bytes read past the first frame and
   every later drain together do what parsing the whole stream at once does. `unread` is what was never read.
   */
  method HandleConnection(admit: Admit, o: Oracle, chunks: seq<Bytes>, ending: Ending)
    returns (handled: Handled, unread: Bytes)
    ensures WholeConnection(admit, o, Concat(chunks), ending) ==
            match handled
            case Tunnelled(decision, reader) => Tunnelled(decision, reader.(buf := reader.buf + unread))
            case Proxied(decision, bytes) => Proxied(decision, bytes + unread)
  {
    var decision, buf, read := ReadAndClassify(admit, chunks, ending);
    var left := chunks[read..];
    match decision {
      case Upgrade(node, reply) =>
        var consumed := 2 + FromU16(buf[0], buf[1]);
        var prefix := if |buf| > consumed then buf[consumed..] else [];
        assert prefix == Split(buf).rest;
        SplitAppend(buf, Concat(left));
        var reader := new FrameReader(o, prefix);
        var ok, n := reader.Pump(left);
        handled, unread := Tunnelled(decision, reader.Abs(ok)), Concat(left[n..]);
      case _ =>
        handled, unread := Proxied(decision, buf), Concat(left);
    }
  }

  /** The stream opens with this envelope, framed, and the server admits it. */
  predicate OpensWith(admit: Admit, stream: Bytes, env: Bytes, rest: Bytes) {
    1 <= |env| <= 2048 && stream == BigEndian(|env|, 2) + env + rest && admit(env).Some?
  }

  /**
   Which streams are tunnelled: exactly those that open with an admitted frame, and then the tunnel reads all that follows
   it; every other stream goes to the decoy whole, undecided only if the time ran out on a frame not yet complete.
   */
  lemma TunnelledIffAdmitted(admit: Admit, o: Oracle, stream: Bytes, ending: Ending)
    ensures
      var h := WholeConnection(admit, o, stream, ending);
      && (h.Tunnelled? <==> exists env, rest :: OpensWith(admit, stream, env, rest))
      && (forall env, rest :: OpensWith(admit, stream, env, rest) ==>
            h == Tunnelled(Upgrade(admit(env).value.node, admit(env).value.reply), Drain(o, Start(rest))))
      && (h.Proxied? ==> h.bytes == stream && (h.decision == Undecided <==> ending == TimedOut && Split(stream).Incomplete?))
  {
    forall env, rest
      ensures Split(stream) == Complete(env, rest) <==> 1 <= |env| <= 2048 && stream == BigEndian(|env|, 2) + env + rest
    {
      WholeFrameForm(stream, env, rest);
    }
    hide Split, Drain, BigEndian;
    if Split(stream).Complete? && admit(Split(stream).env).Some? {
      assert OpensWith(admit, stream, Split(stream).env, Split(stream).rest);
    }
  }

  /** A client that pipelines its Register and any list of messages has every one of them routed, in order. */
  lemma PipelinedMessagesAreRouted(admit: Admit, o: Oracle, register: Bytes, envs: seq<Bytes>, messages: seq<Message>, ending: Ending)
    requires 1 <= |register| <= FrameCap && admit(register).Some?
    requires Frameable(envs) && |envs| == |messages|
    requires forall i :: 0 <= i < |envs| ==> o.decode(envs[i]) == Some(messages[i])
    requires forall n :: 0 <= n < |envs| ==> o.allow(n)
    ensures
      var h := WholeConnection(admit, o, Framed(register) + Stream(envs), ending);
      h.Tunnelled? && h.reader.ok && h.reader.routed == messages && h.reader.buf == []
  {
    hide Drain, Framed, Stream;
    FramedIsReadBackIff(register, Stream(envs));
    FramingRoundTrip(o, envs, messages, Start(Stream(envs)));
    assert [] + messages == messages;
  }
}
