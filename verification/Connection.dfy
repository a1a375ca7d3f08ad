/**
 One client connection of server/src/server.cpp: send, and the blocking read_loop.
 Handing a message to the worker pool is recorded in `dispatched`.
 */
module Connection {
  import opened Wrappers
  import opened ByteOrder
  import opened Framing
  import opened Message
  import Gateway

  /** The messages read_loop hands on: frames that do not decode are dropped and reading goes on. */
  ghost function Dispatched(lib: Lib, frames: seq<seq<byte>>): seq<Message> {
    if frames == [] then []
    else
      var rest := Dispatched(lib, frames[1..]);
      match Decoded(lib, frames[0])
      case Ok(m) => [m] + rest
      case Err(_) => rest
  }

  /** The bytes `send` puts on the wire: a message that cannot be encoded is dropped. */
  ghost function Wire(lib: Lib, ms: seq<Message>): seq<byte>
    requires Sound(lib)
  {
    Concat(SentFrames(lib, ms))
  }

  ghost function SentFrames(lib: Lib, ms: seq<Message>): seq<seq<byte>>
    requires Sound(lib)
  {
    if ms == [] then []
    else
      match Encoded(lib, ms[0])
      case Ok(frame) => [frame] + SentFrames(lib, ms[1..])
      case Err(_) => SentFrames(lib, ms[1..])
  }

  class Connection {
    const lib: Lib
    const fd: Socket
    var alive: bool
    var dispatched: seq<Message>

    constructor (lib: Lib, fd: Socket)
      ensures this.lib == lib && this.fd == fd && alive && dispatched == []
    {
      this.lib, this.fd, alive, dispatched := lib, fd, true, [];
    }

    method Send(m: Message)
      requires Sound(lib)
      modifies fd`outgoing, fd`schedule
      ensures Failed !in old(fd.schedule) ==> fd.outgoing == old(fd.outgoing) + Wire(lib, [m])
      ensures Encoded(lib, m).Err? ==> fd.outgoing == old(fd.outgoing)
      ensures Encoded(lib, m).Ok? ==>
                exists k :: 0 <= k <= |Encoded(lib, m).value| && fd.outgoing == old(fd.outgoing) + Encoded(lib, m).value[..k]
      ensures Suffix(fd.schedule, old(fd.schedule))
    {
      var r := EncodeFrame(lib, m);
      WireOfOne(lib, m);
      if r.Err? {
        assert old(fd.outgoing) + [] == old(fd.outgoing);
        return;
      }
      var ok := WriteFrame(fd, r.value);
      if ok { assert r.value[..|r.value|] == r.value; }
    }

    /** stop: the number of frames after which a stop() from another thread has cleared alive_, if one comes. */
    method ReadLoop(stop: Option<nat>)
      requires alive
      modifies this`alive, this`dispatched, fd`incoming, fd`schedule
      ensures !alive
      ensures Failed !in old(fd.schedule) && stop.None? ==>
                dispatched == old(dispatched) + Dispatched(lib, ReadAll(old(fd.incoming)).0)
      ensures exists k :: 0 <= k <= |ReadAll(old(fd.incoming)).0| && (stop.Some? ==> k <= stop.value) &&
                          dispatched == old(dispatched) + Dispatched(lib, ReadAll(old(fd.incoming)).0[..k])
    {
      ghost var all := ReadAll(fd.incoming).0;
      var k := 0;
      alive := stop.None? || stop.value > 0;
      while alive
        invariant stop.None? || k <= stop.value
        invariant alive == (stop.None? || k < stop.value)
        invariant FramesRead(lib, all, k, fd.incoming, old(dispatched), dispatched)
        invariant Suffix(fd.schedule, old(fd.schedule))
        decreases |fd.incoming|
      {
        ghost var before, rest := fd.schedule, fd.incoming;
        var r := ReadFrame(fd);
        SuffixTransitive(fd.schedule, before, old(fd.schedule));
        if r.Err? {
          if Failed !in old(fd.schedule) { NothingLeft(lib, all, k, rest, old(dispatched), dispatched); }
          break;
        }
        ReadOneMore(lib, all, k, rest, old(dispatched), dispatched);
        k := k + 1;
        var m := DecodeFrame(lib, r.value);
        if m.Ok? { dispatched := dispatched + [m.value]; }
        alive := stop.None? || k < stop.value;
      }
      alive := false;
    }
  }

  /** k of all frames have been read; the rest of them are in rest; what they decode to has been dispatched. */
  ghost predicate FramesRead(lib: Lib, all: seq<seq<byte>>, k: int, rest: seq<byte>, earlier: seq<Message>, dispatched: seq<Message>) {
    && 0 <= k <= |all|
    && ReadAll(rest).0 == all[k..]
    && dispatched == earlier + Dispatched(lib, all[..k])
  }

  lemma ReadOneMore(lib: Lib, all: seq<seq<byte>>, k: nat, rest: seq<byte>, earlier: seq<Message>, dispatched: seq<Message>)
    requires FramesRead(lib, all, k, rest, earlier, dispatched) && NextFrame(rest).0.Ok?
    ensures var (r, next) := NextFrame(rest);
            && |next| < |rest|
            && (Decoded(lib, r.value).Ok? ==> FramesRead(lib, all, k + 1, next, earlier, dispatched + [Decoded(lib, r.value).value]))
            && (Decoded(lib, r.value).Err? ==> FramesRead(lib, all, k + 1, next, earlier, dispatched))
  {
    var (r, next) := NextFrame(rest);
    assert ReadAll(rest).0 == [r.value] + ReadAll(next).0;
    assert all[k] == all[k..][0] == r.value && all[k..][1..] == all[k + 1..];
    assert all[..k + 1] == all[..k] + [all[k]];
    DispatchedSnoc(lib, all[..k], all[k]);
  }

  lemma NothingLeft(lib: Lib, all: seq<seq<byte>>, k: nat, rest: seq<byte>, earlier: seq<Message>, dispatched: seq<Message>)
    requires FramesRead(lib, all, k, rest, earlier, dispatched) && NextFrame(rest).0.Err?
    ensures dispatched == earlier + Dispatched(lib, all)
  {
    assert all[..k] == all;
  }

  lemma WireOfOne(lib: Lib, m: Message)
    requires Sound(lib)
    ensures Wire(lib, [m]) == if Encoded(lib, m).Ok? then Encoded(lib, m).value else []
  {
    var ms := [m];
    assert ms[1..] == [] && SentFrames(lib, ms[1..]) == [];
    if Encoded(lib, m).Ok? {
      var f := Encoded(lib, m).value;
      assert SentFrames(lib, [m]) == [f] + [] == [f];
      var frames := [f];
      assert frames[1..] == [] && Concat(frames) == f + [] == f;
    }
  }

  lemma {:induction false} DispatchedSnoc(lib: Lib, frames: seq<seq<byte>>, f: seq<byte>)
    ensures Dispatched(lib, frames + [f]) ==
            Dispatched(lib, frames) + (if Decoded(lib, f).Ok? then [Decoded(lib, f).value] else [])
  {
    if frames == [] {
      assert frames + [f] == [f] && [f][1..] == frames;
    } else {
      assert (frames + [f])[1..] == frames[1..] + [f];
      DispatchedSnoc(lib, frames[1..], f);
    }
  }

  // ---------- end to end ----------

  /** The messages of a list that are sendable, as they arrive. */
  function Received(ms: seq<Message>): seq<Message> {
    if ms == [] then []
    else (if Sendable(ms[0]) then [Arrived(ms[0])] else []) + Received(ms[1..])
  }

  /**
   Everything sent is received, in order: the frames in the bytes written are the frames
   sent, the stream then ends with "EOF", and the dispatched messages are the sendable ones.
   */
  lemma {:induction false} StreamRoundTrip(lib: Lib, ms: seq<Message>)
    requires Sound(lib)
    requires forall k :: 0 <= k < |ms| ==> Encoded(lib, ms[k]).Ok? && |lib.dump(ToJson(ms[k]))| < 1_048_576
    ensures |SentFrames(lib, ms)| == |ms|
    ensures ReadAll(Wire(lib, ms)) == (SentFrames(lib, ms), "EOF")
    ensures Dispatched(lib, SentFrames(lib, ms)) == Received(ms)
  {
    if ms != [] {
      StreamRoundTrip(lib, ms[1..]);
      var frames := SentFrames(lib, ms);
      assert frames[1..] == SentFrames(lib, ms[1..]);
      ReadableExactly(lib, ms[0]);
      FrameRoundTrip(lib, ms[0]);
      forall k | 0 <= k < |frames| ensures Readable(frames[k]) {
        if k > 0 { SentAreReadable(lib, ms[1..], k - 1); }
      }
      ReadAllOfConcat(frames);
    }
  }

  lemma {:induction false} SentAreReadable(lib: Lib, ms: seq<Message>, k: nat)
    requires Sound(lib) && k < |SentFrames(lib, ms)|
    requires forall i :: 0 <= i < |ms| ==> Encoded(lib, ms[i]).Ok? && |lib.dump(ToJson(ms[i]))| < 1_048_576
    ensures Readable(SentFrames(lib, ms)[k])
  {
    ReadableExactly(lib, ms[0]);
    if k > 0 { SentAreReadable(lib, ms[1..], k - 1); }
  }

  lemma {:induction false} SentAppend(lib: Lib, ms: seq<Message>, m: Message)
    requires Sound(lib)
    ensures SentFrames(lib, ms + [m]) == SentFrames(lib, ms) + SentFrames(lib, [m])
    ensures Wire(lib, ms + [m]) == Wire(lib, ms) + Wire(lib, [m])
  {
    if ms == [] {
      assert ms + [m] == [m];
    } else {
      assert (ms + [m])[1..] == ms[1..] + [m];
      SentAppend(lib, ms[1..], m);
    }
    ConcatAppend(SentFrames(lib, ms), SentFrames(lib, [m]));
  }

  lemma {:induction false} DispatchedPrefix(lib: Lib, frames: seq<seq<byte>>, k: nat)
    requires k <= |frames|
    ensures Dispatched(lib, frames[..k]) <= Dispatched(lib, frames)
  {
    if k > 0 {
      assert frames[..k][1..] == frames[1..][..k - 1];
      DispatchedPrefix(lib, frames[1..], k - 1);
    }
  }

  /** send for each message of a list. */
  method SendAll(c: Connection, ms: seq<Message>)
    requires Sound(c.lib) && Failed !in c.fd.schedule
    modifies c.fd`outgoing, c.fd`schedule
    ensures c.fd.outgoing == old(c.fd.outgoing) + Wire(c.lib, ms)
  {
    ghost var sent := [];
    var i := 0;
    while i < |ms|
      invariant 0 <= i <= |ms|
      invariant Failed !in c.fd.schedule
      invariant sent == Wire(c.lib, ms[..i]) && c.fd.outgoing == old(c.fd.outgoing) + sent
    {
      WireSnoc(c.lib, ms, i);
      ghost var schedule := c.fd.schedule;
      c.Send(ms[i]);
      SuffixTransitive(c.fd.schedule, schedule, schedule);
      ghost var more := Wire(c.lib, [ms[i]]);
      Associative(old(c.fd.outgoing), sent, more);
      sent := sent + more;
      i := i + 1;
    }
    assert ms[..i] == ms;
  }

  lemma WireSnoc(lib: Lib, ms: seq<Message>, i: nat)
    requires Sound(lib) && i < |ms|
    ensures Wire(lib, ms[..i + 1]) == Wire(lib, ms[..i]) + Wire(lib, [ms[i]])
  {
    assert ms[..i + 1] == ms[..i] + [ms[i]];
    SentAppend(lib, ms[..i], ms[i]);
  }

  /**
   From one end to the other: what one connection sends under any schedule of short writes and EINTR,
   another reads under any schedule of its own. It dispatches the sendable messages as they arrive, in
   order; if its socket fails or it is stopped, the first few of them.
   */
  method Exchange(lib: Lib, ms: seq<Message>, writing: seq<IoEvent>, reading: seq<IoEvent>, stop: Option<nat>)
    returns (received: seq<Message>)
    requires Sound(lib) && Failed !in writing
    requires forall k :: 0 <= k < |ms| ==> Encoded(lib, ms[k]).Ok? && |lib.dump(ToJson(ms[k]))| < 1_048_576
    ensures received <= Received(ms)
    ensures Failed !in reading && stop.None? ==> received == Received(ms)
    ensures Failed !in reading && stop.None? && (forall k :: 0 <= k < |ms| ==> Sendable(ms[k])) ==>
              |received| == |ms| && forall k :: 0 <= k < |ms| ==> received[k] == Arrived(ms[k])
  {
    received := Transmit(lib, ms, writing, reading, stop);
    if forall k :: 0 <= k < |ms| ==> Sendable(ms[k]) { AllArrive(ms); }
  }

  method Transmit(lib: Lib, ms: seq<Message>, writing: seq<IoEvent>, reading: seq<IoEvent>, stop: Option<nat>)
    returns (received: seq<Message>)
    requires Sound(lib) && Failed !in writing
    requires forall k :: 0 <= k < |ms| ==> Encoded(lib, ms[k]).Ok? && |lib.dump(ToJson(ms[k]))| < 1_048_576
    ensures received <= Received(ms)
    ensures Failed !in reading && stop.None? ==> received == Received(ms)
  {
    var here := new Socket([], writing);
    var sender := new Connection(lib, here);
    SendAll(sender, ms);
    assert here.outgoing == Wire(lib, ms);
    StreamRoundTrip(lib, ms);
    var there := new Socket(here.outgoing, reading);
    var receiver := new Connection(lib, there);
    receiver.ReadLoop(stop);
    received := receiver.dispatched;
    ghost var k :| 0 <= k <= |SentFrames(lib, ms)| && received == Dispatched(lib, SentFrames(lib, ms)[..k]);
    DispatchedPrefix(lib, SentFrames(lib, ms), k);
  }

  lemma {:induction false} AllArrive(ms: seq<Message>)
    requires forall k :: 0 <= k < |ms| ==> Sendable(ms[k])
    ensures |Received(ms)| == |ms| && forall k :: 0 <= k < |ms| ==> Received(ms)[k] == Arrived(ms[k])
  {
    if ms != [] { AllArrive(ms[1..]); }
  }

  // ---------- to the browser ----------

  /**
   Whatever the server sends, and however its bytes are cut into chunks, the gateway hands the browser the JSON
   of every message, in order and once, and keeps no byte back.
   */
  lemma GatewayRoundTrip(lib: Lib, ms: seq<Message>, chunks: seq<seq<byte>>)
    requires Sound(lib)
    requires forall k :: 0 <= k < |ms| ==> Encoded(lib, ms[k]).Ok?
    requires Concat(chunks) == Wire(lib, ms)
    ensures var (messages, left) := Gateway.Feed(lib, [], chunks);
            && |messages| == |ms| && left == []
            && forall k :: 0 <= k < |ms| ==> messages[k] == Reread(ToJson(ms[k]))
  {
    assert Concat([Wire(lib, ms)]) == Wire(lib, ms) + Concat([]) == Wire(lib, ms);
    Gateway.ChunkingDoesNotMatter(lib, chunks, [Wire(lib, ms)]);
    WireAtOnce(lib, ms);
  }

  lemma {:induction false} WireAtOnce(lib: Lib, ms: seq<Message>)
    requires Sound(lib)
    requires forall k :: 0 <= k < |ms| ==> Encoded(lib, ms[k]).Ok?
    ensures var (messages, left) := Gateway.AllAtOnce(lib, Wire(lib, ms));
            && |messages| == |ms| && left == []
            && forall k :: 0 <= k < |ms| ==> messages[k] == Reread(ToJson(ms[k]))
  {
    if ms == [] {
      Gateway.OneChunk(lib, []);
    } else {
      WireAtOnce(lib, ms[1..]);
      SentFrame(lib, ms);
      var sealed := lib.encrypt(lib.dump(ToJson(ms[0])));
      Gateway.FrontFrame(lib, sealed, Wire(lib, ms[1..]));
    }
  }

  lemma SentFrame(lib: Lib, ms: seq<Message>)
    requires Sound(lib) && ms != [] && Encoded(lib, ms[0]).Ok?
    ensures var sealed := lib.encrypt(lib.dump(ToJson(ms[0])));
            && |sealed| < 0x1_0000_0000
            && Wire(lib, ms) == Gateway.Framed(sealed) + Wire(lib, ms[1..])
            && lib.decrypt(sealed) == Some(lib.dump(ToJson(ms[0])))
            && lib.parse(lib.dump(ToJson(ms[0]))) == Some(Reread(ToJson(ms[0])))
  {
    var frame := Encoded(lib, ms[0]).value;
    var rest := SentFrames(lib, ms[1..]);
    assert SentFrames(lib, ms) == [frame] + rest && ([frame] + rest)[1..] == rest;
  }

  lemma OneMoreChunk(chunks: seq<seq<byte>>, i: nat)
    requires i < |chunks|
    ensures Concat(chunks[..i + 1]) == Concat(chunks[..i]) + chunks[i]
  {
    assert chunks[..i + 1] == chunks[..i] + [chunks[i]];
    ConcatAppend(chunks[..i], [chunks[i]]);
    assert Concat([chunks[i]]) == chunks[i] + Concat([]) == chunks[i];
  }

  /** The same through the data callback of a connection's bridge, chunk by chunk. */
  method Forward(lib: Lib, ms: seq<Message>, chunks: seq<seq<byte>>) returns (bridge: Gateway.Bridge)
    requires Sound(lib)
    requires forall k :: 0 <= k < |ms| ==> Encoded(lib, ms[k]).Ok?
    requires Concat(chunks) == Wire(lib, ms)
    ensures |bridge.delivered| == |ms| && bridge.recvBuf == []
    ensures forall k :: 0 <= k < |ms| ==> bridge.delivered[k] == Reread(ToJson(ms[k]))
  {
    bridge := new Gateway.Bridge(lib);
    var i := 0;
    while i < |chunks|
      invariant 0 <= i <= |chunks|
      invariant fresh(bridge) && bridge.Valid() && bridge.lib == lib && bridge.received == Concat(chunks[..i])
    {
      OneMoreChunk(chunks, i);
      bridge.OnData(chunks[i]);
      i := i + 1;
    }
    assert chunks[..i] == chunks;
    WireAtOnce(lib, ms);
    Gateway.OneChunk(lib, bridge.received);
  }

  /** At exactly 1 MiB of JSON the sender accepts what the receiver then refuses, and reading stops there. */
  lemma OversizedStopsTheStream(lib: Lib, m: Message, after: seq<byte>)
    requires Sound(lib) && Encoded(lib, m).Ok? && |lib.dump(ToJson(m))| == 1_048_576
    ensures ReadAll(Wire(lib, [m]) + after) == ([], "payload too large")
  {
    WireOfOne(lib, m);
    var sealed := lib.encrypt(lib.dump(ToJson(m)));
    var s := Wire(lib, [m]) + after;
    assert s[..PREFIX_BYTES] == BigEndian(|sealed|);
    PrefixRoundTrip(|sealed|, BigEndian(|sealed|));
  }

  // ---------- the two receivers ----------

  function Ciphertexts(frames: seq<seq<byte>>): (r: seq<seq<byte>>) {
    seq(|frames|, i requires 0 <= i < |frames| => if |frames[i]| < PREFIX_BYTES then [] else frames[i][PREFIX_BYTES..])
  }

  ghost predicate Within(payloads: seq<seq<byte>>) {
    forall k :: 0 <= k < |payloads| ==> |payloads[k]| <= MAX_PAYLOAD
  }

  /** Both receivers on a stream that starts with a complete frame of n payload bytes. */
  lemma BothStep(s: seq<byte>)
    requires Gateway.Complete(s)
    ensures var n := PREFIX_BYTES + PrefixLength(s[..PREFIX_BYTES]);
            && n <= |s|
            && Gateway.Split(s).0 == [s[PREFIX_BYTES..n]] + Gateway.Split(s[n..]).0
            && ReadAll(s).0 == if n > PREFIX_BYTES + MAX_PAYLOAD then [] else [s[..n]] + ReadAll(s[n..]).0
  {
    var n := PREFIX_BYTES + PrefixLength(s[..PREFIX_BYTES]);
    Gateway.SplitStep(s, s[PREFIX_BYTES..n], s[n..]);
  }

  lemma NeitherSteps(s: seq<byte>)
    requires !Gateway.Complete(s)
    ensures Gateway.Split(s).0 == [] && ReadAll(s).0 == []
  {
  }

  lemma CiphertextsCons(f: seq<byte>, frames: seq<seq<byte>>)
    requires |f| >= PREFIX_BYTES
    ensures Ciphertexts([f] + frames) == [f[PREFIX_BYTES..]] + Ciphertexts(frames)
  {
  }

  /**
   On any bytes, the blocking receiver finds the frames the gateway would find, up to
   the first one whose payload exceeds 1 MiB: it never disagrees, it only stops earlier.
   They find the same exactly when no complete frame exceeds 1 MiB.
   */
  lemma {:induction false} ReceiversAgree(s: seq<byte>)
    ensures Ciphertexts(ReadAll(s).0) <= Gateway.Split(s).0
    ensures Within(Ciphertexts(ReadAll(s).0))
    ensures |ReadAll(s).0| < |Gateway.Split(s).0| ==> |Gateway.Split(s).0[|ReadAll(s).0|]| > MAX_PAYLOAD
    ensures Ciphertexts(ReadAll(s).0) == Gateway.Split(s).0 <==> Within(Gateway.Split(s).0)
    decreases |s|
  {
    if !Gateway.Complete(s) {
      NeitherSteps(s);
      return;
    }
    BothStep(s);
    var n := PREFIX_BYTES + PrefixLength(s[..PREFIX_BYTES]);
    var found := Gateway.Split(s).0;
    var payload := s[PREFIX_BYTES..n];
    assert found[0] == payload;
    if n <= PREFIX_BYTES + MAX_PAYLOAD {
      ReceiversAgree(s[n..]);
      CiphertextsCons(s[..n], ReadAll(s[n..]).0);
      assert s[..n][PREFIX_BYTES..] == payload;
      WithinCons(payload, Gateway.Split(s[n..]).0);
      WithinCons(payload, Ciphertexts(ReadAll(s[n..]).0));
    }
  }

  lemma WithinCons(p: seq<byte>, ps: seq<seq<byte>>)
    requires |p| <= MAX_PAYLOAD
    ensures Within([p] + ps) <==> Within(ps)
  {
    assert ([p] + ps)[1..] == ps;
    if Within([p] + ps) {
      forall k | 0 <= k < |ps| ensures |ps[k]| <= MAX_PAYLOAD { assert ps[k] == ([p] + ps)[k + 1]; }
    }
  }
}
