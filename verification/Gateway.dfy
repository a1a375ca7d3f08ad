/**
 The gateway's incremental receiver: decodeFrames and the "data" callback of webapp/server.js.
 It cannot wait for bytes: it takes every complete frame there is and keeps the rest.
 */
module Gateway {
  import opened Wrappers
  import opened ByteOrder
  import opened Framing
  import opened Message

  /** The ciphertexts of the complete frames at the front of a buffer, and the leftover bytes. */
  function Split(buffer: seq<byte>): (seq<seq<byte>>, seq<byte>)
    decreases |buffer|
  {
    if Complete(buffer) then
      var n := PREFIX_BYTES + PrefixLength(buffer[..PREFIX_BYTES]);
      var (payloads, rest) := Split(buffer[n..]);
      ([buffer[PREFIX_BYTES..n]] + payloads, rest)
    else ([], buffer)
  }

  /** The buffer starts with a complete frame. */
  predicate Complete(buffer: seq<byte>) {
    |buffer| >= PREFIX_BYTES && |buffer| >= PREFIX_BYTES + PrefixLength(buffer[..PREFIX_BYTES])
  }

  /** The JSON values handed to onMessage: frames that do not decrypt or parse are skipped. */
  function Deliver(lib: Lib, payloads: seq<seq<byte>>): seq<Json> {
    if payloads == [] then []
    else Opened(lib, payloads[0]) + Deliver(lib, payloads[1..])
  }

  function Opened(lib: Lib, payload: seq<byte>): seq<Json> {
    match lib.decrypt(payload)
    case None => []
    case Some(text) =>
      match lib.parse(text)
      case None => []
      case Some(j) => [j]
  }

  method DecodeFrames(lib: Lib, buffer: seq<byte>) returns (messages: seq<Json>, leftover: seq<byte>)
    ensures messages == Deliver(lib, Split(buffer).0)
    ensures leftover == Split(buffer).1
  {
    var offset := 0;
    messages := [];
    assert buffer[0..] == buffer;
    while offset + 4 <= |buffer|
      invariant offset <= |buffer|
      invariant Progress(lib, buffer, buffer[offset..], messages)
      decreases |buffer| - offset
    {
      var encryptedLen: nat := PrefixLength(buffer[offset..offset + 4]);
      var next := offset + 4 + encryptedLen;
      if next > |buffer| { break; }
      var encrypted := buffer[offset + 4..next];
      TakeFrame(lib, buffer, offset, messages, next);
      var found := Open(lib, encrypted);
      messages := messages + found;
      offset := next;
    }
    NoneAhead(lib, buffer, offset, messages);
    leftover := buffer[offset..];
  }

  /** decryptAES and JSON.parse of one frame; a frame that fails either is skipped. */
  method Open(lib: Lib, encrypted: seq<byte>) returns (found: seq<Json>)
    ensures found == Opened(lib, encrypted)
  {
    found := [];
    var decrypted := lib.decrypt(encrypted);
    if decrypted.Some? {
      var parsed := lib.parse(decrypted.value);
      if parsed.Some? { found := [parsed.value]; }
    }
  }

  /** Everything before rest has been delivered; what is ahead is found by splitting rest. */
  ghost predicate Progress(lib: Lib, buffer: seq<byte>, rest: seq<byte>, messages: seq<Json>) {
    && Split(buffer).1 == Split(rest).1
    && Deliver(lib, Split(buffer).0) == messages + Deliver(lib, Split(rest).0)
  }

  lemma ProgressStep(lib: Lib, buffer: seq<byte>, rest: seq<byte>, messages: seq<Json>, payload: seq<byte>, next: seq<byte>)
    requires Progress(lib, buffer, rest, messages) && Complete(rest)
    requires var n := PREFIX_BYTES + PrefixLength(rest[..PREFIX_BYTES]); payload == rest[PREFIX_BYTES..n] && next == rest[n..]
    ensures Progress(lib, buffer, next, messages + Opened(lib, payload))
  {
    SplitStep(rest, payload, next);
    DeliverOneMore(lib, Split(buffer).0, Split(rest).0, messages, payload, Split(next).0);
  }

  /** One turn of the loop in terms of positions in the whole buffer. */
  lemma TakeFrame(lib: Lib, buffer: seq<byte>, offset: nat, messages: seq<Json>, next: nat)
    requires offset + 4 <= next <= |buffer| && next == offset + 4 + PrefixLength(buffer[offset..offset + 4])
    requires Progress(lib, buffer, buffer[offset..], messages)
    ensures Progress(lib, buffer, buffer[next..], messages + Opened(lib, buffer[offset + 4..next]))
  {
    FromOffset(buffer, offset, 0, 4);
    FromOffset(buffer, offset, 4, next - offset);
    ProgressStep(lib, buffer, buffer[offset..], messages, buffer[offset + 4..next], buffer[next..]);
  }

  lemma NoneAhead(lib: Lib, buffer: seq<byte>, offset: nat, messages: seq<Json>)
    requires offset <= |buffer| && Progress(lib, buffer, buffer[offset..], messages)
    requires offset + 4 <= |buffer| ==> offset + 4 + PrefixLength(buffer[offset..offset + 4]) > |buffer|
    ensures messages == Deliver(lib, Split(buffer).0)
    ensures buffer[offset..] == Split(buffer).1
  {
    if offset + 4 <= |buffer| { FromOffset(buffer, offset, 0, 4); }
    assert !Complete(buffer[offset..]);
  }

  lemma DeliverOneMore(lib: Lib, all: seq<seq<byte>>, ahead: seq<seq<byte>>, messages: seq<Json>,
                       payload: seq<byte>, next: seq<seq<byte>>)
    requires Deliver(lib, all) == messages + Deliver(lib, ahead) && ahead == [payload] + next
    ensures Deliver(lib, all) == (messages + Opened(lib, payload)) + Deliver(lib, next)
  {
    DeliverCons(lib, payload, next);
  }

  lemma SplitStep(s: seq<byte>, payload: seq<byte>, rest: seq<byte>)
    requires Complete(s)
    requires var n := PREFIX_BYTES + PrefixLength(s[..PREFIX_BYTES]); payload == s[PREFIX_BYTES..n] && rest == s[n..]
    ensures Split(s).0 == [payload] + Split(rest).0
    ensures Split(s).1 == Split(rest).1
  {
  }

  lemma FromOffset(buffer: seq<byte>, offset: nat, i: nat, j: nat)
    requires i <= j && offset + j <= |buffer|
    ensures buffer[offset..][i..j] == buffer[offset + i..offset + j]
    ensures buffer[offset..][..j] == buffer[offset..offset + j]
    ensures buffer[offset..][j..] == buffer[offset + j..]
  {
  }

  lemma DeliverCons(lib: Lib, p: seq<byte>, ps: seq<seq<byte>>)
    ensures Deliver(lib, [p] + ps) == Opened(lib, p) + Deliver(lib, ps)
  {
    assert ([p] + ps)[1..] == ps;
  }

  lemma {:induction false} DeliverConcat(lib: Lib, ps: seq<seq<byte>>, qs: seq<seq<byte>>)
    ensures Deliver(lib, ps + qs) == Deliver(lib, ps) + Deliver(lib, qs)
  {
    if ps == [] {
      assert ps + qs == qs;
    } else {
      assert (ps + qs)[1..] == ps[1..] + qs;
      DeliverConcat(lib, ps[1..], qs);
    }
  }

  // ---------- chunks ----------

  /** Splitting a stream is splitting its front and then the leftover with what follows. */
  lemma {:induction false} SplitConcat(a: seq<byte>, b: seq<byte>)
    ensures Split(a + b).0 == Split(a).0 + Split(Split(a).1 + b).0
    ensures Split(a + b).1 == Split(Split(a).1 + b).1
    decreases |a|
  {
    if Complete(a) {
      var n := PREFIX_BYTES + PrefixLength(a[..PREFIX_BYTES]);
      assert (a + b)[..PREFIX_BYTES] == a[..PREFIX_BYTES];
      assert (a + b)[PREFIX_BYTES..n] == a[PREFIX_BYTES..n];
      assert (a + b)[n..] == a[n..] + b;
      SplitStep(a, a[PREFIX_BYTES..n], a[n..]);
      SplitStep(a + b, a[PREFIX_BYTES..n], a[n..] + b);
      SplitConcat(a[n..], b);
    }
  }

  /** The leftover holds no complete frame, so looking at it again finds nothing. */
  lemma {:induction false} LeftoverIsIncomplete(s: seq<byte>)
    ensures !Complete(Split(s).1)
    ensures Split(Split(s).1) == ([], Split(s).1)
    decreases |s|
  {
    if Complete(s) {
      LeftoverIsIncomplete(s[PREFIX_BYTES + PrefixLength(s[..PREFIX_BYTES])..]);
    }
  }

  /** A payload with its length in front. */
  function Framed(payload: seq<byte>): seq<byte>
    requires |payload| < 0x1_0000_0000
  {
    BigEndian(|payload|) + payload
  }

  function Rejoined(payloads: seq<seq<byte>>): seq<byte>
    requires forall k :: 0 <= k < |payloads| ==> |payloads[k]| < 0x1_0000_0000
  {
    if payloads == [] then [] else Framed(payloads[0]) + Rejoined(payloads[1..])
  }

  /** No byte is lost, added or moved: the frames found, framed again, and the leftover are the stream. */
  lemma {:induction false} SplitKeepsBytes(s: seq<byte>)
    ensures forall k :: 0 <= k < |Split(s).0| ==> |Split(s).0[k]| < 0x1_0000_0000
    ensures s == Rejoined(Split(s).0) + Split(s).1
    decreases |s|
  {
    if Complete(s) {
      var n := PREFIX_BYTES + PrefixLength(s[..PREFIX_BYTES]);
      SplitStep(s, s[PREFIX_BYTES..n], s[n..]);
      SplitKeepsBytes(s[n..]);
      RejoinOneMore(s, n, Split(s[n..]).0, Split(s[n..]).1);
    }
  }

  lemma RejoinOneMore(s: seq<byte>, n: nat, payloads: seq<seq<byte>>, rest: seq<byte>)
    requires Complete(s) && n == PREFIX_BYTES + PrefixLength(s[..PREFIX_BYTES])
    requires forall k :: 0 <= k < |payloads| ==> |payloads[k]| < 0x1_0000_0000
    requires s[n..] == Rejoined(payloads) + rest
    ensures |s[PREFIX_BYTES..n]| < 0x1_0000_0000
    ensures s == Rejoined([s[PREFIX_BYTES..n]] + payloads) + rest
  {
    var payload := s[PREFIX_BYTES..n];
    PrefixRoundTrip(|payload|, s[..PREFIX_BYTES]);
    assert ([payload] + payloads)[1..] == payloads;
    assert s == s[..PREFIX_BYTES] + payload + s[n..];
  }

  /** What the callback delivers for chunks arriving one after another, and what it keeps. */
  function Feed(lib: Lib, buffered: seq<byte>, chunks: seq<seq<byte>>): (seq<Json>, seq<byte>)
    decreases |chunks|
  {
    if chunks == [] then ([], buffered)
    else
      var (payloads, rest) := Split(buffered + chunks[0]);
      var (later, kept) := Feed(lib, rest, chunks[1..]);
      (Deliver(lib, payloads) + later, kept)
  }

  lemma {:induction false} FeedIsOneRun(lib: Lib, buffered: seq<byte>, chunks: seq<seq<byte>>)
    requires !Complete(buffered)
    ensures Feed(lib, buffered, chunks) ==
            (Deliver(lib, Split(buffered + Concat(chunks)).0), Split(buffered + Concat(chunks)).1)
    decreases |chunks|
  {
    if chunks == [] {
      assert buffered + Concat(chunks) == buffered;
    } else {
      var s := buffered + chunks[0];
      assert buffered + Concat(chunks) == s + Concat(chunks[1..]);
      LeftoverIsIncomplete(s);
      FeedIsOneRun(lib, Split(s).1, chunks[1..]);
      SplitConcat(s, Concat(chunks[1..]));
      DeliverConcat(lib, Split(s).0, Split(Split(s).1 + Concat(chunks[1..])).0);
    }
  }

  /** However the same bytes are cut into chunks, the same messages come out and the same bytes stay behind. */
  lemma ChunkingDoesNotMatter(lib: Lib, chunks: seq<seq<byte>>, others: seq<seq<byte>>)
    requires Concat(chunks) == Concat(others)
    ensures Feed(lib, [], chunks) == Feed(lib, [], others)
    ensures Feed(lib, [], chunks) == (Deliver(lib, Split(Concat(chunks)).0), Split(Concat(chunks)).1)
  {
    FeedIsOneRun(lib, [], chunks);
    FeedIsOneRun(lib, [], others);
    assert [] + Concat(chunks) == Concat(chunks) && [] + Concat(others) == Concat(others);
  }

  /** The messages and the leftover of a stream that comes in one chunk. */
  function AllAtOnce(lib: Lib, s: seq<byte>): (seq<Json>, seq<byte>) {
    Feed(lib, [], [s])
  }

  /**
   What a frame at the front of a stream is worth: its JSON value if it decrypts and parses, and nothing if not;
   the rest of the stream is treated as if it had come alone.
   */
  lemma FrontFrame(lib: Lib, payload: seq<byte>, rest: seq<byte>)
    requires |payload| < 0x1_0000_0000
    ensures var (messages, left) := AllAtOnce(lib, rest);
            var text := lib.decrypt(payload);
            && (text.None? || lib.parse(text.value).None? ==> AllAtOnce(lib, Framed(payload) + rest) == (messages, left))
            && (text.Some? && lib.parse(text.value).Some? ==>
                  AllAtOnce(lib, Framed(payload) + rest) == ([lib.parse(text.value).value] + messages, left))
  {
    var s := Framed(payload) + rest;
    var n := PREFIX_BYTES + |payload|;
    assert s[..PREFIX_BYTES] == BigEndian(|payload|);
    PrefixRoundTrip(|payload|, BigEndian(|payload|));
    assert s[PREFIX_BYTES..n] == payload && s[n..] == rest;
    SplitStep(s, payload, rest);
    DeliverCons(lib, payload, Split(rest).0);
    OneChunk(lib, s);
    OneChunk(lib, rest);
    var later := Deliver(lib, Split(rest).0);
    assert [] + later == later;
  }

  lemma OneChunk(lib: Lib, s: seq<byte>)
    ensures AllAtOnce(lib, s) == (Deliver(lib, Split(s).0), Split(s).1)
  {
    assert Concat([s]) == s + Concat([]) == s;
    FeedIsOneRun(lib, [], [s]);
    assert [] + s == s;
  }

  /** One browser's TCP side: recvBuf, and what was sent on to the browser. */
  class Bridge {
    const lib: Lib
    var recvBuf: seq<byte>
    var delivered: seq<Json>
    ghost var received: seq<byte>

    ghost predicate Valid()
      reads this
    {
      && delivered == Deliver(lib, Split(received).0)
      && recvBuf == Split(received).1
    }

    constructor (lib: Lib)
      ensures Valid() && received == [] && this.lib == lib
    {
      this.lib := lib;
      recvBuf, delivered, received := [], [], [];
    }

    method OnData(chunk: seq<byte>)
      requires Valid()
      modifies this
      ensures Valid() && received == old(received) + chunk
      ensures old(delivered) <= delivered
    {
      SplitConcat(received, chunk);
      DeliverConcat(lib, Split(received).0, Split(recvBuf + chunk).0);
      recvBuf := recvBuf + chunk;
      var messages, leftover := DecodeFrames(lib, recvBuf);
      recvBuf := leftover;
      delivered := delivered + messages;
      received := received + chunk;
    }
  }
}
