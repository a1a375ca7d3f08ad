/**
 Frames on the wire: common/src/codec.cpp from read_exact to write_frame.
 The cipher and the JSON text form are parameters; what is assumed of them is Sound.
 */
module Framing {
  import opened Wrappers
  import opened ByteOrder
  import opened Message
  import Utf8

  const PREFIX_BYTES := 4
  const MAX_PAYLOAD := 1024 * 1024

  // ---------- the foreign libraries ----------

  /** AES-256-CBC with a fixed key and IV, and the JSON printer and parser. */
  datatype Lib = Lib(
    encrypt: seq<byte> -> seq<byte>,
    decrypt: seq<byte> -> Option<seq<byte>>,
    dump: Json -> seq<byte>,
    parse: seq<byte> -> Option<Json>)

  /**
   Decrypting undoes encrypting, padding is that of section 6.3 of RFC 5652 with
   16-byte blocks, parsing what was printed gives Reread, and JSON text is never empty.
   */
  ghost predicate Sound(lib: Lib) {
    && (forall p: seq<byte> :: |lib.encrypt(p)| == 16 * (|p| / 16 + 1))
    && (forall p: seq<byte> :: lib.decrypt(lib.encrypt(p)) == Some(p))
    && (forall j: Json :: lib.parse(lib.dump(j)) == Some(Reread(j)))
    && (forall j: Json :: lib.dump(j) != [])
  }

  // ---------- sockets ----------

  /** What the kernel does with one read or write call: EINTR, an error, or some of the bytes. */
  datatype IoEvent = Interrupted | Failed | Transfer(count: nat)

  /**
   A file descriptor. incoming is what the peer will ever send, in order, before it
   closes; schedule decides call by call how much is moved. An exhausted
   schedule moves all that was asked for.
   */
  class Socket {
    var incoming: seq<byte>
    var outgoing: seq<byte>
    var schedule: seq<IoEvent>

    constructor (incoming: seq<byte>, schedule: seq<IoEvent>)
      ensures this.incoming == incoming && this.schedule == schedule && outgoing == []
    {
      this.incoming, this.outgoing, this.schedule := incoming, [], schedule;
    }

    method NextEvent(max: nat) returns (e: IoEvent)
      modifies this`schedule
      ensures old(schedule) == [] ==> e == Transfer(max) && schedule == []
      ensures old(schedule) != [] ==> e == old(schedule)[0] && schedule == old(schedule)[1..]
    {
      if schedule == [] { return Transfer(max); }
      e := schedule[0];
      schedule := schedule[1..];
    }

    /** ::read: n is -1 on failure and 0 at the end of the stream only. */
    method Read(max: nat) returns (n: int, chunk: seq<byte>, eintr: bool)
      requires max > 0
      modifies this`incoming, this`schedule
      ensures -1 <= n <= max && n <= |old(incoming)|
      ensures n >= 0 ==> chunk == old(incoming)[..n] && incoming == old(incoming)[n..]
      ensures n < 0 ==> incoming == old(incoming)
      ensures n == 0 ==> old(incoming) == []
      ensures n < 0 && !eintr ==> Failed in old(schedule)
      ensures n < 0 ==> |schedule| < |old(schedule)|
      ensures Suffix(schedule, old(schedule))
    {
      var e := NextEvent(max);
      match e
      case Interrupted => n, chunk, eintr := -1, [], true;
      case Failed => n, chunk, eintr := -1, [], false;
      case Transfer(k) =>
        n := Min(Min(max, if k == 0 then 1 else k), |incoming|);
        eintr, chunk := false, incoming[..n];
        incoming := incoming[n..];
    }

    /** ::write: may take no byte at all. */
    method Write(data: seq<byte>) returns (n: int, eintr: bool)
      requires data != []
      modifies this`outgoing, this`schedule
      ensures -1 <= n <= |data|
      ensures outgoing == old(outgoing) + (if n < 0 then [] else data[..n])
      ensures n < 0 && !eintr ==> Failed in old(schedule)
      ensures n <= 0 ==> |schedule| < |old(schedule)|
      ensures Suffix(schedule, old(schedule))
    {
      var e := NextEvent(|data|);
      match e
      case Interrupted => n, eintr := -1, true;
      case Failed => n, eintr := -1, false;
      case Transfer(k) =>
        n, eintr := Min(k, |data|), false;
        outgoing := outgoing + data[..n];
    }
  }

  /** tail is what is left of all after some events happened. */
  predicate Suffix(tail: seq<IoEvent>, all: seq<IoEvent>) {
    |tail| <= |all| && tail == all[|all| - |tail|..]
  }

  lemma SuffixTransitive(a: seq<IoEvent>, b: seq<IoEvent>, c: seq<IoEvent>)
    requires Suffix(a, b) && Suffix(b, c)
    ensures Suffix(a, c)
    ensures Failed in b ==> Failed in c
  {
  }

  /** after is what is left of before when at most max bytes have been taken from its front. */
  ghost predicate Taken(before: seq<byte>, after: seq<byte>, max: nat) {
    |after| <= |before| <= |after| + max && after == before[|before| - |after|..]
  }

  lemma TakenTwice(a: seq<byte>, b: seq<byte>, c: seq<byte>, m: nat, n: nat)
    requires Taken(a, b, m) && Taken(b, c, n)
    ensures Taken(a, c, m + n)
  {
  }

  // ---------- read_exact and write_exact ----------

  method ReadExact(fd: Socket, buffer: array<byte>, offset: nat, length: nat) returns (total: int)
    requires offset + length <= buffer.Length
    modifies fd`incoming, fd`schedule, buffer
    ensures total == -1 ==> Failed in old(fd.schedule)
    ensures Taken(old(fd.incoming), fd.incoming, length)
    ensures total != -1 ==>
              && total == Min(length, |old(fd.incoming)|)
              && buffer[..] == old(buffer[..offset]) + old(fd.incoming)[..total] + old(buffer[offset + total..])
              && fd.incoming == old(fd.incoming)[total..]
    ensures Suffix(fd.schedule, old(fd.schedule))
  {
    total := 0;
    while total < length
      invariant 0 <= total <= length && total <= |old(fd.incoming)|
      invariant ReadSoFar(old(buffer[..]), old(fd.incoming), offset, total, buffer[..])
      invariant fd.incoming == old(fd.incoming)[total..]
      invariant Suffix(fd.schedule, old(fd.schedule))
      decreases length - total, |fd.schedule|
    {
      ghost var before := fd.schedule;
      ghost var was, rest := buffer[..], fd.incoming;
      var n, chunk, eintr := fd.Read(length - total);
      SuffixTransitive(fd.schedule, before, old(fd.schedule));
      if n == 0 { return total; }
      if n < 0 {
        if eintr { continue; }
        return -1;
      }
      Store(buffer, offset + total, chunk);
      BufferGrows(old(buffer[..]), old(fd.incoming), offset, total, was, rest, n, buffer[..]);
      total := total + n;
    }
  }

  /** The buffer once total bytes have been read into it from offset on. */
  ghost predicate ReadSoFar(original: seq<byte>, stream: seq<byte>, offset: nat, total: nat, buffer: seq<byte>) {
    && offset + total <= |original| && total <= |stream|
    && buffer == original[..offset] + stream[..total] + original[offset + total..]
  }

  lemma BufferGrows(original: seq<byte>, stream: seq<byte>, offset: nat, total: nat, was: seq<byte>, rest: seq<byte>, n: nat, now: seq<byte>)
    requires ReadSoFar(original, stream, offset, total, was)
    requires rest == stream[total..] && n <= |rest| && offset + total + n <= |original|
    requires now == was[..offset + total] + rest[..n] + was[offset + total + n..]
    ensures ReadSoFar(original, stream, offset, total + n, now)
    ensures rest[n..] == stream[total + n..]
  {
    assert stream[..total + n] == stream[..total] + rest[..n];
    assert was[..offset + total] == original[..offset] + stream[..total];
    assert was[offset + total + n..] == original[offset + total + n..];
  }

  method Store(buffer: array<byte>, at: nat, chunk: seq<byte>)
    requires at + |chunk| <= buffer.Length
    modifies buffer
    ensures buffer[..] == old(buffer[..])[..at] + chunk + old(buffer[..])[at + |chunk|..]
  {
    forall k | 0 <= k < |chunk| { buffer[at + k] := chunk[k]; }
  }

  method WriteExact(fd: Socket, data: seq<byte>) returns (total: int)
    modifies fd`outgoing, fd`schedule
    ensures total == -1 ==> Failed in old(fd.schedule)
    ensures total != -1 ==> total == |data| && fd.outgoing == old(fd.outgoing) + data
    ensures total == -1 ==> exists k :: 0 <= k < |data| && fd.outgoing == old(fd.outgoing) + data[..k]
    ensures Suffix(fd.schedule, old(fd.schedule))
  {
    total := 0;
    while total < |data|
      invariant 0 <= total <= |data|
      invariant fd.outgoing == old(fd.outgoing) + data[..total]
      invariant Suffix(fd.schedule, old(fd.schedule))
      decreases |data| - total, |fd.schedule|
    {
      ghost var before := fd.schedule;
      var n, eintr := fd.Write(data[total..]);
      SuffixTransitive(fd.schedule, before, old(fd.schedule));
      if n < 0 {
        if eintr { continue; }
        return -1;
      }
      assert data[..total + n] == data[..total] + data[total..][..n];
      total := total + n;
    }
  }

  // ---------- whole frames ----------

  /** The frame at the front of a stream, or read_frame's error, and the bytes not yet read. */
  function NextFrame(s: seq<byte>): (Result<seq<byte>>, seq<byte>) {
    if s == [] then (Err("EOF"), [])
    else if |s| < PREFIX_BYTES then (Err("failed to read length prefix"), [])
    else
      var n := PrefixLength(s[..PREFIX_BYTES]);
      if n > MAX_PAYLOAD then (Err("payload too large"), s[PREFIX_BYTES..])
      else if |s| < PREFIX_BYTES + n then (Err("failed to read payload"), [])
      else (Ok(s[..PREFIX_BYTES + n]), s[PREFIX_BYTES + n..])
  }

  method ReadFrame(fd: Socket) returns (r: Result<seq<byte>>)
    modifies fd`incoming, fd`schedule
    ensures r.Ok? || Failed !in old(fd.schedule) ==> (r, fd.incoming) == NextFrame(old(fd.incoming))
    ensures (r, fd.incoming) != NextFrame(old(fd.incoming)) ==>
              && (r == Err("failed to read length prefix") || r == Err("failed to read payload"))
              && Failed in old(fd.schedule) && Taken(old(fd.incoming), fd.incoming, PREFIX_BYTES + MAX_PAYLOAD)
    ensures Suffix(fd.schedule, old(fd.schedule))
  {
    var prefix := new byte[PREFIX_BYTES];
    ghost var s := fd.incoming;
    var n := ReadExact(fd, prefix, 0, prefix.Length);
    if n == 0 { return Err("EOF"); }
    if n != prefix.Length { return Err("failed to read length prefix"); }
    assert prefix[..] == s[..PREFIX_BYTES];
    LoadSwapped(prefix[..]);
    var payloadLen := FromBe32(LoadWord(prefix[..]));
    if payloadLen > MAX_PAYLOAD { return Err("payload too large"); }
    ghost var before := fd.schedule;
    r := ReadPayload(fd, prefix[..], payloadLen);
    SuffixTransitive(fd.schedule, before, old(fd.schedule));
    NextFrameInTwoReads(s, payloadLen);
    TakenTwice(s, s[PREFIX_BYTES..], fd.incoming, PREFIX_BYTES, payloadLen);
  }

  lemma NextFrameInTwoReads(s: seq<byte>, n: nat)
    requires |s| >= PREFIX_BYTES && n == PrefixLength(s[..PREFIX_BYTES]) && n <= MAX_PAYLOAD
    ensures var rest := s[PREFIX_BYTES..];
            NextFrame(s) == if |rest| >= n then (Ok(s[..PREFIX_BYTES] + rest[..n]), rest[n..])
                            else (Err("failed to read payload"), [])
  {
    if |s| >= PREFIX_BYTES + n {
      assert s[..PREFIX_BYTES] + s[PREFIX_BYTES..][..n] == s[..PREFIX_BYTES + n];
    }
  }

  /** The second half of read_frame: the frame buffer takes the prefix, and then the payload. */
  method ReadPayload(fd: Socket, prefix: seq<byte>, payloadLen: nat) returns (r: Result<seq<byte>>)
    requires |prefix| == PREFIX_BYTES
    modifies fd`incoming, fd`schedule
    ensures r.Ok? || Failed !in old(fd.schedule) ==>
              if |old(fd.incoming)| >= payloadLen
              then r == Ok(prefix + old(fd.incoming)[..payloadLen]) && fd.incoming == old(fd.incoming)[payloadLen..]
              else r == Err("failed to read payload") && fd.incoming == []
    ensures r.Err? ==> r == Err("failed to read payload")
    ensures Taken(old(fd.incoming), fd.incoming, payloadLen)
    ensures Suffix(fd.schedule, old(fd.schedule))
  {
    ghost var s := fd.incoming;
    var frame := new byte[PREFIX_BYTES + payloadLen];
    forall k | 0 <= k < PREFIX_BYTES { frame[k] := prefix[k]; }
    assert frame[..PREFIX_BYTES] == prefix;
    if payloadLen == 0 {
      assert frame[..] == prefix + s[..0] && s[0..] == s;
      return Ok(frame[..]);
    }
    var n := ReadExact(fd, frame, PREFIX_BYTES, payloadLen);
    if n != payloadLen { return Err("failed to read payload"); }
    assert frame[..] == prefix + s[..payloadLen];
    return Ok(frame[..]);
  }

  method WriteFrame(fd: Socket, frame: seq<byte>) returns (ok: bool)
    modifies fd`outgoing, fd`schedule
    ensures ok ==> |frame| >= PREFIX_BYTES && fd.outgoing == old(fd.outgoing) + frame
    ensures !ok ==> exists k :: 0 <= k <= |frame| && fd.outgoing == old(fd.outgoing) + frame[..k]
    ensures Failed !in old(fd.schedule) ==> ok == (|frame| >= PREFIX_BYTES)
    ensures Suffix(fd.schedule, old(fd.schedule))
  {
    if |frame| < PREFIX_BYTES {
      assert fd.outgoing == old(fd.outgoing) + frame[..0];
      return false;
    }
    var n := WriteExact(fd, frame);
    ok := n == |frame|;
  }

  /** The bytes as the recogniser sees them. */
  function Bits(s: seq<byte>): Utf8.Bytes {
    seq(|s|, i requires 0 <= i < |s| => s[i] as bv8)
  }

  /** What encode_frame returns: a prefix and the encrypted JSON text, or the reason for an empty vector. */
  ghost function Encoded(lib: Lib, m: Message): Result<seq<byte>>
    requires Sound(lib)
  {
    var text := lib.dump(ToJson(m));
    if |text| > MAX_PAYLOAD then Err("payload too large")
    else if !Utf8.Recognised(Bits(text)) then Err("payload not valid UTF-8")
    else Ok(BigEndian(|lib.encrypt(text)|) + lib.encrypt(text))
  }

  method EncodeFrame(lib: Lib, m: Message) returns (r: Result<seq<byte>>)
    requires Sound(lib)
    ensures r == Encoded(lib, m)
  {
    var text := lib.dump(ToJson(m));
    if |text| > MAX_PAYLOAD { return Err("payload too large"); }
    var valid := Utf8.IsValidUtf8(Bits(text));
    if !valid { return Err("payload not valid UTF-8"); }
    var encrypted := lib.encrypt(text);
    assert lib.decrypt(lib.encrypt(text)) == Some(text) && |lib.encrypt(text)| == 16 * (|text| / 16 + 1);
    var frame := new byte[PREFIX_BYTES + |encrypted|];
    var prefix := StoreWord(ToBe32(|encrypted|));
    StoreSwapped(|encrypted|);
    forall k | 0 <= k < PREFIX_BYTES { frame[k] := prefix[k]; }
    forall k | 0 <= k < |encrypted| { frame[PREFIX_BYTES + k] := encrypted[k]; }
    assert frame[..] == prefix + encrypted;
    return Ok(frame[..]);
  }

  /** What decode_frame answers for a frame. */
  ghost function Decoded(lib: Lib, frame: seq<byte>): Result<Message> {
    if |frame| < PREFIX_BYTES then Err("frame too small")
    else if |frame| != PREFIX_BYTES + PrefixLength(frame[..PREFIX_BYTES]) then Err("payload length mismatch")
    else
      match lib.decrypt(frame[PREFIX_BYTES..])
      case None => Err("decryption failed")
      case Some(text) =>
        if text == [] then Err("decryption failed")
        else if |text| > MAX_PAYLOAD then Err("decrypted payload too large")
        else if !Utf8.Recognised(Bits(text)) then Err("decrypted payload not valid UTF-8")
        else
          match lib.parse(text)
          case None => Err("JSON parse error")
          case Some(j) => FromJson(j)
  }

  method DecodeFrame(lib: Lib, frame: seq<byte>) returns (r: Result<Message>)
    ensures r == Decoded(lib, frame)
  {
    if |frame| < PREFIX_BYTES { return Err("frame too small"); }
    LoadSwapped(frame[..PREFIX_BYTES]);
    var encryptedLen := FromBe32(LoadWord(frame[..PREFIX_BYTES]));
    if |frame| != PREFIX_BYTES + encryptedLen { return Err("payload length mismatch"); }
    var decrypted := lib.decrypt(frame[PREFIX_BYTES..]);
    if decrypted.None? || decrypted.value == [] { return Err("decryption failed"); }
    var text := decrypted.value;
    if |text| > MAX_PAYLOAD { return Err("decrypted payload too large"); }
    var valid := Utf8.IsValidUtf8(Bits(text));
    if !valid { return Err("decrypted payload not valid UTF-8"); }
    var j := lib.parse(text);
    if j.None? { return Err("JSON parse error"); }
    return FromJson(j.value);
  }

  // ---------- what is accepted ----------

  /** encode_frame refuses exactly the messages whose JSON is over 1 MiB or not UTF-8. */
  lemma EncodedExactly(lib: Lib, m: Message)
    requires Sound(lib)
    ensures Encoded(lib, m).Ok? <==> |lib.dump(ToJson(m))| <= 1_048_576 && Utf8.Recognised(Bits(lib.dump(ToJson(m))))
    ensures Encoded(lib, m).Ok? ==>
              var frame := Encoded(lib, m).value;
              && |frame| == 4 + |lib.encrypt(lib.dump(ToJson(m)))| && frame[4..] == lib.encrypt(lib.dump(ToJson(m)))
              && Announced(frame) == |frame| - 4
  {
    if Encoded(lib, m).Ok? {
      var sealed := lib.encrypt(lib.dump(ToJson(m)));
      PrefixRoundTrip(|sealed|, BigEndian(|sealed|));
      MostSignificantFirst(BigEndian(|sealed|));
    }
  }

  /** decode_frame accepts exactly a frame of its announced length that decrypts to at most 1 MiB of UTF-8, not empty, which parses to a message. */
  lemma DecodedExactly(lib: Lib, frame: seq<byte>)
    ensures Decoded(lib, frame).Ok? <==>
              && |frame| >= 4
              && Announced(frame) == |frame| - 4
              && var text := lib.decrypt(frame[4..]);
              && text.Some? && 0 < |text.value| <= 1_048_576 && Utf8.Recognised(Bits(text.value))
              && lib.parse(text.value).Some? && FromJson(lib.parse(text.value).value).Ok?
    ensures Decoded(lib, frame).Ok? ==> Decoded(lib, frame) == FromJson(lib.parse(lib.decrypt(frame[4..]).value).value)
  {
    if |frame| >= 4 { MostSignificantFirst(frame[..4]); }
  }

  // ---------- round trips ----------

  /** decode_frame undoes encode_frame: the answer succeeds exactly for the sendable messages. */
  lemma FrameRoundTrip(lib: Lib, m: Message)
    requires Sound(lib) && Encoded(lib, m).Ok?
    ensures Decoded(lib, Encoded(lib, m).value).Ok? <==> Sendable(m)
    ensures Sendable(m) ==> Decoded(lib, Encoded(lib, m).value) == Ok(Arrived(m))
  {
    var text := lib.dump(ToJson(m));
    var sealed := lib.encrypt(text);
    assert lib.decrypt(sealed) == Some(text);
    assert lib.parse(text) == Some(Reread(ToJson(m))) && text != [];
    var frame := BigEndian(|sealed|) + sealed;
    assert frame[..PREFIX_BYTES] == BigEndian(|sealed|) && frame[PREFIX_BYTES..] == sealed;
    PrefixRoundTrip(|sealed|, BigEndian(|sealed|));
    PrintedRoundTrip(m);
  }

  /** The frames of a stream in the order read_frame returns them, and the error that ends them. */
  function ReadAll(s: seq<byte>): (seq<seq<byte>>, string)
    decreases |s|
  {
    match NextFrame(s)
    case (Err(e), _) => ([], e)
    case (Ok(frame), rest) => var (frames, e) := ReadAll(rest); ([frame] + frames, e)
  }

  /** A frame read_frame takes whole: its prefix says its size and is within the limit. */
  predicate Readable(frame: seq<byte>) {
    |frame| >= PREFIX_BYTES &&
    var n := PrefixLength(frame[..PREFIX_BYTES]);
    n <= MAX_PAYLOAD && |frame| == PREFIX_BYTES + n
  }

  /** read_frame takes what encode_frame made exactly when the JSON text is under 1 MiB: at 1 MiB padding exceeds the limit. */
  lemma ReadableExactly(lib: Lib, m: Message)
    requires Sound(lib) && Encoded(lib, m).Ok?
    ensures Readable(Encoded(lib, m).value) <==> |lib.dump(ToJson(m))| < 1_048_576
  {
    var sealed := lib.encrypt(lib.dump(ToJson(m)));
    var frame := BigEndian(|sealed|) + sealed;
    assert frame[..PREFIX_BYTES] == BigEndian(|sealed|);
    PrefixRoundTrip(|sealed|, BigEndian(|sealed|));
  }

  /** Readable frames written back to back are read back one by one, and then the stream ends. */
  lemma {:induction false} ReadAllOfConcat(frames: seq<seq<byte>>)
    requires forall k :: 0 <= k < |frames| ==> Readable(frames[k])
    ensures ReadAll(Concat(frames)) == (frames, "EOF")
  {
    if frames != [] {
      var s := Concat(frames);
      var f := frames[0];
      assert s[..PREFIX_BYTES] == f[..PREFIX_BYTES];
      assert s[..|f|] == f && s[|f|..] == Concat(frames[1..]);
      ReadAllOfConcat(frames[1..]);
      assert frames == [f] + frames[1..];
    }
  }
}
