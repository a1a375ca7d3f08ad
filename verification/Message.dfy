/**
 Messages and their JSON form (common/include/common/message.hpp and the two
 converters of common/src/codec.cpp).
 */
module Message {
  import opened Wrappers

  type uint64 = n: nat | n < 0x1_0000_0000_0000_0000

  type int64 = i: int | -0x8000_0000_0000_0000 <= i < 0x8000_0000_0000_0000

  /** A JSON value. Unsigned, Signed and Float are the number kinds the library tells apart; a double is its 64 bits. */
  datatype Json =
    | Null
    | Bool(b: bool)
    | Unsigned(n: uint64)
    | Signed(i: int64)
    | Float(bits: uint64)
    | Str(s: string)
    | Arr(items: seq<Json>)
    | Obj(fields: map<string, Json>)

  /** Neither an infinity nor a NaN: the exponent is not all ones. */
  predicate Finite(bits: uint64) {
    bits / 0x10_0000_0000_0000 % 0x800 != 0x7FF
  }

  /**
   What is read when a value has been printed: a signed number that is not negative
   comes back unsigned, and a double that is no number comes back as null.
   */
  function Reread(j: Json): Json {
    match j
    case Signed(i) => if i >= 0 then Unsigned(i) else j
    case Float(bits) => if Finite(bits) then j else Null
    case Arr(items) => Arr(seq(|items|, k requires 0 <= k < |items| => Reread(items[k])))
    case Obj(fields) => Obj(map key | key in fields :: Reread(fields[key]))
    case _ => j
  }

  /** What has been read once prints and reads back as it is. */
  lemma {:induction false} RereadIsIdempotent(j: Json)
    ensures Reread(Reread(j)) == Reread(j)
  {
    match j
    case Arr(items) =>
      forall k | 0 <= k < |items| ensures Reread(Reread(items[k])) == Reread(items[k]) { RereadIsIdempotent(items[k]); }
    case Obj(fields) =>
      forall key | key in fields ensures Reread(Reread(fields[key])) == Reread(fields[key]) { RereadIsIdempotent(fields[key]); }
    case _ =>
  }

  datatype MessageType = Request | Response | Notification

  datatype Status = NoStatus | Success | Error

  datatype Message = Message(
    kind: MessageType,
    action: string,
    timestamp: uint64,
    sessionId: string,
    data: Json,
    status: Status,
    errorCode: string,
    errorMessage: string)

  function TypeName(t: MessageType): string {
    match t
    case Request => "REQUEST"
    case Response => "RESPONSE"
    case Notification => "NOTIFICATION"
  }

  function TypeFromString(s: string): Option<MessageType> {
    if s == "REQUEST" then Some(Request)
    else if s == "RESPONSE" then Some(Response)
    else if s == "NOTIFICATION" then Some(Notification)
    else None
  }

  function StatusName(s: Status): string {
    match s
    case NoStatus => ""
    case Success => "SUCCESS"
    case Error => "ERROR"
  }

  function StatusFromString(s: string): Option<Status> {
    if s == "" then Some(NoStatus)
    else if s == "SUCCESS" then Some(Success)
    else if s == "ERROR" then Some(Error)
    else None
  }

  // ---------- the converters ----------

  /** The string under key, or "" when the key is absent. */
  function OptionalString(f: map<string, Json>, key: string): Result<string> {
    if key !in f then Ok("")
    else if f[key].Str? then Ok(f[key].s)
    else Err(key + " must be string")
  }

  function FromJson(j: Json): Result<Message> {
    if !j.Obj? then Err("Message must be a JSON object") else
    var f := j.fields;
    if "message_type" !in f || !f["message_type"].Str? then Err("message_type missing or not string") else
    var kind := TypeFromString(f["message_type"].s);
    if kind.None? then Err("invalid message_type") else
    if "action" !in f || !f["action"].Str? || f["action"].s == "" then Err("action missing or empty") else
    if "timestamp" !in f || !f["timestamp"].Unsigned? then Err("timestamp missing or not unsigned number") else
    var session := OptionalString(f, "session_id");
    if session.Err? then Err(session.error) else
    if "data" in f && !f["data"].Obj? then Err("data must be JSON object") else
    var data := if "data" in f then f["data"] else Obj(map[]);
    var name := OptionalString(f, "status");
    if name.Err? then Err(name.error) else
    var status := StatusFromString(name.value);
    if status.None? then Err("invalid status") else
    var code := OptionalString(f, "error_code");
    if code.Err? then Err(code.error) else
    var text := OptionalString(f, "error_message");
    if text.Err? then Err(text.error) else
    if kind.value == Response && status.value == NoStatus then Err("response requires status") else
    Ok(Message(kind.value, f["action"].s, f["timestamp"].n, session.value, data,
               status.value, code.value, text.value))
  }

  function WithString(f: map<string, Json>, key: string, value: string): map<string, Json> {
    if value == "" then f else f[key := Str(value)]
  }

  function ToJson(m: Message): Json {
    var f := map["message_type" := Str(TypeName(m.kind)),
                 "action" := Str(m.action),
                 "timestamp" := Unsigned(m.timestamp)];
    var f := WithString(f, "session_id", m.sessionId);
    var f := f["data" := if m.data.Null? then Obj(map[]) else m.data];
    var f := WithString(f, "status", StatusName(m.status));
    var f := WithString(f, "error_code", m.errorCode);
    Obj(WithString(f, "error_message", m.errorMessage))
  }

  // ---------- what is accepted, and what is read ----------

  predicate StringOrAbsent(f: map<string, Json>, key: string) {
    key in f ==> f[key].Str?
  }

  /** Which objects are messages, said without an order of checks. */
  predicate Admissible(f: map<string, Json>) {
    && "message_type" in f && f["message_type"].Str?
    && f["message_type"].s in {"REQUEST", "RESPONSE", "NOTIFICATION"}
    && "action" in f && f["action"].Str? && f["action"].s != ""
    && "timestamp" in f && f["timestamp"].Unsigned?
    && ("data" in f ==> f["data"].Obj?)
    && StringOrAbsent(f, "session_id")
    && StringOrAbsent(f, "error_code")
    && StringOrAbsent(f, "error_message")
    && StringOrAbsent(f, "status")
    && ("status" in f ==> f["status"].s in {"", "SUCCESS", "ERROR"})
    && (f["message_type"].s == "RESPONSE" ==> "status" in f && f["status"].s != "")
  }

  /** An absent optional member and an empty one are the same message. */
  predicate Holds(f: map<string, Json>, key: string, value: string) {
    if key in f then f[key] == Str(value) else value == ""
  }

  lemma FromJsonAcceptsExactly(j: Json)
    ensures FromJson(j).Ok? <==> j.Obj? && Admissible(j.fields)
    ensures FromJson(j).Ok? ==>
              && (FromJson(j).value.kind == Request <==> j.fields["message_type"] == Str("REQUEST"))
              && (FromJson(j).value.kind == Response <==> j.fields["message_type"] == Str("RESPONSE"))
              && (FromJson(j).value.kind == Notification <==> j.fields["message_type"] == Str("NOTIFICATION"))
              && (FromJson(j).value.status == Success <==> "status" in j.fields && j.fields["status"] == Str("SUCCESS"))
              && (FromJson(j).value.status == Error <==> "status" in j.fields && j.fields["status"] == Str("ERROR"))
    ensures FromJson(j).Ok? ==>
              var m := FromJson(j).value;
              && Holds(j.fields, "message_type", TypeName(m.kind))
              && Holds(j.fields, "action", m.action)
              && j.fields["timestamp"] == Unsigned(m.timestamp)
              && Holds(j.fields, "session_id", m.sessionId)
              && m.data == (if "data" in j.fields then j.fields["data"] else Obj(map[]))
              && Holds(j.fields, "status", StatusName(m.status))
              && Holds(j.fields, "error_code", m.errorCode)
              && Holds(j.fields, "error_message", m.errorMessage)
  {
    if j.Obj? {
      var f := j.fields;
      if "message_type" in f && f["message_type"].Str? { TypeNames(f["message_type"].s); }
      if "status" in f && f["status"].Str? { StatusNames(f["status"].s); }
    }
  }

  lemma TypeNames(s: string)
    ensures TypeFromString(s).Some? <==> s in {"REQUEST", "RESPONSE", "NOTIFICATION"}
    ensures forall t :: TypeFromString(s) == Some(t) <==> TypeName(t) == s
  {
    assert "REQUEST"[2] != "RESPONSE"[2];
  }

  lemma StatusNames(s: string)
    ensures StatusFromString(s).Some? <==> s in {"", "SUCCESS", "ERROR"}
    ensures forall t :: StatusFromString(s) == Some(t) <==> StatusName(t) == s
  {
  }

  // ---------- round trips ----------

  predicate Sendable(m: Message) {
    && m.action != ""
    && (m.data.Obj? || m.data.Null?)
    && (m.kind == Response ==> m.status != NoStatus)
  }

  function Normalised(m: Message): Message {
    if m.data.Null? then m.(data := Obj(map[])) else m
  }

  /** The message as it arrives: null data is an empty object, and the data has been printed and read. */
  function Arrived(m: Message): Message {
    Normalised(m).(data := Reread(Normalised(m).data))
  }

  /** A sendable message arrives as it was, member by member, but for what printing does to its data. */
  lemma ArrivesAsItWas(m: Message)
    requires Sendable(m)
    ensures var a := Arrived(m);
            && a.kind == m.kind && a.action == m.action && a.timestamp == m.timestamp && a.sessionId == m.sessionId
            && a.status == m.status && a.errorCode == m.errorCode && a.errorMessage == m.errorMessage
            && a.data == if m.data.Null? then Obj(map[]) else Reread(m.data)
  {
  }

  lemma RereadUpdate(f: map<string, Json>, key: string, v: Json)
    ensures Reread(Obj(f[key := v])).fields == Reread(Obj(f)).fields[key := Reread(v)]
  {
  }

  lemma RereadWithString(f: map<string, Json>, key: string, value: string)
    ensures Reread(Obj(WithString(f, key, value))).fields == WithString(Reread(Obj(f)).fields, key, value)
  {
    if value != "" { RereadUpdate(f, key, Str(value)); }
  }

  /** Printing and reading goes through the layers that ToJson puts on top of the three fixed members. */
  lemma RereadLayers(f: map<string, Json>, k: seq<string>, session: string, data: Json, status: string, code: string, text: string)
    requires |k| == 8
    ensures var f4 := WithString(f, k[3], session)[k[4] := data];
            var r4 := WithString(Reread(Obj(f)).fields, k[3], session)[k[4] := Reread(data)];
            Reread(Obj(WithString(WithString(WithString(f4, k[5], status), k[6], code), k[7], text))).fields ==
            WithString(WithString(WithString(r4, k[5], status), k[6], code), k[7], text)
  {
    var f3 := WithString(f, k[3], session);
    var f5 := WithString(f3[k[4] := data], k[5], status);
    RereadWithString(f, k[3], session);
    RereadUpdate(f3, k[4], data);
    RereadWithString(f3[k[4] := data], k[5], status);
    RereadWithString(f5, k[6], code);
    RereadWithString(WithString(f5, k[6], code), k[7], text);
  }

  /** Printing and reading a message touches nothing but its data. */
  lemma RereadOfMessage(m: Message)
    requires m.data.Obj? || m.data.Null?
    ensures Reread(ToJson(m)) == ToJson(Arrived(m))
  {
    var f := map["message_type" := Str(TypeName(m.kind)), "action" := Str(m.action), "timestamp" := Unsigned(m.timestamp)];
    assert Reread(Obj(f)).fields == f;
    RereadLayers(f, ["message_type", "action", "timestamp", "session_id", "data", "status", "error_code", "error_message"],
                 m.sessionId, Normalised(m).data, StatusName(m.status), m.errorCode, m.errorMessage);
  }

  /** Writing, printing, parsing and reading succeeds exactly for the sendable messages, and the message arrives. */
  lemma PrintedRoundTrip(m: Message)
    ensures FromJson(Reread(ToJson(m))).Ok? <==> Sendable(m)
    ensures Sendable(m) ==> FromJson(Reread(ToJson(m))) == Ok(Arrived(m))
  {
    if m.data.Obj? || m.data.Null? {
      RereadOfMessage(m);
      MessageRoundTrip(Arrived(m));
    } else {
      FieldsOf(m);
      FromJsonAcceptsExactly(Reread(ToJson(m)));
    }
  }

  /** Writing then reading succeeds exactly for the sendable messages, and gives the message back. */
  lemma MessageRoundTrip(m: Message)
    ensures FromJson(ToJson(m)).Ok? <==> Sendable(m)
    ensures Sendable(m) ==> FromJson(ToJson(m)) == Ok(Normalised(m))
  {
    TypeNames(TypeName(m.kind));
    StatusNames(StatusName(m.status));
    FieldsOf(m);
  }

  lemma FieldsOf(m: Message)
    ensures var f := ToJson(m).fields;
            && "message_type" in f && f["message_type"] == Str(TypeName(m.kind))
            && "action" in f && f["action"] == Str(m.action)
            && "timestamp" in f && f["timestamp"] == Unsigned(m.timestamp)
            && "data" in f && f["data"] == (if m.data.Null? then Obj(map[]) else m.data)
            && OptionalString(f, "session_id") == Ok(m.sessionId)
            && OptionalString(f, "status") == Ok(StatusName(m.status))
            && OptionalString(f, "error_code") == Ok(m.errorCode)
            && OptionalString(f, "error_message") == Ok(m.errorMessage)
  {
    var keys := ["message_type", "action", "timestamp", "session_id", "data", "status", "error_code", "error_message"];
    KeysDiffer(keys);
    Layers(m, keys);
  }

  lemma KeysDiffer(keys: seq<string>)
    requires keys == ["message_type", "action", "timestamp", "session_id", "data", "status", "error_code", "error_message"]
    ensures forall i, j :: 0 <= i < j < 8 ==> keys[i] != keys[j]
  {
    assert |keys[0]| == 12 && |keys[1]| == 6 && |keys[2]| == 9 && |keys[3]| == 10;
    assert |keys[4]| == 4 && |keys[5]| == 6 && |keys[6]| == 10 && |keys[7]| == 13;
    assert keys[1][0] != keys[5][0] && keys[3][0] != keys[6][0];
  }

  /** What ToJson builds, for any eight distinct keys. */
  lemma Layers(m: Message, k: seq<string>)
    requires |k| == 8 && forall i, j :: 0 <= i < j < 8 ==> k[i] != k[j]
    ensures var f := WithString(map[k[0] := Str(TypeName(m.kind)), k[1] := Str(m.action), k[2] := Unsigned(m.timestamp)],
                                k[3], m.sessionId);
            var f := f[k[4] := if m.data.Null? then Obj(map[]) else m.data];
            var f := WithString(f, k[5], StatusName(m.status));
            var f := WithString(WithString(f, k[6], m.errorCode), k[7], m.errorMessage);
            && k[0] in f && f[k[0]] == Str(TypeName(m.kind))
            && k[1] in f && f[k[1]] == Str(m.action)
            && k[2] in f && f[k[2]] == Unsigned(m.timestamp)
            && k[4] in f && f[k[4]] == (if m.data.Null? then Obj(map[]) else m.data)
            && OptionalString(f, k[3]) == Ok(m.sessionId)
            && OptionalString(f, k[5]) == Ok(StatusName(m.status))
            && OptionalString(f, k[6]) == Ok(m.errorCode)
            && OptionalString(f, k[7]) == Ok(m.errorMessage)
  {
  }

  /** Reading, writing and reading again is reading: whatever the first reading dropped stays dropped. */
  lemma ReadingIsIdempotent(j: Json)
    ensures FromJson(j).Ok? ==> FromJson(ToJson(FromJson(j).value)) == FromJson(j)
  {
    if FromJson(j).Ok? {
      FromJsonAcceptsExactly(j);
      var m := FromJson(j).value;
      if m.kind == Response { TypeNames("RESPONSE"); }
      MessageRoundTrip(m);
    }
  }

  const KNOWN_KEYS: set<string> :=
    {"message_type", "action", "timestamp", "session_id", "data", "status", "error_code", "error_message"}

  /** Members outside the eight known keys change neither the message nor the error. */
  lemma UnknownKeysAreIgnored(f: map<string, Json>, g: map<string, Json>)
    requires forall k :: k in KNOWN_KEYS ==> (k in f <==> k in g) && (k in f ==> f[k] == g[k])
    ensures FromJson(Obj(f)) == FromJson(Obj(g))
  {
    assert "message_type" in KNOWN_KEYS && "action" in KNOWN_KEYS && "timestamp" in KNOWN_KEYS;
    assert "session_id" in KNOWN_KEYS && "data" in KNOWN_KEYS && "status" in KNOWN_KEYS;
    assert "error_code" in KNOWN_KEYS && "error_message" in KNOWN_KEYS;
  }
}
