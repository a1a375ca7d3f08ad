/**
 What Framing assumes of the cipher and of the JSON library can be met: for every message and every
 length there is a library under which the text of that message has that length.
 */
module Library {
  import opened Wrappers
  import opened ByteOrder
  import opened Message
  import opened Framing
  import Utf8

  // ---------- a cipher ----------

  function PadLength(n: nat): byte {
    16 - n % 16
  }

  /** The padding alone, which is as good as any cipher for what is assumed. */
  function Pad(p: seq<byte>): seq<byte> {
    p + seq(PadLength(|p|), _ => PadLength(|p|))
  }

  function Unpad(c: seq<byte>): Option<seq<byte>> {
    if c == [] || c[|c| - 1] > |c| then None else Some(c[..|c| - c[|c| - 1]])
  }

  lemma PadRoundTrip(p: seq<byte>)
    ensures |Pad(p)| == 16 * (|p| / 16 + 1)
    ensures Unpad(Pad(p)) == Some(p)
  {
    assert Pad(p)[|Pad(p)| - 1] == PadLength(|p|);
  }

  // ---------- a printer that can be undone ----------

  function Unary(n: nat): seq<byte> {
    if n == 0 then [0] else [1] + Unary(n - 1)
  }

  function Text(s: string): seq<byte> {
    if s == [] then [0] else [1] + Unary(s[0] as int) + Text(s[1..])
  }

  ghost function Pick(keys: set<string>): (key: string)
    requires keys != {}
    ensures key in keys
  {
    var key :| key in keys; key
  }

  /** A prefix-free code for JSON values; members come in the order of Pick. */
  ghost function Print(j: Json): seq<byte>
    decreases j, 1, 0
  {
    match j
    case Null => [2]
    case Bool(b) => [3, if b then 1 else 0]
    case Unsigned(n) => [4] + Unary(n)
    case Signed(i) => [5] + Unary(if i < 0 then -2 * i - 1 else 2 * i)
    case Float(bits) => [6] + Unary(bits)
    case Str(s) => [7] + Text(s)
    case Arr(items) => [8] + PrintItems(j, 0)
    case Obj(fields) => [9] + PrintFields(j, fields.Keys)
  }

  ghost function PrintItems(j: Json, k: nat): seq<byte>
    requires j.Arr? && k <= |j.items|
    decreases j, 0, |j.items| - k
  {
    if k == |j.items| then [0] else [1] + Print(j.items[k]) + PrintItems(j, k + 1)
  }

  ghost function PrintFields(j: Json, keys: set<string>): seq<byte>
    requires j.Obj? && keys <= j.fields.Keys
    decreases j, 0, |keys|
  {
    if keys == {} then [0]
    else var key := Pick(keys); [1] + Text(key) + Print(j.fields[key]) + PrintFields(j, keys - {key})
  }

  /** What follows the marker byte of a code. */
  lemma AfterMarker(marker: byte, head: seq<byte>, tail: seq<byte>, x: seq<byte>)
    ensures ([marker] + head + tail + x)[0] == marker
    ensures ([marker] + head + tail + x)[1..] == head + (tail + x)
  {
  }

  lemma {:induction false} UnaryIsPrefixFree(m: nat, n: nat, x: seq<byte>, y: seq<byte>)
    requires Unary(m) + x == Unary(n) + y
    ensures m == n && x == y
  {
    var u, v := Unary(m) + x, Unary(n) + y;
    assert u[0] == Unary(m)[0] && v[0] == Unary(n)[0];
    if m == 0 {
      assert u[1..] == x && v[1..] == y;
    } else {
      assert u[1..] == Unary(m - 1) + x && v[1..] == Unary(n - 1) + y;
      UnaryIsPrefixFree(m - 1, n - 1, x, y);
    }
  }

  lemma {:induction false} TextIsPrefixFree(s: string, t: string, x: seq<byte>, y: seq<byte>)
    requires Text(s) + x == Text(t) + y
    ensures s == t && x == y
  {
    var u, v := Text(s) + x, Text(t) + y;
    assert u[0] == Text(s)[0] && v[0] == Text(t)[0];
    if s == [] {
      assert u[1..] == x && v[1..] == y;
    } else {
      AfterMarker(1, Unary(s[0] as int), Text(s[1..]), x);
      AfterMarker(1, Unary(t[0] as int), Text(t[1..]), y);
      UnaryIsPrefixFree(s[0] as int, t[0] as int, Text(s[1..]) + x, Text(t[1..]) + y);
      TextIsPrefixFree(s[1..], t[1..], x, y);
      assert s == [s[0]] + s[1..] && t == [t[0]] + t[1..];
    }
  }

  lemma {:induction false} PrintIsPrefixFree(a: Json, b: Json, x: seq<byte>, y: seq<byte>)
    requires Print(a) + x == Print(b) + y
    ensures a == b && x == y
    decreases a, 1, 0
  {
    SameMarker(Print(a), x, Print(b), y);
    match a
    case Null => assert Print(a)[1..] + x == x && Print(b)[1..] + y == y;
    case Bool(_) =>
      SameMarker(Print(a)[1..], x, Print(b)[1..], y);
      assert Print(a)[1..][1..] + x == x && Print(b)[1..][1..] + y == y;
    case Unsigned(n) => UnaryIsPrefixFree(n, b.n, x, y);
    case Signed(i) => UnaryIsPrefixFree(if i < 0 then -2 * i - 1 else 2 * i, if b.i < 0 then -2 * b.i - 1 else 2 * b.i, x, y);
    case Float(bits) => UnaryIsPrefixFree(bits, b.bits, x, y);
    case Str(s) => TextIsPrefixFree(s, b.s, x, y);
    case Arr(items) =>
      ItemsArePrefixFree(a, 0, b, 0, x, y);
      assert a.items[0..] == a.items && b.items[0..] == b.items;
    case Obj(fields) =>
      FieldsArePrefixFree(a, fields.Keys, b, b.fields.Keys, x, y);
      SameFields(fields, b.fields);
  }

  lemma SameMarker(u: seq<byte>, x: seq<byte>, v: seq<byte>, y: seq<byte>)
    requires u != [] && v != [] && u + x == v + y
    ensures u[0] == v[0] && u[1..] + x == v[1..] + y
  {
    assert u[0] == (u + x)[0] && v[0] == (v + y)[0];
    assert u[1..] + x == (u + x)[1..] && v[1..] + y == (v + y)[1..];
  }

  lemma SameFields(f: map<string, Json>, g: map<string, Json>)
    requires f.Keys == g.Keys && forall key :: key in f.Keys ==> f[key] == g[key]
    ensures f == g
  {
    forall key | key in f ensures key in g && f[key] == g[key] {
      assert key in f.Keys;
    }
  }

  lemma {:induction false} ItemsArePrefixFree(a: Json, i: nat, b: Json, k: nat, x: seq<byte>, y: seq<byte>)
    requires a.Arr? && i <= |a.items| && b.Arr? && k <= |b.items|
    requires PrintItems(a, i) + x == PrintItems(b, k) + y
    ensures a.items[i..] == b.items[k..] && x == y
    decreases a, 0, |a.items| - i
  {
    var u, v := PrintItems(a, i) + x, PrintItems(b, k) + y;
    assert u[0] == PrintItems(a, i)[0] && v[0] == PrintItems(b, k)[0];
    if i == |a.items| {
      assert u[1..] == x && v[1..] == y;
    } else {
      AfterMarker(1, Print(a.items[i]), PrintItems(a, i + 1), x);
      AfterMarker(1, Print(b.items[k]), PrintItems(b, k + 1), y);
      PrintIsPrefixFree(a.items[i], b.items[k], PrintItems(a, i + 1) + x, PrintItems(b, k + 1) + y);
      ItemsArePrefixFree(a, i + 1, b, k + 1, x, y);
      assert a.items[i..] == [a.items[i]] + a.items[i + 1..] && b.items[k..] == [b.items[k]] + b.items[k + 1..];
    }
  }

  lemma {:induction false} FieldsArePrefixFree(a: Json, ks: set<string>, b: Json, ls: set<string>, x: seq<byte>, y: seq<byte>)
    requires a.Obj? && ks <= a.fields.Keys && b.Obj? && ls <= b.fields.Keys
    requires PrintFields(a, ks) + x == PrintFields(b, ls) + y
    ensures ks == ls && x == y
    ensures forall key :: key in ks ==> a.fields[key] == b.fields[key]
    decreases a, 0, |ks|
  {
    var u, v := PrintFields(a, ks) + x, PrintFields(b, ls) + y;
    assert u[0] == PrintFields(a, ks)[0] && v[0] == PrintFields(b, ls)[0];
    if ks == {} {
      assert u[1..] == x && v[1..] == y;
    } else {
      var k, l := Pick(ks), Pick(ls);
      var ks', ls' := ks - {k}, ls - {l};
      AfterField(a, ks, x);
      AfterField(b, ls, y);
      TextIsPrefixFree(k, l, Print(a.fields[k]) + (PrintFields(a, ks') + x), Print(b.fields[l]) + (PrintFields(b, ls') + y));
      PrintIsPrefixFree(a.fields[k], b.fields[l], PrintFields(a, ks') + x, PrintFields(b, ls') + y);
      FieldsArePrefixFree(a, ks', b, ls', x, y);
      SamePick(ks, ls, k);
    }
  }

  lemma AfterField(a: Json, ks: set<string>, x: seq<byte>)
    requires a.Obj? && ks <= a.fields.Keys && ks != {}
    ensures var k := Pick(ks);
            (PrintFields(a, ks) + x)[1..] == Text(k) + (Print(a.fields[k]) + (PrintFields(a, ks - {k}) + x))
  {
    var k := Pick(ks);
    AfterMarker(1, Text(k), Print(a.fields[k]), PrintFields(a, ks - {k}) + x);
    assert PrintFields(a, ks) + x == [1] + Text(k) + Print(a.fields[k]) + (PrintFields(a, ks - {k}) + x);
  }

  lemma SamePick(ks: set<string>, ls: set<string>, k: string)
    requires k in ks && k in ls && ks - {k} == ls - {k}
    ensures ks == ls
  {
    assert ks == (ks - {k}) + {k} && ls == (ls - {k}) + {k};
  }

  // ---------- the library ----------

  /** The code above behind a marker, except that one value is printed as n other bytes. */
  ghost function TextOf(special: Json, n: nat, j: Json): seq<byte>
    requires n > 0
  {
    if j == special then Repeated(n) else [66] + Print(j)
  }

  function Repeated(n: nat): (s: seq<byte>)
    ensures |s| == n && forall i :: 0 <= i < n ==> s[i] == 65
  {
    seq(n, _ => 65)
  }

  ghost function ValueOf(special: Json, n: nat, text: seq<byte>): Option<Json>
    requires n > 0
  {
    if j: Json :| TextOf(special, n, j) == text then Some(j) else None
  }

  lemma ValueOfText(special: Json, n: nat, j: Json)
    requires n > 0
    ensures ValueOf(special, n, TextOf(special, n, j)) == Some(j)
  {
    var read := ValueOf(special, n, TextOf(special, n, j));
    assert read.Some?;
    var k := read.value;
    assert TextOf(special, n, k)[0] == TextOf(special, n, j)[0];
    if j != special {
      assert TextOf(special, n, k)[1..] == Print(k) && TextOf(special, n, j)[1..] == Print(j);
      PrintIsPrefixFree(k, j, [], []);
    }
  }

  lemma {:induction false} LettersAreAccepted(b: Utf8.Bytes)
    requires forall i :: 0 <= i < |b| ==> b[i] == 65
    ensures Utf8.Accepts(b)
  {
    if b != [] {
      LettersAreAccepted(b[1..]);
      assert Utf8.LeadLength(b[0]) == 1 && Utf8.IsUnit(b[..1]);
    }
  }

  lemma AsciiIsRecognised(s: seq<byte>)
    requires forall i :: 0 <= i < |s| ==> s[i] == 65
    ensures Utf8.Recognised(Bits(s))
  {
    LettersAreAccepted(Bits(s));
    Utf8.AcceptsIsRecognised(Bits(s));
  }

  ghost function SomeLibrary(special: Json, n: nat): Lib
    requires n > 0
  {
    Lib(p => Pad(p), c => Unpad(c), j => TextOf(special, n, Reread(j)), t => ValueOf(special, n, t))
  }

  lemma CipherIsSound(special: Json, n: nat, p: seq<byte>)
    requires n > 0
    ensures var lib := SomeLibrary(special, n);
            |lib.encrypt(p)| == 16 * (|p| / 16 + 1) && lib.decrypt(lib.encrypt(p)) == Some(p)
  {
    PadRoundTrip(p);
  }

  lemma PrinterIsSound(special: Json, n: nat, j: Json)
    requires n > 0
    ensures var lib := SomeLibrary(special, n);
            lib.parse(lib.dump(j)) == Some(Reread(j)) && lib.dump(j) != []
  {
    ValueOfText(special, n, Reread(j));
  }

  lemma SomeLibraryIsSound(special: Json, n: nat)
    requires n > 0
    ensures Sound(SomeLibrary(special, n))
  {
    forall p: seq<byte> { CipherIsSound(special, n, p); }
    forall j: Json { PrinterIsSound(special, n, j); }
  }

  lemma PlainTextIsEncoded(lib: Lib, m: Message, n: nat)
    requires Sound(lib) && n <= MAX_PAYLOAD && lib.dump(ToJson(m)) == Repeated(n)
    ensures Encoded(lib, m).Ok?
  {
    AsciiIsRecognised(Repeated(n));
  }

  lemma SpecialText(j: Json, n: nat)
    requires n > 0
    ensures SomeLibrary(Reread(j), n).dump(j) == Repeated(n)
  {
  }

  /** The hypotheses of the round trips hold of some library, whatever message is to be sent and however long its text. */
  lemma SoundLibrariesExist(m: Message, n: nat)
    requires 0 < n <= MAX_PAYLOAD
    ensures exists lib: Lib :: Sound(lib) && Encoded(lib, m).Ok? && |lib.dump(ToJson(m))| == n
  {
    var j := ToJson(m);
    var lib := SomeLibrary(Reread(j), n);
    SomeLibraryIsSound(Reread(j), n);
    SpecialText(j, n);
    PlainTextIsEncoded(lib, m, n);
  }
}
