/**
 The UTF-8 recogniser of common/src/codec.cpp, its meaning as a language of
 units, and its relation to the well-formed strings of section 4 of RFC 3629.
 */
module Utf8 {
  import opened Wrappers

  type Bytes = seq<bv8>

  // ---------- the language ----------

  /** Length announced by a lead byte; 0 when the byte cannot start a unit. */
  function LeadLength(c: bv8): nat {
    if c <= 0x7F then 1
    else if 0xC2 <= c <= 0xDF then 2
    else if 0xE0 <= c <= 0xEF then 3
    else if 0xF0 <= c <= 0xF7 then 4
    else 0
  }

  predicate Continuation(c: bv8) {
    0x80 <= c <= 0xBF
  }

  predicate IsUnit(u: Bytes) {
    && 0 < |u| == LeadLength(u[0])
    && forall j :: 1 <= j < |u| ==> Continuation(u[j])
  }

  ghost predicate Splits(s: Bytes, units: seq<Bytes>) {
    && (forall k :: 0 <= k < |units| ==> IsUnit(units[k]))
    && Concat(units) == s
  }

  ghost predicate Recognised(s: Bytes) {
    exists units :: Splits(s, units)
  }

  // ---------- the loop ----------

  /** The unit at the front of s, and then the rest: the order in which the loop looks at s. */
  ghost predicate Accepts(s: Bytes) {
    s == [] ||
    (var n := LeadLength(s[0]); 0 < n <= |s| && IsUnit(s[..n]) && Accepts(s[n..]))
  }

  method IsValidUtf8(s: Bytes) returns (ok: bool)
    ensures ok <==> Recognised(s)
  {
    AcceptsIsRecognised(s);
    var len := |s|;
    var i := 0;
    while i < len
      invariant 0 <= i <= len
      invariant Accepts(s) <==> Accepts(s[i..])
    {
      var c := s[i];
      var remaining := 0;
      if c <= 0x7F {
        remaining := 0;
      } else if c >> 5 == 0x6 {
        remaining := 1;
        if c & 0x1E == 0 { return false; }
      } else if c >> 4 == 0xE {
        remaining := 2;
      } else if c >> 3 == 0x1E {
        remaining := 3;
      } else {
        return false;
      }
      assert LeadLength(s[i..][0]) == remaining + 1;
      if i + remaining >= len { return false; }
      ghost var u := s[i..][..remaining + 1];
      for j := 1 to remaining + 1
        invariant forall m :: 1 <= m < j ==> Continuation(u[m])
      {
        if s[i + j] >> 6 != 0x2 {
          assert !Continuation(u[j]);
          return false;
        }
      }
      assert IsUnit(u);
      assert s[i..][remaining + 1..] == s[i + remaining + 1..];
      i := i + remaining + 1;
    }
    return true;
  }

  lemma {:induction false} AcceptsIsRecognised(s: Bytes)
    ensures Accepts(s) <==> Recognised(s)
  {
    if Accepts(s) {
      var units := SplitOf(s);
    }
    if units :| Splits(s, units) {
      SplitIsAccepted(s, units);
    }
  }

  lemma {:induction false} SplitOf(s: Bytes) returns (units: seq<Bytes>)
    requires Accepts(s)
    ensures Splits(s, units)
  {
    if s == [] {
      units := [];
    } else {
      var n := LeadLength(s[0]);
      var rest := SplitOf(s[n..]);
      units := [s[..n]] + rest;
      assert units[1..] == rest;
    }
  }

  lemma {:induction false} SplitIsAccepted(s: Bytes, units: seq<Bytes>)
    requires Splits(s, units)
    ensures Accepts(s)
  {
    if units != [] {
      var n := |units[0]|;
      assert s[..n] == units[0] && s[n..] == Concat(units[1..]);
      SplitIsAccepted(s[n..], units[1..]);
    }
  }

  // ---------- what the language is worth ----------

  /** The units, byte by byte: what the four lead ranges announce, and nothing else. */
  lemma UnitsExactly(u: Bytes)
    ensures IsUnit(u) <==>
              || (|u| == 1 && u[0] <= 0x7F)
              || (|u| == 2 && 0xC2 <= u[0] <= 0xDF && 0x80 <= u[1] <= 0xBF)
              || (|u| == 3 && 0xE0 <= u[0] <= 0xEF && 0x80 <= u[1] <= 0xBF && 0x80 <= u[2] <= 0xBF)
              || (|u| == 4 && 0xF0 <= u[0] <= 0xF7 && 0x80 <= u[1] <= 0xBF && 0x80 <= u[2] <= 0xBF && 0x80 <= u[3] <= 0xBF)
  {
    if |u| > 1 && IsUnit(u) { assert Continuation(u[1]); }
    if |u| > 2 && IsUnit(u) { assert Continuation(u[2]); }
    if |u| > 3 && IsUnit(u) { assert Continuation(u[3]); }
  }

  /** A recognised string splits in one way only. */
  lemma {:induction false} SplitIsUnique(s: Bytes, us: seq<Bytes>, vs: seq<Bytes>)
    requires Splits(s, us) && Splits(s, vs)
    ensures us == vs
  {
    if us != [] && vs != [] {
      var n := |us[0]|;
      assert s[0] == us[0][0] && s[0] == vs[0][0];
      assert s[..n] == us[0] && s[..n] == vs[0];
      assert s[n..] == Concat(us[1..]) && s[n..] == Concat(vs[1..]);
      SplitIsUnique(s[n..], us[1..], vs[1..]);
      assert us == [us[0]] + us[1..] && vs == [vs[0]] + vs[1..];
    }
  }

  /** Recognised strings are closed under concatenation, and a recognised prefix may be cut off. */
  lemma {:induction false} RecognisedConcat(a: Bytes, b: Bytes)
    requires Recognised(a)
    ensures Recognised(a + b) <==> Recognised(b)
  {
    var us :| Splits(a, us);
    if vs :| Splits(b, vs) {
      ConcatAppend(us, vs);
      assert Splits(a + b, us + vs);
    }
    if ws :| Splits(a + b, ws) {
      PrefixOfSplit(a, us, b, ws);
    }
  }

  lemma {:induction false} PrefixOfSplit(a: Bytes, us: seq<Bytes>, b: Bytes, ws: seq<Bytes>)
    requires Splits(a, us) && Splits(a + b, ws)
    ensures Recognised(b)
  {
    if us == [] {
      assert a + b == b;
    } else {
      var n := |us[0]|;
      var ab := a + b;
      assert ab[0] == us[0][0];
      assert ab[0] == ws[0][0];
      assert ab[n..] == Concat(ws[1..]) && a[n..] == Concat(us[1..]);
      assert ab[n..] == a[n..] + b;
      PrefixOfSplit(a[n..], us[1..], b, ws[1..]);
    }
  }

  // ---------- RFC 3629 ----------

  /** UTF8-1, UTF8-2, UTF8-3 and UTF8-4 of section 4 of RFC 3629. */
  predicate IsRfcUnit(u: Bytes) {
    || (|u| == 1 && u[0] <= 0x7F)
    || (|u| == 2 && 0xC2 <= u[0] <= 0xDF && Continuation(u[1]))
    || (|u| == 3 && Continuation(u[2]) &&
        (|| (u[0] == 0xE0 && 0xA0 <= u[1] <= 0xBF)
         || (0xE1 <= u[0] <= 0xEC && Continuation(u[1]))
         || (u[0] == 0xED && 0x80 <= u[1] <= 0x9F)
         || (0xEE <= u[0] <= 0xEF && Continuation(u[1]))))
    || (|u| == 4 && Continuation(u[2]) && Continuation(u[3]) &&
        (|| (u[0] == 0xF0 && 0x90 <= u[1] <= 0xBF)
         || (0xF1 <= u[0] <= 0xF3 && Continuation(u[1]))
         || (u[0] == 0xF4 && 0x80 <= u[1] <= 0x8F)))
  }

  ghost predicate RfcWellFormed(s: Bytes) {
    exists units ::
      && (forall k :: 0 <= k < |units| ==> IsRfcUnit(units[k]))
      && Concat(units) == s
  }

  /** Well-formed means recognised, with no unit of the (unique) split outside the RFC's table. */
  lemma RfcExactly(s: Bytes)
    ensures RfcWellFormed(s) <==>
            exists units :: Splits(s, units) && forall k :: 0 <= k < |units| ==> IsRfcUnit(units[k])
  {
    if units :| (forall k :: 0 <= k < |units| ==> IsRfcUnit(units[k])) && Concat(units) == s {
      forall k | 0 <= k < |units| ensures IsUnit(units[k]) {
        assert IsRfcUnit(units[k]);
      }
      assert Splits(s, units);
    }
  }

  /** A recognised unit lies outside the RFC exactly when it is overlong, a surrogate or above U+10FFFF. */
  lemma ExcessUnits(u: Bytes)
    requires IsUnit(u)
    ensures !IsRfcUnit(u) <==>
            || (u[0] == 0xE0 && u[1] < 0xA0)
            || (u[0] == 0xED && u[1] > 0x9F)
            || (u[0] == 0xF0 && u[1] < 0x90)
            || (u[0] == 0xF4 && u[1] > 0x8F)
            || u[0] > 0xF4
  {
    if |u| > 1 { assert Continuation(u[1]); }
    if |u| > 2 { assert Continuation(u[2]); }
    if |u| > 3 { assert Continuation(u[3]); }
  }

  /** Strictly more than the RFC is recognised: an overlong form, and a surrogate. */
  lemma StrictlyMore()
    ensures Recognised([0xE0, 0x80, 0x80]) && !RfcWellFormed([0xE0, 0x80, 0x80])
    ensures Recognised([0xED, 0xA0, 0x80]) && !RfcWellFormed([0xED, 0xA0, 0x80])
  {
    LoneUnit([0xE0, 0x80, 0x80]);
    LoneUnit([0xED, 0xA0, 0x80]);
  }

  lemma LoneUnit(u: Bytes)
    requires IsUnit(u)
    ensures Recognised(u)
    ensures RfcWellFormed(u) <==> IsRfcUnit(u)
  {
    assert Concat([u]) == u + Concat([]) == u;
    assert Splits(u, [u]);
    RfcExactly(u);
    if units :| Splits(u, units) && forall k :: 0 <= k < |units| ==> IsRfcUnit(units[k]) {
      SplitIsUnique(u, units, [u]);
      assert IsRfcUnit(units[0]);
    }
  }
}
