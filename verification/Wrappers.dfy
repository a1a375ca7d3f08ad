/** Shapes and small facts the rest of the project shares. */
module Wrappers {
  datatype Option<+T> = None | Some(value: T)

  datatype Result<+T> = Ok(value: T) | Err(error: string)

  function Min(a: int, b: int): int {
    if a < b then a else b
  }

  function Concat<T>(parts: seq<seq<T>>): seq<T> {
    if parts == [] then [] else parts[0] + Concat(parts[1..])
  }

  lemma {:induction false} ConcatAppend<T>(us: seq<seq<T>>, vs: seq<seq<T>>)
    ensures Concat(us + vs) == Concat(us) + Concat(vs)
  {
    if us == [] {
      assert us + vs == vs;
    } else {
      assert (us + vs)[1..] == us[1..] + vs;
      ConcatAppend(us[1..], vs);
    }
  }

  lemma Associative<T>(a: seq<T>, b: seq<T>, c: seq<T>)
    ensures (a + b) + c == a + (b + c)
  {
  }

  lemma Inhabited(s: set<int>)
    ensures s == {} || exists x :: x in s
  {
    if forall x :: x !in s { assert s == {}; }
  }

  lemma SubsetSize<T>(a: set<T>, b: set<T>)
    requires a <= b
    ensures |a| <= |b|
    ensures |b - a| == |b| - |a|
  {
    assert b == a + (b - a);
  }

  lemma OneMoreElement<T>(a: set<T>, b: set<T>, x: T, added: bool)
    requires x !in a && forall y :: y in b <==> (y == x && added) || y in a
    ensures |b| == |a| + (if added then 1 else 0)
  {
    var more := if added then a + {x} else a;
    assert b <= more && more <= b && b == more;
  }
}
