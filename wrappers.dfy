/** Small value wrappers shared by the other modules. */
module Wrappers {

  /** A value that may be absent (Python's None, or a missing dictionary key). */
  datatype Option<+T> = None | Some(value: T) {

    /** The value, or `default` when absent (Python's `d.get(k, default)`). */
    function GetOr(default: T): T {
      match this
      case Some(v) => v
      case None => default
    }
  }

  /** `m.get(k, d)` on a map. */
  function MapGet<K, V>(m: map<K, V>, k: K, d: V): V {
    if k in m then m[k] else d
  }

  /** `m.get(k)`: the value under `k`, or None. */
  function MapFind<K, V>(m: map<K, V>, k: K): Option<V> {
    if k in m then Some(m[k]) else None
  }

  /** The concatenation of `f(x)` over `s`, in order. */
  function ConcatMap<T, U>(f: T -> seq<U>, s: seq<T>): seq<U> {
    if s == [] then [] else ConcatMap(f, s[..|s| - 1]) + f(s[|s| - 1])
  }

  /** One more element extends the concatenation by its image. */
  lemma ConcatMapStep<T, U>(f: T -> seq<U>, s: seq<T>, i: nat)
    requires i < |s|
    ensures ConcatMap(f, s[..i + 1]) == ConcatMap(f, s[..i]) + f(s[i])
  {
    assert s[..i + 1][..i] == s[..i];
  }

  /** Concatenation distributes over appending the inputs. */
  lemma {:induction false} ConcatMapAppend<T, U>(f: T -> seq<U>, a: seq<T>, b: seq<T>)
    ensures ConcatMap(f, a + b) == ConcatMap(f, a) + ConcatMap(f, b)
  {
    if b == [] {
      assert a + b == a;
    } else {
      var n := |b| - 1;
      assert (a + b)[..|a + b| - 1] == a + b[..n];
      ConcatMapAppend(f, a, b[..n]);
    }
  }

  /** An element of the concatenation comes from the image of some input, and every
      element of every image appears. */
  lemma {:induction false} ConcatMapMember<T, U>(f: T -> seq<U>, s: seq<T>, w: U)
    ensures w in ConcatMap(f, s) <==> exists x :: x in s && w in f(x)
  {
    if s != [] {
      var n := |s| - 1;
      ConcatMapMember(f, s[..n], w);
      assert s == s[..n] + [s[n]];
    }
  }

  /** The larger of two reals (`max`). */
  function Max(a: real, b: real): real { if a >= b then a else b }

  /** The smaller of two reals (`min`). */
  function Min(a: real, b: real): real { if a <= b then a else b }

  /** A non-empty set of integers has a member. */
  lemma NonEmptyHasMember(s: set<int>)
    requires s != {}
    ensures exists x :: x in s
  {
    var e: set<int> := {};
    assert (forall x :: x in s <==> x in e) ==> s == e;
  }
}
