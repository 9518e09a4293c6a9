/** Small datatypes and sequence lemmas shared by the other modules. */
module Common {

  type byte = x: int | 0 <= x < 256

  datatype Option<+T> = None | Some(value: T)

  datatype Result<+T, +E> = Success(value: T) | Failure(error: E)

  function Distance(a: int, b: int): nat {
    if a < b then b - a else a - b
  }

  function Least(a: int, b: int): int {
    if a < b then a else b
  }

  function Greatest(a: int, b: int): int {
    if a < b then b else a
  }

  /** The parts one after the other. */
  function Flat<T>(parts: seq<seq<T>>): seq<T> {
    if parts == [] then [] else parts[0] + Flat(parts[1..])
  }

  /** Sum of `f` over the elements of `s`, in order. */
  ghost function Sum<T>(s: seq<T>, f: T -> int): int {
    if s == [] then 0 else f(s[0]) + Sum(s[1..], f)
  }

  lemma {:induction false} SumConcat<T>(a: seq<T>, b: seq<T>, f: T -> int)
    ensures Sum(a + b, f) == Sum(a, f) + Sum(b, f)
  {
    if a == [] {
      assert a + b == b;
    } else {
      assert (a + b)[1..] == a[1..] + b;
      SumConcat(a[1..], b, f);
    }
  }

  lemma SumFirst<T>(x: T, s: seq<T>, f: T -> int)
    ensures Sum([x] + s, f) == f(x) + Sum(s, f)
  {
    assert ([x] + s)[1..] == s;
  }

  /** Replacing one element changes the sum by the difference of the two values. */
  lemma SumUpdate<T>(s: seq<T>, i: nat, x: T, f: T -> int)
    requires i < |s|
    ensures Sum(s[i := x], f) == Sum(s, f) - f(s[i]) + f(x)
  {
    hide Sum;
    assert s == s[..i] + ([s[i]] + s[i + 1..]);
    assert s[i := x] == s[..i] + ([x] + s[i + 1..]);
    SumConcat(s[..i], [s[i]] + s[i + 1..], f);
    SumConcat(s[..i], [x] + s[i + 1..], f);
    SumFirst(s[i], s[i + 1..], f);
    SumFirst(x, s[i + 1..], f);
  }

  function RemoveAt<T>(s: seq<T>, i: nat): seq<T>
    requires i < |s|
  {
    s[..i] + s[i + 1..]
  }

  lemma SumRemoveAt<T>(s: seq<T>, i: nat, f: T -> int)
    requires i < |s|
    ensures Sum(RemoveAt(s, i), f) == Sum(s, f) - f(s[i])
  {
    hide Sum;
    assert s == s[..i] + ([s[i]] + s[i + 1..]);
    SumConcat(s[..i], [s[i]] + s[i + 1..], f);
    SumConcat(s[..i], s[i + 1..], f);
    SumFirst(s[i], s[i + 1..], f);
  }

  lemma SumAppend<T>(s: seq<T>, x: T, f: T -> int)
    ensures Sum(s + [x], f) == Sum(s, f) + f(x)
  {
    SumConcat(s, [x], f);
  }
}
