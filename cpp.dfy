/** The few pieces of C++ semantics the cipher relies on: the truncating `%`
    of `int`, `abs`, `std::map::insert` (which never overwrites) and
    `std::map::at` (which throws `std::out_of_range` on a missing key). */
module Cpp {

  /** The outcome of a call that may throw `std::out_of_range`. */
  datatype Result<T> = Ok(value: T) | OutOfRange {
    predicate IsFailure() { OutOfRange? }

    function PropagateFailure<U>(): Result<U>
      requires OutOfRange?
    {
      OutOfRange
    }

    function Extract(): T
      requires Ok?
    {
      value
    }
  }

  /** C++ `a % 26` on `int`: the quotient is truncated toward zero, so the
      remainder takes the sign of the dividend (Dafny's `%` never does). */
  function TruncMod26(a: int): (r: int)
    ensures a >= 0 ==> 0 <= r < 26
    ensures a < 0 ==> -26 < r <= 0
  {
    if a >= 0 then a % 26 else -((-a) % 26)
  }

  /** The truncated remainder differs from the dividend by a multiple of 26
      and is never of the opposite sign. */
  lemma TruncMod26Congruent(a: int)
    ensures (a - TruncMod26(a)) % 26 == 0
    ensures a >= 0 ==> TruncMod26(a) == a % 26
    ensures a < 0 ==> TruncMod26(a) == 0 || TruncMod26(a) == a % 26 - 26
  {
  }

  /** C++ `abs` on `int` (no overflow: integers are unbounded here). */
  function Abs(x: int): (r: nat)
    ensures r == x || r == -x
  {
    if x < 0 then -x else x
  }

  /** `m.insert({k, v})`: adds the pair only when `k` is absent, so an
      existing entry is never overwritten. */
  function Insert<K, V>(m: map<K, V>, k: K, v: V): (r: map<K, V>)
    ensures r.Keys == m.Keys + {k}
    ensures forall j :: j in m ==> r[j] == m[j]
    ensures k !in m ==> r[k] == v
  {
    if k in m then m else m[k := v]
  }

  /** `m.at(k)`. */
  function At<K, V>(m: map<K, V>, k: K): (r: Result<V>)
    ensures r.Ok? <==> k in m
    ensures r.Ok? ==> r.value == m[k]
  {
    if k in m then Ok(m[k]) else OutOfRange
  }

  predicate IsLower(c: char) { 'a' <= c <= 'z' }

  predicate AllLower(s: string) { forall i :: 0 <= i < |s| ==> IsLower(s[i]) }
}
