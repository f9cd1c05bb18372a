/** `class Reflector` of the source: a table filled once by a loop of
    `insert`s, and the offset-dependent lookup into it. */
module Reflectors {
  import opened Cpp
  import opened Cipher

  class Reflector {
    var table: map<char, char>

    /** The table as the constructor leaves it. */
    ghost predicate Valid()
      reads this
    {
      table == ReflectorTable()
    }

    /** For `i` from 'a' to 'n' it inserts `i -> i+12` and `i+12 -> i`.
        Because `insert` never overwrites, the last two turns add only
        'y' -> 'm' and 'z' -> 'n': the keys 'm' and 'n' are already there. */
    constructor ()
      ensures Valid()
    {
      table := map[];
      new;
      for i := 97 to 111
        invariant PairedOn(table, i, i + 12)
      {
        ForwardStep(table, i, i as char, (i + 12) as char);
        table := Insert(table, i as char, (i + 12) as char);
        BackwardStep(table, i, (i + 12) as char, i as char);
        table := Insert(table, (i + 12) as char, i as char);
      }
      PairedFilled(table);
    }

    /** Looks up `((prev - (input - 97)) % 26) + 97` with C++'s `%`, using
        the raw ordinal `prev`. On a lowercase input with `prev` a letter's
        ordinal the key is a letter and the lookup succeeds; a negative
        difference gives a key below 'a' and the lookup throws. */
    function CalculateReflect(input: char, prevMainLater: int): (r: Result<char>)
      reads this
      ensures Valid() ==> r == Reflect(input, prevMainLater)
      ensures Valid() && IsLower(input) && 97 <= prevMainLater <= 122 ==> r.Ok? && IsLower(r.value)
    {
      var inCorrect := input as int - 97;
      var rez := TruncMod26(prevMainLater - inCorrect);
      ReflectorTableAt((rez + 97) as char);
      At(table, (rez + 97) as char)
    }
  }

  /** `t` holds exactly the keys from 'a' below ordinal `a` and from 'm'
      below ordinal `b`, each with its final value. */
  ghost predicate PairedOn(t: map<char, char>, a: int, b: int)
  {
    97 <= a <= 111 && 109 <= b <= 123 &&
    (forall c :: c in t <==> 97 <= c as int < a || 109 <= c as int < b) &&
    (forall c :: c in t ==> IsLower(c) && t[c] == ReflectorOf(c))
  }

  /** The first insert of turn `i`, of `k -> v` with `k` the letter `i`
      and `v` twelve letters on: a new key below 'm', or a no-op. */
  lemma ForwardStep(t: map<char, char>, i: int, k: char, v: char)
    requires PairedOn(t, i, i + 12) && i < 111
    requires k as int == i && v as int == i + 12
    ensures PairedOn(Insert(t, k, v), i + 1, i + 12)
  {
    if i < 109 {
      assert k !in t;
    } else {
      assert k in t;
    }
  }

  /** The second insert of turn `i`, of `k -> v` with `k` twelve letters on
      from the letter `v`: always a new key from 'm' on. */
  lemma BackwardStep(t: map<char, char>, i: int, k: char, v: char)
    requires PairedOn(t, i + 1, i + 12) && i < 111
    requires k as int == i + 12 && v as int == i
    ensures PairedOn(Insert(t, k, v), i + 1, i + 13)
  {
    assert k !in t;
  }

  lemma ReflectorTableAt(k: char)
    ensures At(ReflectorTable(), k) == if IsLower(k) then Ok(ReflectorOf(k)) else OutOfRange
  {
  }

  lemma PairedFilled(t: map<char, char>)
    requires PairedOn(t, 111, 123)
    ensures t == ReflectorTable()
  {
  }
}
