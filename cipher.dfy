/** The cipher on plain values: what one rotor stage, one half pass, the
    reflection and a whole run compute from the rotors' offset ordinals.
    The classes in Rotors, Reflectors and Machine hold the same tables as
    `map`s and are proved to agree with these definitions. */
module Cipher {
  import opened Cpp

  /** `CodeStatus` of the source: towards the reflector or back from it. */
  datatype CodeStatus = In | Out

  /** The outcome of `Enigma::Run`: every character enciphered, or an
      `std::out_of_range` escaped after `out` had been appended. */
  datatype RunOutcome = Done(out: string) | Threw(out: string)

  // ---------------------------------------------------------------- tables

  /** The mirror (Atbash) substitution 'a'<->'z', 'b'<->'y', ... held by both
      tables of every rotor. */
  function MirrorOf(c: char): (r: char)
    requires IsLower(c)
    ensures IsLower(r)
    ensures (r as int - 97) + (c as int - 97) == 25
  {
    (219 - c as int) as char
  }

  function MirrorTable(): (t: map<char, char>)
  {
    map c: char | 'a' <= c <= 'z' :: MirrorOf(c)
  }

  /** The reflector's table as the insertion loop leaves it: the first
      half of the alphabet moves forward twelve letters, every later letter
      (including 'y' and 'z') moves back twelve. */
  function ReflectorOf(c: char): (r: char)
    requires IsLower(c)
    ensures IsLower(r)
    ensures c < 'm' ==> r as int == c as int + 12
    ensures 'm' <= c ==> r as int == c as int - 12
  {
    if c < 'm' then (c as int + 12) as char else (c as int - 12) as char
  }

  function ReflectorTable(): (t: map<char, char>)
  {
    map c: char | 'a' <= c <= 'z' :: ReflectorOf(c)
  }

  lemma MirrorIsInvolution(c: char)
    requires IsLower(c)
    ensures MirrorOf(MirrorOf(c)) == c
    ensures MirrorOf(c) != c
  {
  }

  /** The reflector pairs 'a'..'l' with 'm'..'x' both ways, but it is not an
      involution on 'y' and 'z': 'y' goes to 'm', which comes back as 'a'. */
  lemma ReflectorPairs(c: char)
    requires IsLower(c)
    ensures c <= 'x' ==> ReflectorOf(ReflectorOf(c)) == c
    ensures c > 'x' ==> ReflectorOf(ReflectorOf(c)) as int == c as int - 24
    ensures ReflectorOf('y') == 'm' && ReflectorOf('z') == 'n'
  {
  }

  lemma ReflectorNotInvolution()
    ensures exists c :: IsLower(c) && ReflectorOf(ReflectorOf(c)) != c
  {
    assert IsLower('y') && ReflectorOf(ReflectorOf('y')) == 'a';
  }

  // -------------------------------------------------------------- one rotor

  /** `(c - 97 + k) % 26 + 97` with C++'s `%`. On a lowercase letter this is
      the Caesar shift by `k`; on any character it stays within 72..122, so
      the cast back to `char` is always defined. */
  function Shift(c: char, k: nat): (r: char)
    ensures 72 <= r as int <= 122
    ensures IsLower(c) ==> IsLower(r)
  {
    (TruncMod26(c as int - 97 + k) + 97) as char
  }

  /** On a lowercase letter `Shift` is the Caesar shift, so shifting by a
      whole turn of the alphabet more changes nothing. */
  lemma ShiftIsCaesar(c: char, k: nat)
    requires IsLower(c)
    ensures Shift(c, k) as int - 97 == (c as int - 97 + k) % 26
    ensures Shift(c, k + 26) == Shift(c, k)
  {
  }

  /** The distance `|own offset - previous offset|` by which a rotor shifts;
      a previous ordinal of 0 stands for "no previous rotor", i.e. 'a'. */
  function Gap(own: int, prev: int): (d: nat)
    ensures prev != 0 ==> d == Abs(own - prev)
    ensures prev == 0 ==> d == Abs(own - 97)
  {
    Abs((own - 97) - (if prev == 0 then 0 else prev - 97))
  }

  /** One stage of a half pass: shift by the gap, then look up the mirror
      table, which holds only the lowercase letters. */
  function Stage(c: char, own: int, prev: int): (r: Result<char>)
    ensures r.Ok? <==> IsLower(Shift(c, Gap(own, prev)))
    ensures r.Ok? ==> IsLower(r.value)
    ensures IsLower(c) ==> r.Ok?
  {
    var s := Shift(c, Gap(own, prev));
    if IsLower(s) then Ok(MirrorOf(s)) else OutOfRange
  }

  /** `Enigma::Code` on offset ordinals `o1`, `o2`, `o3`: rotors 1, 2, 3 in
      turn going in, 3, 2, 1 coming out, each coupled to the one before. */
  function HalfPass(status: CodeStatus, o1: int, o2: int, o3: int, c: char): (r: Result<char>)
  {
    match status
    case In =>
      var a :- Stage(c, o1, 0);
      var b :- Stage(a, o2, o1);
      Stage(b, o3, o2)
    case Out =>
      var a :- Stage(c, o3, 0);
      var b :- Stage(a, o2, o3);
      Stage(b, o1, o2)
  }

  /** A half pass never fails on a lowercase letter, whatever the offsets. */
  lemma HalfPassLower(status: CodeStatus, o1: int, o2: int, o3: int, c: char)
    requires IsLower(c)
    ensures HalfPass(status, o1, o2, o3, c).Ok?
    ensures IsLower(HalfPass(status, o1, o2, o3, c).value)
  {
    var a := Stage(c, if status == In then o1 else o3, 0);
    var b := Stage(a.value, o2, if status == In then o1 else o3);
    assert b.Ok?;
  }

  // ------------------------------------------------------------- reflection

  /** The key `Reflector::CalculateReflect` looks up: the raw ordinal `prev`
      (not `prev - 97`) minus the input's index, with C++'s `%`. */
  function ReflectKey(x: char, prev: int): (k: char)
    ensures 72 <= k as int <= 122
  {
    (TruncMod26(prev - (x as int - 97)) + 97) as char
  }

  function Reflect(x: char, prev: int): (r: Result<char>)
    ensures r.Ok? <==> IsLower(ReflectKey(x, prev))
    ensures r.Ok? ==> IsLower(r.value)
    ensures IsLower(x) && prev >= 25 ==> r.Ok?
  {
    var k := ReflectKey(x, prev);
    if IsLower(k) then Ok(ReflectorOf(k)) else OutOfRange
  }

  /** The key is a letter exactly when the difference is not negative or
      is a multiple of 26; otherwise it falls below 'a'. */
  lemma ReflectKeyLower(x: char, prev: int)
    ensures IsLower(ReflectKey(x, prev)) <==>
              prev - (x as int - 97) >= 0 || (prev - (x as int - 97)) % 26 == 0
  {
  }

  /** Because `prev` is a raw ordinal (97 is 19 more than a multiple of 26),
      the key is 19 letters beyond the difference of the two indices. */
  lemma ReflectKeyRawOrdinal(x: char, prev: int)
    requires IsLower(x) && 97 <= prev <= 122
    ensures ReflectKey(x, prev) as int - 97 == ((prev - 97) - (x as int - 97) + 19) % 26
  {
  }

  // -------------------------------------------------------------- full run

  /** One character through the machine, with rotor 1 already advanced. */
  function EncipherLetter(o1: int, o2: int, o3: int, c: char): (r: Result<char>)
  {
    var afterIn :- HalfPass(In, o1, o2, o3, c);
    var afterReflect :- Reflect(afterIn, o3);
    HalfPass(Out, o1, o2, o3, afterReflect)
  }

  lemma EncipherLetterLower(o1: int, o2: int, o3: int, c: char)
    requires IsLower(c) && 97 <= o3 <= 122
    ensures EncipherLetter(o1, o2, o3, c).Ok?
    ensures IsLower(EncipherLetter(o1, o2, o3, c).value)
  {
    HalfPassLower(In, o1, o2, o3, c);
    var afterIn := HalfPass(In, o1, o2, o3, c).value;
    var afterReflect := Reflect(afterIn, o3).value;
    HalfPassLower(Out, o1, o2, o3, afterReflect);
  }

  /** `Rotor::MakeRotate(rot)` on the ordinal offset. */
  function Rotated(o: int, rot: int): (r: int)
    ensures 72 <= r <= 122
    ensures 97 <= o <= 122 && rot >= 0 ==> 97 <= r <= 122
  {
    TruncMod26(o - 97 + rot) + 97
  }

  /** The offset after `n` single-step rotations. */
  function Advanced(o: int, n: nat): (r: int)
  {
    if n == 0 then o else Rotated(Advanced(o, n - 1), 1)
  }

  /** One more step after reducing modulo 26 is the same as reducing after
      the step. */
  lemma ModSucc(a: nat)
    ensures (a % 26 + 1) % 26 == (a + 1) % 26
  {
  }

  /** On an offset in 'a'..'z', `n` single steps land where one rotation by
      `n` does; in particular 26 steps bring the rotor back. */
  lemma {:induction false} AdvancedInRange(o: int, n: nat)
    requires 97 <= o <= 122
    ensures Advanced(o, n) == Rotated(o, n)
    ensures 97 <= Advanced(o, n) <= 122
  {
    if n > 0 {
      AdvancedInRange(o, n - 1);
      ModSucc(o - 97 + n - 1);
    }
  }

  lemma AdvancedCycle(o: int)
    requires 97 <= o <= 122
    ensures Advanced(o, 26) == o
    ensures Rotated(o, 26) == o
  {
    AdvancedInRange(o, 26);
  }

  /** The letter each character of `text` gives, on its own: character `i`
      (from 0) is enciphered with rotor 1 advanced `i + 1` steps. */
  function Letters(o1: int, o2: int, o3: int, text: string): (rs: seq<Result<char>>)
    ensures |rs| == |text|
  {
    seq(|text|, i requires 0 <= i < |text| => EncipherLetter(Advanced(o1, i + 1), o2, o3, text[i]))
  }

  /** The letters' results taken in order, appending each letter, until the
      first failure, which ends the run with what was appended before it. */
  function Collect(rs: seq<Result<char>>): (run: RunOutcome)
  {
    if rs == [] then Done([])
    else
      match Collect(rs[..|rs| - 1])
      case Threw(out) => Threw(out)
      case Done(out) =>
        match rs[|rs| - 1]
        case Ok(x) => Done(out + [x])
        case OutOfRange => Threw(out)
  }

  /** `Enigma::Run` on offsets. */
  function Encipher(o1: int, o2: int, o3: int, text: string): (run: RunOutcome)
  {
    Collect(Letters(o1, o2, o3, text))
  }

  /** What `Collect` gives: the run succeeds exactly when every letter does;
      its output is the letters up to the first failure, one per character,
      and a failed run stops at a failing letter. */
  lemma {:induction false} CollectSpec(rs: seq<Result<char>>)
    ensures Collect(rs).Done? <==> forall i :: 0 <= i < |rs| ==> rs[i].Ok?
    ensures Collect(rs).Done? ==> |Collect(rs).out| == |rs|
    ensures |Collect(rs).out| <= |rs|
    ensures forall i :: 0 <= i < |Collect(rs).out| ==> rs[i] == Ok(Collect(rs).out[i])
    ensures Collect(rs).Threw? ==> |Collect(rs).out| < |rs| && rs[|Collect(rs).out|].OutOfRange?
  {
    if rs != [] {
      var front := rs[..|rs| - 1];
      CollectSpec(front);
      assert forall i :: 0 <= i < |front| ==> rs[i] == front[i];
    }
  }

  /** Once the run has failed, later letters change nothing. */
  lemma {:induction false} ThrewPersists(rs: seq<Result<char>>, more: seq<Result<char>>)
    requires Collect(rs).Threw?
    ensures Collect(rs + more) == Collect(rs)
    decreases |more|
  {
    if more == [] {
      assert rs + more == rs;
    } else {
      var front := more[..|more| - 1];
      assert (rs + more)[..|rs + more| - 1] == rs + front;
      ThrewPersists(rs, front);
    }
  }

  /** One more letter after a run that has not failed so far: a success is
      appended; a failure is the outcome of the whole run. */
  lemma CollectNext(rs: seq<Result<char>>, i: nat)
    requires i < |rs| && Collect(rs[..i]).Done?
    ensures rs[i].Ok? ==> Collect(rs[..i + 1]) == Done(Collect(rs[..i]).out + [rs[i].value])
    ensures rs[i].OutOfRange? ==> Collect(rs) == Threw(Collect(rs[..i]).out)
  {
    assert rs[..i + 1][..i] == rs[..i];
    if rs[i].OutOfRange? {
      assert rs == rs[..i + 1] + rs[i + 1..];
      ThrewPersists(rs[..i + 1], rs[i + 1..]);
    }
  }

  /** A run whose every letter succeeds with a lowercase letter succeeds,
      with one lowercase letter per character. */
  lemma CollectAllLower(rs: seq<Result<char>>)
    requires forall i :: 0 <= i < |rs| ==> rs[i].Ok? && IsLower(rs[i].value)
    ensures Collect(rs).Done? && |Collect(rs).out| == |rs| && AllLower(Collect(rs).out)
  {
    CollectSpec(rs);
  }

  lemma LetterLower(o1: int, o2: int, o3: int, text: string, i: nat)
    requires AllLower(text) && 97 <= o3 <= 122 && i < |text|
    ensures Letters(o1, o2, o3, text)[i].Ok? && IsLower(Letters(o1, o2, o3, text)[i].value)
  {
    EncipherLetterLower(Advanced(o1, i + 1), o2, o3, text[i]);
  }

  /** A lowercase text never fails while rotor 3's offset is a letter, and it
      enciphers to a lowercase text of the same length. */
  lemma EncipherLower(o1: int, o2: int, o3: int, text: string)
    requires AllLower(text) && 97 <= o3 <= 122
    ensures Encipher(o1, o2, o3, text).Done?
    ensures |Encipher(o1, o2, o3, text).out| == |text|
    ensures AllLower(Encipher(o1, o2, o3, text).out)
  {
    forall i | 0 <= i < |text|
      ensures Letters(o1, o2, o3, text)[i].Ok? && IsLower(Letters(o1, o2, o3, text)[i].value)
    {
      LetterLower(o1, o2, o3, text, i);
    }
    CollectAllLower(Letters(o1, o2, o3, text));
  }

  /** The three letters of the program's own example, stage by stage. */
  lemma GoldenFirst()
    ensures EncipherLetter(115, 118, 99, 'x') == Ok('a')
  {
    assert Stage('x', 115, 0) == Ok('k');
    assert Stage('k', 118, 115) == Ok('m');
    assert Stage('m', 99, 118) == Ok('u');
    assert Reflect('u', 99) == Ok('n');
    assert Stage('n', 99, 0) == Ok('k');
    assert Stage('k', 118, 99) == Ok('w');
    assert Stage('w', 115, 118) == Ok('a');
  }

  lemma GoldenSecond()
    ensures EncipherLetter(116, 118, 99, 'w') == Ok('a')
  {
    assert Stage('w', 116, 0) == Ok('k');
    assert Stage('k', 118, 116) == Ok('n');
    assert Stage('n', 99, 118) == Ok('t');
    assert Reflect('t', 99) == Ok('o');
    assert Stage('o', 99, 0) == Ok('j');
    assert Stage('j', 118, 99) == Ok('x');
    assert Stage('x', 116, 118) == Ok('a');
  }

  lemma GoldenThird()
    ensures EncipherLetter(117, 118, 99, 'v') == Ok('a')
  {
    assert Stage('v', 117, 0) == Ok('k');
    assert Stage('k', 118, 117) == Ok('o');
    assert Stage('o', 99, 118) == Ok('s');
    assert Reflect('s', 99) == Ok('p');
    assert Stage('p', 99, 0) == Ok('i');
    assert Stage('i', 118, 99) == Ok('y');
    assert Stage('y', 117, 118) == Ok('a');
  }

  /** Rotor 1 of the program's own example turns from 'r' to 's', 't', 'u'. */
  lemma GoldenOffsets()
    ensures Advanced('r' as int, 1) == 's' as int
    ensures Advanced('r' as int, 2) == 't' as int
    ensures Advanced('r' as int, 3) == 'u' as int
  {
  }

  /** The letters of the program's own example: rotors 'r', 'v', 'c' on
      "xwv". */
  lemma GoldenLetters()
    ensures Letters('r' as int, 'v' as int, 'c' as int, "xwv") == [Ok('a'), Ok('a'), Ok('a')]
  {
    GoldenOffsets();
    var rs := Letters('r' as int, 'v' as int, 'c' as int, "xwv");
    assert rs[0] == Ok('a') by { GoldenFirst(); }
    assert rs[1] == Ok('a') by { GoldenSecond(); }
    assert rs[2] == Ok('a') by { GoldenThird(); }
  }

  /** The run of the program's own example. */
  lemma GoldenRun()
    ensures Encipher('r' as int, 'v' as int, 'c' as int, "xwv") == Done("aaa")
  {
    GoldenLetters();
    var rs := [Ok('a'), Ok('a'), Ok('a')];
    assert rs[..2][..1][..0] == [];
    assert Collect(rs[..1]) == Done("a");
    assert Collect(rs[..2]) == Done("aa");
  }
}
