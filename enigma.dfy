/** `class Enigma` of the source: three borrowed rotors and a borrowed
    reflector, and the output the runs accumulate. */
module Machine {
  import opened Cpp
  import opened Cipher
  import opened Rotors
  import opened Reflectors
  import opened TextFilter

  class Enigma {
    var output: string
    const rot1: Rotor
    const rot2: Rotor
    const rot3: Rotor
    const reflector: Reflector

    /** Rotors and reflector as their constructors build them, and rotor 1
        (the one that turns) shared with neither other rotor. */
    ghost predicate Valid()
      reads rot1, rot2, rot3, reflector
    {
      rot1.Valid() && rot2.Valid() && rot3.Valid() && reflector.Valid() &&
      rot1 != rot2 && rot1 != rot3
    }

    constructor (r1: Rotor, r2: Rotor, r3: Rotor, ref: Reflector)
      ensures rot1 == r1 && rot2 == r2 && rot3 == r3 && reflector == ref
      ensures output == []
    {
      rot1, rot2, rot3, reflector := r1, r2, r3, ref;
      output := [];
    }

    /** One half pass: going in, through rotors 1, 2, 3 with their forward
        tables; coming out, through rotors 3, 2, 1 with their reverse tables.
        Each rotor first shifts by its distance from the rotor before it. */
    function Code(c: char, status: CodeStatus := In): (r: Result<char>)
      reads rot1, rot2, rot3
    {
      match status
        case Out =>
          var first := rot3.CalculateNextLater(c);
          var afterFirst :- rot3.GetWhenOut(first);
          var second := rot2.CalculateNextLater(afterFirst, rot3.GetLaterInt());
          var afterSecond :- rot2.GetWhenOut(second);
          var third := rot1.CalculateNextLater(afterSecond, rot2.GetLaterInt());
          rot1.GetWhenOut(third)
        case In =>
          var first := rot1.CalculateNextLater(c);
          var afterFirst :- rot1.GetWhenIn(first);
          var second := rot2.CalculateNextLater(afterFirst, rot1.GetLaterInt());
          var afterSecond :- rot2.GetWhenIn(second);
          var third := rot3.CalculateNextLater(afterSecond, rot2.GetLaterInt());
          rot3.GetWhenIn(third)
    }

    /** The body of `Run`'s loop for one character: turn rotor 1 one step,
        code the character in, reflect it with rotor 3's ordinal and code it
        out. A failed lookup (`std::out_of_range`) is the `OutOfRange`
        result; rotor 1 has turned either way. */
    method Step(c: char) returns (r: Result<char>)
      requires Valid()
      modifies rot1
      ensures Valid()
      ensures rot1.later == Rotated(old(rot1.later), 1) && rot1.mainLater as int == rot1.later
      ensures unchanged(rot2, rot3, reflector)
      ensures r == EncipherLetter(rot1.later, rot2.later, rot3.later, c)
    {
      rot1.MakeRotate(1);
      LetterAgrees(this, c);
      var afterIn := Code(c);
      if afterIn.OutOfRange? {
        return OutOfRange;
      }
      var afterReflect := reflector.CalculateReflect(afterIn.value, rot3.GetLaterInt());
      if afterReflect.OutOfRange? {
        return OutOfRange;
      }
      r := Code(afterReflect.value, Out);
    }

    /** Each character through `Step`, its result appended to the output.
        A failed lookup ends the run with `ok` false, leaving the output and
        rotor 1 as they were at that point. */
    method Run(text: string) returns (ok: bool)
      requires Valid()
      modifies this, rot1
      ensures Valid()
      ensures var res := Encipher(old(rot1.later), rot2.later, rot3.later, text);
              ok == res.Done? && output == old(output) + res.out &&
              rot1.later == Advanced(old(rot1.later), if ok then |text| else |res.out| + 1)
      ensures text != [] ==> rot1.mainLater as int == rot1.later
      ensures text == [] ==> rot1.mainLater == old(rot1.mainLater)
      ensures unchanged(rot2, rot3, reflector)
    {
      ghost var o1 := rot1.later;
      ghost var letters := Letters(o1, rot2.later, rot3.later, text);
      ghost var out: string := [];
      ok := true;
      for i := 0 to |text|
        invariant Valid()
        invariant unchanged(rot2, rot3, reflector)
        invariant output == old(output) + out && |out| == i
        invariant Collect(letters[..i]) == Done(out)
        invariant rot1.later == Advanced(o1, i)
        invariant i > 0 ==> rot1.mainLater as int == rot1.later
        invariant i == 0 ==> rot1.mainLater == old(rot1.mainLater)
      {
        var afterOut := Step(text[i]);
        assert letters[i] == afterOut;
        CollectNext(letters, i);
        if afterOut.OutOfRange? {
          ok := false;
          return;
        }
        output := output + [afterOut.value];
        out := out + [afterOut.value];
      }
      assert letters[..|text|] == letters;
    }

    function GetOutput(): (s: string)
      reads this
    {
      output
    }
  }

  /** One rotor's step of a half pass is the reference `Stage`. */
  lemma StageAgrees(r: Rotor, c: char, prev: int)
    requires r.Valid()
    ensures r.GetWhenIn(r.CalculateNextLater(c, prev)) == Stage(c, r.later, prev)
    ensures r.GetWhenOut(r.CalculateNextLater(c, prev)) == Stage(c, r.later, prev)
  {
  }

  /** Unfolding helper for `CodeInAgrees`: `Code` going in, written with
      the ordinals in place of the getters. Kept apart from any validity
      fact, because unfolding `Code` next to the rotors' tables is what the
      solver finds hard. */
  lemma CodeInSteps(e: Enigma, c: char)
    ensures e.Code(c, In) ==
      match e.rot1.GetWhenIn(e.rot1.CalculateNextLater(c, 0))
      case OutOfRange => OutOfRange
      case Ok(a) =>
        match e.rot2.GetWhenIn(e.rot2.CalculateNextLater(a, e.rot1.later))
        case OutOfRange => OutOfRange
        case Ok(b) => e.rot3.GetWhenIn(e.rot3.CalculateNextLater(b, e.rot2.later))
  {
  }

  /** Unfolding helper for `CodeOutAgrees`: `Code` coming out, written
      with the ordinals in place of the getters. */
  lemma CodeOutSteps(e: Enigma, c: char)
    ensures e.Code(c, Out) ==
      match e.rot3.GetWhenOut(e.rot3.CalculateNextLater(c, 0))
      case OutOfRange => OutOfRange
      case Ok(a) =>
        match e.rot2.GetWhenOut(e.rot2.CalculateNextLater(a, e.rot3.later))
        case OutOfRange => OutOfRange
        case Ok(b) => e.rot1.GetWhenOut(e.rot1.CalculateNextLater(b, e.rot2.later))
  {
  }

  /** Three valid rotors' forward lookups, chained, are the reference half
      pass going in. */
  lemma PassInAgrees(r1: Rotor, r2: Rotor, r3: Rotor, c: char)
    requires r1.Valid() && r2.Valid() && r3.Valid()
    ensures HalfPass(In, r1.later, r2.later, r3.later, c) ==
      match r1.GetWhenIn(r1.CalculateNextLater(c, 0))
      case OutOfRange => OutOfRange
      case Ok(a) =>
        match r2.GetWhenIn(r2.CalculateNextLater(a, r1.later))
        case OutOfRange => OutOfRange
        case Ok(b) => r3.GetWhenIn(r3.CalculateNextLater(b, r2.later))
  {
    StageAgrees(r1, c, 0);
    match Stage(c, r1.later, 0)
    case OutOfRange =>
    case Ok(a) =>
      StageAgrees(r2, a, r1.later);
      match Stage(a, r2.later, r1.later)
      case OutOfRange =>
      case Ok(b) =>
        StageAgrees(r3, b, r2.later);
  }

  /** Three valid rotors' backward lookups, chained from rotor 3, are the
      reference half pass coming out. */
  lemma PassOutAgrees(r1: Rotor, r2: Rotor, r3: Rotor, c: char)
    requires r1.Valid() && r2.Valid() && r3.Valid()
    ensures HalfPass(Out, r1.later, r2.later, r3.later, c) ==
      match r3.GetWhenOut(r3.CalculateNextLater(c, 0))
      case OutOfRange => OutOfRange
      case Ok(a) =>
        match r2.GetWhenOut(r2.CalculateNextLater(a, r3.later))
        case OutOfRange => OutOfRange
        case Ok(b) => r1.GetWhenOut(r1.CalculateNextLater(b, r2.later))
  {
    StageAgrees(r3, c, 0);
    match Stage(c, r3.later, 0)
    case OutOfRange =>
    case Ok(a) =>
      StageAgrees(r2, a, r3.later);
      match Stage(a, r2.later, r3.later)
      case OutOfRange =>
      case Ok(b) =>
        StageAgrees(r1, b, r2.later);
  }

  /** A valid machine's `Code` going in is the reference half pass. */
  lemma CodeInAgrees(e: Enigma, c: char)
    requires e.Valid()
    ensures e.Code(c, In) == HalfPass(In, e.rot1.later, e.rot2.later, e.rot3.later, c)
  {
    CodeInSteps(e, c);
    PassInAgrees(e.rot1, e.rot2, e.rot3, c);
  }

  /** A valid machine's `Code` coming out is the reference half pass. */
  lemma CodeOutAgrees(e: Enigma, c: char)
    requires e.Valid()
    ensures e.Code(c, Out) == HalfPass(Out, e.rot1.later, e.rot2.later, e.rot3.later, c)
  {
    CodeOutSteps(e, c);
    PassOutAgrees(e.rot1, e.rot2, e.rot3, c);
  }

  /** On a valid machine `Code` never throws on a lowercase letter and
      gives a lowercase letter, in both directions, whatever the offsets. */
  lemma CodeLower(e: Enigma, c: char, status: CodeStatus)
    requires e.Valid() && IsLower(c)
    ensures e.Code(c, status).Ok? && IsLower(e.Code(c, status).value)
  {
    HalfPassLower(status, e.rot1.later, e.rot2.later, e.rot3.later, c);
    if status == In {
      CodeInAgrees(e, c);
    } else {
      CodeOutAgrees(e, c);
    }
  }

  /** One character of `Run` on a valid machine is the reference
      `EncipherLetter` at the machine's current offsets. */
  lemma LetterAgrees(e: Enigma, c: char)
    requires e.Valid()
    ensures EncipherLetter(e.rot1.later, e.rot2.later, e.rot3.later, c) ==
      match e.Code(c, In)
      case OutOfRange => OutOfRange
      case Ok(a) =>
        match e.reflector.CalculateReflect(a, e.rot3.later)
        case OutOfRange => OutOfRange
        case Ok(b) => e.Code(b, Out)
  {
    CodeInAgrees(e, c);
    match e.Code(c, In)
    case OutOfRange =>
    case Ok(a) =>
      match e.reflector.CalculateReflect(a, e.rot3.later)
      case OutOfRange =>
      case Ok(b) =>
        CodeOutAgrees(e, b);
  }

  /** The program's own example, without the printing: rotors 'r', 'v',
      'c', the line "xwv" filtered and run, the output read back. */
  method ExampleRun() returns (result: string)
    ensures result == "aaa"
  {
    var rot1 := new Rotor('r');
    var rot2 := new Rotor('v');
    var rot3 := new Rotor('c');
    var reflector := new Reflector();
    var enigma := new Enigma(rot1, rot2, rot3, reflector);
    var input := "xwv";
    var parseInput := ParseLine(input);
    ParsedClean(input);
    var ok := enigma.Run(parseInput);
    GoldenRun();
    result := enigma.GetOutput();
  }
}
