/** `class Rotor` of the source. Its two tables are filled once by the
    constructor; its offset is kept twice, as a letter (`mainLater`) and as
    that letter's ordinal (`later`), and only `MakeRotate` keeps the two in
    step. ("later" is the source's spelling of "letter".) */
module Rotors {
  import opened Cpp
  import opened Cipher

  class Rotor {
    var table: map<char, char>
    var reverseTable: map<char, char>
    var mainLater: char
    var later: int

    /** Both tables hold the mirror substitution, as `Rotor(L)` leaves them;
        the copy constructor breaks this, assignment keeps it only when the
        source rotor is valid, `MakeRotate` keeps it. */
    ghost predicate Valid()
      reads this
    {
      table == MirrorTable() && reverseTable == MirrorTable()
    }

    /** `Rotor(L)`: the two tables from a loop of inserts, then the offset. */
    constructor (initial: char)
      ensures Valid()
      ensures mainLater == initial && later == initial as int
    {
      table := map[];
      reverseTable := map[];
      mainLater := 'a';
      later := 0;
      new;
      for i := 0 to 26
        invariant Filling(table, reverseTable, i)
      {
        FillingStep(table, reverseTable, i);
        table := Insert(table, (i + 97) as char, (122 - i) as char);
        reverseTable := Insert(reverseTable, (122 - i) as char, (i + 97) as char);
      }
      assert MirrorOn(table, 97, 123);
      MirrorFilled(table);
      MirrorFilled(reverseTable);
      SetMainLater(initial);
      later := mainLater as int;
    }

    /** `Rotor() = default`: empty tables, the members' initial values. */
    constructor Default()
      ensures table == map[] && reverseTable == map[]
      ensures mainLater == 'a' && later == 0
    {
      table := map[];
      reverseTable := map[];
      mainLater := 'a';
      later := 0;
    }

    /** The copy constructor copies only the forward table and the letter:
        the copy's reverse table is empty and its ordinal is 0, so every
        backward lookup on it throws. */
    constructor Copy(other: Rotor)
      ensures table == other.table && mainLater == other.mainLater
      ensures reverseTable == map[] && later == 0
      ensures forall c :: GetWhenOut(c).OutOfRange?
    {
      table := other.table;
      reverseTable := map[];
      mainLater := other.mainLater;
      later := 0;
    }

    /** Copy assignment: through a temporary copy it swaps in only the
        forward table and the letter; this rotor keeps its own reverse table
        and its own ordinal. */
    method Assign(other: Rotor)
      modifies this
      ensures table == old(other.table) && mainLater == old(other.mainLater)
      ensures reverseTable == old(reverseTable) && later == old(later)
      ensures old(Valid()) && old(other.Valid()) ==> Valid()
    {
      if this != other {
        var temp := new Rotor.Copy(other);
        table, temp.table := temp.table, table;
        mainLater, temp.mainLater := temp.mainLater, mainLater;
      }
    }

    function GetMainLater(): (l: char)
      reads this
    {
      mainLater
    }

    function GetLaterInt(): (l: int)
      reads this
    {
      later
    }

    /** `table_.at(c)`: the mirror image of a lowercase letter; any other
        key throws. */
    function GetWhenIn(c: char): (r: Result<char>)
      reads this
      ensures Valid() ==> (r.Ok? <==> IsLower(c))
      ensures Valid() && r.Ok? ==> r.value == MirrorOf(c)
    {
      At(table, c)
    }

    /** `reverse_table_.at(c)`. */
    function GetWhenOut(c: char): (r: Result<char>)
      reads this
      ensures Valid() ==> (r.Ok? <==> IsLower(c))
      ensures Valid() && r.Ok? ==> r.value == MirrorOf(c)
      ensures reverseTable == map[] ==> r.OutOfRange?
    {
      At(reverseTable, c)
    }

    /** Sets only the letter; the ordinal is left as it was. */
    method SetMainLater(l: char)
      modifies this
      ensures mainLater == l
      ensures later == old(later) && table == old(table) && reverseTable == old(reverseTable)
    {
      mainLater := l;
    }

    /** Advances the offset by `rot` (C++ `%`), then recasts the letter
        from the ordinal, so the two agree afterwards. */
    method MakeRotate(rot: int)
      modifies this
      ensures later == Rotated(old(later), rot)
      ensures mainLater as int == later
      ensures table == old(table) && reverseTable == old(reverseTable)
      ensures 97 <= old(later) <= 122 && rot >= 0 ==> 97 <= later <= 122
      ensures old(later) == 'z' as int && rot == 1 ==> mainLater == 'a'
    {
      later := TruncMod26(later - 97 + rot) + 97;
      mainLater := later as char;
    }

    /** Caesar shift of `input` by `|own offset - previous offset|`, with a
        previous ordinal of 0 meaning that there is no previous rotor. A
        lowercase input gives a lowercase letter whatever the offsets. */
    function CalculateNextLater(input: char, prevMainLater: int := 0): (r: char)
      reads this
      ensures r == Shift(input, Gap(later, prevMainLater))
      ensures IsLower(input) ==> IsLower(r)
    {
      var inCorrect := input as int - 97;
      var laterCorrect := later - 97;
      var prevCorrect := if prevMainLater != 0 then prevMainLater - 97 else 0;
      var rez := TruncMod26(inCorrect + Abs(laterCorrect - prevCorrect));
      (rez + 97) as char
    }
  }

  /** `t` maps exactly the ordinals `lo..hi-1` (all lowercase) to their
      mirror images: the state of a table while the constructor fills it. */
  ghost predicate MirrorOn(t: map<char, char>, lo: int, hi: int)
  {
    97 <= lo <= hi <= 123 &&
    (forall c :: c in t <==> lo <= c as int < hi) &&
    (forall c :: c in t ==> IsLower(c) && t[c] == MirrorOf(c))
  }

  /** Inserting the pair for the letter just below or just above the filled
      range extends the range. */
  lemma MirrorExtend(t: map<char, char>, lo: int, hi: int)
    requires MirrorOn(t, lo, hi)
    ensures hi < 123 ==> MirrorOn(Insert(t, hi as char, (219 - hi) as char), lo, hi + 1)
    ensures 97 < lo ==> MirrorOn(Insert(t, (lo - 1) as char, (220 - lo) as char), lo - 1, hi)
  {
  }

  /** Both tables after `i` turns of the constructor's loop. */
  ghost predicate Filling(t: map<char, char>, rt: map<char, char>, i: int)
  {
    0 <= i <= 26 && MirrorOn(t, 97, 97 + i) && MirrorOn(rt, 123 - i, 123)
  }

  lemma FillingStep(t: map<char, char>, rt: map<char, char>, i: int)
    requires Filling(t, rt, i) && i < 26
    ensures Filling(Insert(t, (i + 97) as char, (122 - i) as char),
                    Insert(rt, (122 - i) as char, (i + 97) as char), i + 1)
  {
    MirrorExtend(t, 97, 97 + i);
    MirrorExtend(rt, 123 - i, 123);
  }

  /** A table filled over the whole alphabet is the mirror table. */
  lemma MirrorFilled(t: map<char, char>)
    requires MirrorOn(t, 97, 123)
    ensures t == MirrorTable()
  {
  }

  /** A valid rotor's two tables undo each other, and each is its own
      inverse, on every lowercase letter. */
  lemma RoundTrip(r: Rotor, c: char)
    requires r.Valid() && IsLower(c)
    ensures r.GetWhenIn(c).Ok? && r.GetWhenOut(r.GetWhenIn(c).value) == Ok(c)
    ensures r.GetWhenIn(r.GetWhenIn(c).value) == Ok(c)
    ensures r.GetWhenOut(r.GetWhenOut(c).value) == Ok(c)
  {
    MirrorIsInvolution(c);
  }

  /** A previous ordinal of 0 ("no previous rotor") acts as 'a'. */
  lemma NoPreviousIsA(r: Rotor, c: char)
    ensures r.CalculateNextLater(c, 0) == r.CalculateNextLater(c, 'a' as int)
  {
  }
}
