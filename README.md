# Toy Enigma cipher in Dafny

A model of `main.cpp`, a small Enigma-style rotor cipher, and of its text
filter. Three rotors each hold a mirror (Atbash) substitution and an
offset letter. A reflector holds a fixed table. For every character the
machine advances rotor 1, codes the character in through rotors 1, 2 and 3,
reflects it, and codes it out through rotors 3, 2 and 1. Each rotor first
Caesar-shifts its input by the distance between its own offset and the
previous rotor's. `ParseLine` removes whitespace, digits and punctuation
and lowercases the rest.

The files:

- `cpp.dfy` (module `Cpp`) holds the C++ semantics the code relies on:
  - the truncating `%`;
  - `abs`;
  - `std::map::insert`, which never overwrites;
  - `std::map::at`, which throws `std::out_of_range`. The throw is the
    `OutOfRange` case of a `Result`.
- `cipher.dfy` (module `Cipher`) holds the cipher on plain offset ordinals,
  the reference the classes are proved against:
  - the mirror and reflector tables;
  - one rotor stage, a half pass and the reflection;
  - one letter, and a whole run as the per-letter results collected up to
    the first failure.
- `rotor.dfy` (module `Rotors`) is `class Rotor`:
  - the constructors, including the partial copy constructor and the copy
    assignment;
  - the lookups, `SetMainLater`, `MakeRotate` and `CalculateNextLater`.
- `reflector.dfy` (module `Reflectors`) is `class Reflector`: the
  constructor's insert loop and `CalculateReflect`.
- `enigma.dfy` (module `Machine`) is `class Enigma`:
  - `Code`;
  - `Run`, whose loop body is the method `Step`;
  - `GetOutput`;
  - the lemmas that tie `Code` to the reference half pass;
  - the program's own example.
- `parse_line.dfy` (module `TextFilter`) is `ParseLine` and its
  specification `Parsed`.

Two behaviours of the code are easy to misread:

- **The reflector's table is total on 'a'..'z'.** Because `insert` never
  overwrites, the last two turns of its loop add 'y' -> 'm' and
  'z' -> 'n'. So no lookup key can fall in an uncovered 'y'/'z' region,
  and the table is not an involution.
- **`CalculateReflect` uses rotor 3's raw ordinal.** It does not subtract
  97 from it first. On a lowercase input with an offset in 'a'..'z' the
  key is always a letter, so the lookup never throws.

The program's example ('r', 'v', 'c' on "xwv") is proved to produce "aaa".

## Model

| member | source | states |
|---|---|---|
| Cpp.TruncMod26 | main.cpp:76 | C++ `% 26` on `int`: in 0..25 for a non-negative dividend, in -25..0 for a negative one |
| Cpp.TruncMod26Congruent | main.cpp:90 | the truncated remainder differs from the dividend by a multiple of 26, equals Euclidean `%` on non-negative dividends and is never of the opposite sign |
| Cpp.Abs | main.cpp:90 | `abs` returns `x` or `-x` and is never negative |
| Cpp.Insert | main.cpp:40-41 | `insert` adds the key; existing entries keep their value; the new value is stored only for an absent key |
| Cpp.At | main.cpp:68 | `at` succeeds exactly on present keys, with the stored value, and throws otherwise |
| Cipher.MirrorOf | main.cpp:40-41 | the rotor table maps a letter to a letter, and the two indices sum to 25 ('a'<->'z') |
| Cipher.MirrorIsInvolution | main.cpp:68-70 | the mirror map is its own inverse and has no fixed point |
| Cipher.ReflectorOf | main.cpp:109-113 | the reflector table moves 'a'..'l' forward twelve letters and every later letter back twelve, staying in 'a'..'z' |
| Cipher.ReflectorPairs | main.cpp:109-113 | 'a'..'x' are paired both ways, while 'y' -> 'm' and 'z' -> 'n' come back 24 letters lower |
| Cipher.ReflectorNotInvolution | main.cpp:109-113 | some letter ('y') does not come back to itself after two reflections |
| Cipher.Shift | main.cpp:90-91 | the shifted value always fits in 72..122 (so the cast to `char` is defined) and a lowercase input stays lowercase |
| Cipher.ShiftIsCaesar | main.cpp:90-91 | on a lowercase letter the shift is the Caesar shift modulo 26, and a whole turn more changes nothing |
| Cipher.Gap | main.cpp:84-90 | the shift distance is `abs(own - prev)`, with a previous ordinal of 0 standing for 'a' |
| Cipher.Stage | main.cpp:164-165 | one stage succeeds exactly when the shifted character is a letter; a lowercase input always succeeds, with a lowercase result |
| Cipher.HalfPassLower | main.cpp:146-174 | a half pass never throws on a lowercase letter and gives a lowercase letter, whatever the offsets |
| Cipher.ReflectKey | main.cpp:118-120 | the reflector's key always fits in 72..122 |
| Cipher.Reflect | main.cpp:116-121 | the reflection succeeds exactly when the key is a letter, gives a letter, and cannot fail on a lowercase input with an offset of at least 25 |
| Cipher.ReflectKeyLower | main.cpp:118-120 | the key is a letter exactly when the difference `prev - index` is not negative or is a multiple of 26 |
| Cipher.ReflectKeyRawOrdinal | main.cpp:118-119 | with the raw ordinal, the key is 19 letters past the difference of the two letter indices |
| Cipher.EncipherLetterLower | main.cpp:180-183 | one character never throws when it is lowercase and rotor 3's offset is a letter, and the result is lowercase |
| Cipher.Rotated | main.cpp:76 | a rotation lands in 72..122, and in 'a'..'z' when the offset was a letter and the step not negative |
| Cipher.AdvancedInRange | main.cpp:74-78 | `n` single steps from a letter equal one rotation by `n` and stay in 'a'..'z' |
| Cipher.AdvancedCycle | main.cpp:74-78 | 26 single steps, or one rotation by 26, bring the offset back |
| Cipher.Letters | main.cpp:178-183 | there is one letter result per input character |
| Cipher.CollectSpec | main.cpp:178-185 | a run succeeds exactly when every letter does; its output holds the letters before the first failure, one per character; a failed run stops at a failing letter |
| Cipher.ThrewPersists | main.cpp:178-185 | once a letter has thrown, later characters change nothing |
| Cipher.CollectNext | main.cpp:178-185 | after a successful prefix, the next letter is appended, or its failure is the outcome of the whole run |
| Cipher.EncipherLower | main.cpp:176-186 | a lowercase text never throws while rotor 3's offset is a letter, and gives one lowercase letter per character |
| Cipher.GoldenOffsets | main.cpp:180 | rotor 1 of the example turns from 'r' to 's', 't', 'u' |
| Cipher.GoldenFirst | main.cpp:180-183 | in the example, 'x' with offsets 's', 'v', 'c' gives 'a' |
| Cipher.GoldenSecond | main.cpp:180-183 | in the example, 'w' with offsets 't', 'v', 'c' gives 'a' |
| Cipher.GoldenThird | main.cpp:180-183 | in the example, 'v' with offsets 'u', 'v', 'c' gives 'a' |
| Cipher.GoldenLetters | main.cpp:178-183 | each letter of the example gives 'a' |
| Cipher.GoldenRun | main.cpp:219-224 | rotors 'r', 'v', 'c' on "xwv" give "aaa" |
| Rotors.Rotor.constructor | main.cpp:36-45 | both tables are the mirror table, the letter is the argument and the ordinal is its code |
| Rotors.Rotor.Default | main.cpp:15-21 | the defaulted constructor leaves empty tables, letter 'a' and ordinal 0 |
| Rotors.Rotor.Copy | main.cpp:47-51 | the copy gets only the forward table and the letter; its reverse table is empty, its ordinal 0, and every backward lookup on it throws |
| Rotors.Rotor.Assign | main.cpp:53-62 | assignment replaces only the forward table and the letter; the rotor keeps its own reverse table and ordinal, so a valid rotor assigned from a valid rotor stays valid |
| Rotors.Rotor.GetWhenIn | main.cpp:68 | on a valid rotor the forward lookup succeeds exactly on lowercase letters, with the mirror image |
| Rotors.Rotor.GetWhenOut | main.cpp:70 | on a valid rotor the backward lookup succeeds exactly on lowercase letters, with the mirror image; with an empty reverse table it always throws |
| Rotors.Rotor.SetMainLater | main.cpp:72 | only the letter changes; the ordinal and both tables stay |
| Rotors.Rotor.MakeRotate | main.cpp:74-78 | the ordinal is rotated with C++ `%` and the letter recast from it; the tables stay; a letter offset stays a letter and 'z' turns to 'a' |
| Rotors.Rotor.CalculateNextLater | main.cpp:80-92 | the result is the input shifted by the gap between the rotor's ordinal and the previous one; a lowercase input gives a lowercase letter |
| Rotors.MirrorExtend | main.cpp:40-41 | inserting the next mirror pair at either end of the filled range extends it |
| Rotors.FillingStep | main.cpp:38-42 | one turn of the constructor's loop extends the forward table upwards and the reverse table downwards |
| Rotors.MirrorFilled | main.cpp:38-42 | a table filled over the whole alphabet is the mirror table |
| Rotors.RoundTrip | main.cpp:68-70 | on a lowercase letter, backward undoes forward and each lookup is its own inverse |
| Rotors.NoPreviousIsA | main.cpp:85-89 | a previous ordinal of 0 acts like 'a' |
| Reflectors.Reflector.constructor | main.cpp:107-114 | the insert loop leaves exactly the reflector table |
| Reflectors.ForwardStep | main.cpp:111 | the first insert of a turn adds a new key below 'm', or is a no-op once the key is there |
| Reflectors.BackwardStep | main.cpp:112 | the second insert of a turn always adds a new key from 'm' on |
| Reflectors.PairedFilled | main.cpp:109-113 | after the last turn the table is the reflector table |
| Reflectors.Reflector.CalculateReflect | main.cpp:116-121 | on a valid reflector the lookup is the reference reflection, and it cannot throw on a lowercase input with a letter offset |
| Machine.Enigma.constructor | main.cpp:139 | the machine borrows the given rotors and reflector, and its output starts empty |
| Machine.StageAgrees | main.cpp:164-165 | a rotor's shift and lookup is the reference stage, in both directions |
| Machine.PassInAgrees | main.cpp:163-171 | three valid rotors' forward chain is the reference half pass going in |
| Machine.PassOutAgrees | main.cpp:153-161 | three valid rotors' backward chain is the reference half pass coming out |
| Machine.CodeInAgrees | main.cpp:163-171 | on a valid machine `Code` going in is the reference half pass |
| Machine.CodeOutAgrees | main.cpp:153-161 | on a valid machine `Code` coming out is the reference half pass |
| Machine.CodeLower | main.cpp:146-174 | on a valid machine `Code` never throws on a lowercase letter and gives a lowercase letter, both ways |
| Machine.LetterAgrees | main.cpp:180-183 | one character through `Code`, `CalculateReflect` and `Code` is the reference letter at the current offsets |
| Machine.Enigma.Step | main.cpp:180-183 | rotor 1 turns one step (letter and ordinal agreeing); the result is the reference letter at the new offsets; nothing else changes |
| Machine.Enigma.Run | main.cpp:176-186 | the old output is kept and the reference run's output appended; `ok` is false exactly when a lookup threw; rotor 1 advanced once per character handled; rotors 2, 3 and the reflector unchanged |
| Machine.ExampleRun | main.cpp:219-225 | the program's example run reads back "aaa" |
| TextFilter.ToLower | main.cpp:203-205 | `tolower` maps an uppercase letter to the lowercase letter at the same index |
| TextFilter.Kept | main.cpp:197-211 | each character contributes at most one character |
| TextFilter.ParseLine | main.cpp:192-215 | the loop builds exactly the filter `Parsed` of the line |
| TextFilter.ParsedConcat | main.cpp:195-213 | the filter works character by character: it distributes over concatenation |
| TextFilter.ParsedUpper | main.cpp:203-207 | an uppercase letter anywhere in the line comes out as its lowercase letter in the same place, between the filtered text before and after it |
| TextFilter.ParsedDrop | main.cpp:197-199 | a whitespace, digit or punctuation character anywhere in the line contributes nothing: the result is the filtered text before it followed by the filtered text after it |
| TextFilter.AsciiClasses | main.cpp:197-203 | on 7-bit ASCII, `isspace`, `isdigit`, `ispunct`, `isupper` and lowercase are the C locale's classes: every printable character or whitespace is in exactly one of them, and no other character is in any |
| TextFilter.ParsedShape | main.cpp:192-215 | the result is never longer than the line, and no dropped or uppercase character survives |
| TextFilter.ParsedClean | main.cpp:208-211 | a line with nothing to drop or lowercase passes through unchanged |
| TextFilter.ParsedIdempotent | main.cpp:192-215 | filtering twice is filtering once |
| TextFilter.ParsedPrintable | main.cpp:192-215 | on printable ASCII and whitespace only lowercase letters are left |
| TextFilter.ParsedHello | main.cpp:197-211 | "Hello," becomes "hello" |
| TextFilter.ParsedWorld | main.cpp:197-211 | " World!" becomes "world" |
| TextFilter.ParsedDigits | main.cpp:197-199 | " 123" becomes empty |
| TextFilter.HelloWorld | main.cpp:192-215 | "Hello, World! 123" becomes "helloworld" |

## Left out

- `main()`'s printing to `std::cout`, and the unused `<random>` include. `Machine.ExampleRun` returns the output instead of printing it.
- A thrown `std::out_of_range` ends `Run` with `ok` false. The output and rotor 1 stay as they were at the throw; the exception does not propagate further.
- The character classes are the C locale's on ASCII. Other locales, and negative `char` values (undefined behaviour for these calls), are not modelled.
- A Dafny `char` stands for a non-negative (ASCII) C++ `char`. On a platform where `char` is signed, a byte above 127 is negative in the arithmetic of `Rotors.Rotor.CalculateNextLater`, `Reflectors.Reflector.CalculateReflect`, `Rotors.Rotor.constructor` and `Machine.Enigma.Run`, and the lookup that follows can throw where the model succeeds; such bytes are not modelled. Every cast in the code, from an ASCII input, lands in 72..122, so no `char` wrap-around arises.
- `int` is unbounded. The `int` arguments of `Rotors.Rotor.MakeRotate` (`rot`), `Rotors.Rotor.CalculateNextLater` and `Reflectors.Reflector.CalculateReflect` (`prevMainLater`) are unbounded in the model, where C++ sums near `INT_MAX` or `INT_MIN` would overflow (undefined behaviour); the program passes only 1 and ordinals in 0..122, and for those the code's sums stay far from 32-bit overflow.
- `Machine.Enigma.Valid` requires only rotor 1 to be a different object from rotors 2 and 3; rotors 2 and 3 may be the same object. `Run` with rotor 1 shared with another slot is not modelled.
- `Machine.Enigma.Run` is stated only for rotors that meet `Rotors.Rotor.Valid` and a reflector built by its constructor. `Rotor(L)` (`Rotors.Rotor.constructor`) is the only constructor that meets `Valid`; a valid rotor assigned from a valid rotor (`Rotors.Rotor.Assign`) stays valid, keeping its own `later` while its `mainLater` becomes the other's letter. `Run` holds no contract for default-constructed rotors (empty tables, so the program's `Run` throws on the first character), for rotors from the copy constructor, or for a rotor assigned from one of those.
- Reference definitions without a contract of their own, stated by the lemmas in their rows: `TextFilter.Parsed` (`ParseLine`, `ParsedConcat`, `ParsedUpper`, `ParsedDrop`, `ParsedShape`), `Cipher.HalfPass` (`HalfPassLower`, `Machine.CodeInAgrees`, `Machine.CodeOutAgrees`), `Cipher.EncipherLetter` (`EncipherLetterLower`, `Machine.LetterAgrees`), `Cipher.Encipher` and `Cipher.Collect` (`CollectSpec`, `ThrewPersists`, `CollectNext`, `EncipherLower`, `Machine.Enigma.Run`), `Cipher.Advanced` (`AdvancedInRange`, `AdvancedCycle`), `Cipher.MirrorTable` (`Rotors.MirrorFilled`, `Rotors.Rotor.GetWhenIn`) and `Cipher.ReflectorTable` (`Reflectors.PairedFilled`, `Reflectors.Reflector.CalculateReflect`).
- The ctype predicates `TextFilter.IsSpace`, `TextFilter.IsDigit`, `TextFilter.IsPunct`, `TextFilter.IsUpper` and `TextFilter.Dropped` have no contract of their own; `TextFilter.AsciiClasses` states the classes they define.
- `Machine.Enigma.Code` has no contract of its own; `Machine.CodeInAgrees`, `Machine.CodeOutAgrees` and `Machine.CodeLower` state what it computes.
- `Rotors.Rotor.GetMainLater`, `Rotors.Rotor.GetLaterInt` and `Machine.Enigma.GetOutput` only return a field and carry no contract.
- `Machine.Enigma.Step` is the body of `Run`'s loop made into a method of its own. The source has it inline.
