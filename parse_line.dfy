/** `ParseLine`: drops whitespace, digits and punctuation and lowercases
    uppercase letters, with the C locale's character classes. */
module TextFilter {
  import opened Cpp

  /** `std::isspace`: space, tab, newline, vertical tab, form feed, return. */
  predicate IsSpace(c: char) { c == ' ' || '\t' <= c <= '\r' }

  /** `std::isdigit`. */
  predicate IsDigit(c: char) { '0' <= c <= '9' }

  /** `std::ispunct`: the printable characters that are neither letters,
      digits nor space. */
  predicate IsPunct(c: char)
  {
    '!' <= c <= '/' || ':' <= c <= '@' || '[' <= c <= '`' || '{' <= c <= '~'
  }

  /** `std::isupper`. */
  predicate IsUpper(c: char) { 'A' <= c <= 'Z' }

  /** `std::tolower` on an uppercase letter. */
  function ToLower(c: char): (r: char)
    requires IsUpper(c)
    ensures IsLower(r) && r as int - 'a' as int == c as int - 'A' as int
  {
    (c as int + 32) as char
  }

  predicate Dropped(c: char) { IsSpace(c) || IsDigit(c) || IsPunct(c) }

  /** What one input character contributes to the result. */
  function Kept(c: char): (s: string)
    ensures |s| <= 1
  {
    if Dropped(c) then [] else if IsUpper(c) then [ToLower(c)] else [c]
  }

  /** The filter as a function of the whole line, built up one character at
      a time from the left. */
  function Parsed(s: string): (r: string)
  {
    if s == [] then [] else Parsed(s[..|s| - 1]) + Kept(s[|s| - 1])
  }

  method ParseLine(inputLine: string) returns (words: string)
    ensures words == Parsed(inputLine)
  {
    words := [];
    for i := 0 to |inputLine|
      invariant words == Parsed(inputLine[..i])
    {
      var c := inputLine[i];
      assert inputLine[..i + 1][..i] == inputLine[..i];
      if IsSpace(c) || IsDigit(c) || IsPunct(c) {
        continue;
      } else {
        if IsUpper(c) {
          var cLower := ToLower(c);
          words := words + [cLower];
        } else {
          words := words + [c];
        }
      }
    }
    assert inputLine[..|inputLine|] == inputLine;
  }

  /** A character the filter lets through unchanged. */
  predicate Clean(c: char) { !Dropped(c) && !IsUpper(c) }

  /** The filter works character by character: it distributes over
      concatenation. */
  lemma {:induction false} ParsedConcat(a: string, b: string)
    ensures Parsed(a + b) == Parsed(a) + Parsed(b)
    decreases |b|
  {
    if b == [] {
      assert a + b == a;
    } else {
      var b' := b[..|b| - 1];
      assert (a + b)[..|a + b| - 1] == a + b';
      ParsedConcat(a, b');
    }
  }

  /** A one-character line gives what that character keeps. */
  lemma ParsedSingle(c: char)
    ensures Parsed([c]) == Kept(c)
  {
    assert [c][..0] == [];
  }

  /** An uppercase letter anywhere in the line comes out as its lowercase
      letter, in its place. */
  lemma ParsedUpper(a: string, c: char, b: string)
    requires IsUpper(c)
    ensures Parsed(a + [c] + b) == Parsed(a) + [ToLower(c)] + Parsed(b)
  {
    ParsedConcat(a + [c], b);
    ParsedConcat(a, [c]);
    ParsedSingle(c);
  }

  /** A whitespace, digit or punctuation character anywhere in the line
      contributes nothing. */
  lemma ParsedDrop(a: string, c: char, b: string)
    requires Dropped(c)
    ensures Parsed(a + [c] + b) == Parsed(a) + Parsed(b)
  {
    ParsedConcat(a + [c], b);
    ParsedConcat(a, [c]);
    ParsedSingle(c);
  }

  /** On 7-bit ASCII the classes are those of the C locale: each
      printable character or whitespace is exactly one of a space, a digit,
      a punctuation mark, an uppercase or a lowercase letter, and every
      other character is none of them. */
  lemma AsciiClasses(c: char)
    requires c as int < 128
    ensures (IsSpace(c) || IsDigit(c) || IsPunct(c) || IsUpper(c) || IsLower(c)) <==>
              (' ' <= c <= '~' || '\t' <= c <= '\r')
    ensures IsSpace(c) ==> !IsDigit(c) && !IsPunct(c) && !IsUpper(c) && !IsLower(c)
    ensures IsDigit(c) ==> !IsPunct(c) && !IsUpper(c) && !IsLower(c)
    ensures IsPunct(c) ==> !IsUpper(c) && !IsLower(c)
    ensures IsUpper(c) ==> !IsLower(c)
  {
  }

  /** Never longer than the input; nothing dropped or uppercase survives. */
  lemma {:induction false} ParsedShape(s: string)
    ensures |Parsed(s)| <= |s|
    ensures forall i :: 0 <= i < |Parsed(s)| ==> Clean(Parsed(s)[i])
    decreases |s|
  {
    if s != [] {
      ParsedShape(s[..|s| - 1]);
    }
  }

  /** A line of clean characters passes through unchanged. */
  lemma {:induction false} ParsedClean(s: string)
    requires forall i :: 0 <= i < |s| ==> Clean(s[i])
    ensures Parsed(s) == s
    decreases |s|
  {
    if s != [] {
      ParsedClean(s[..|s| - 1]);
      assert s[..|s| - 1] + [s[|s| - 1]] == s;
    }
  }

  /** Filtering twice is filtering once. */
  lemma ParsedIdempotent(s: string)
    ensures Parsed(Parsed(s)) == Parsed(s)
  {
    ParsedShape(s);
    ParsedClean(Parsed(s));
  }

  /** On printable ASCII text (and whitespace) only lowercase letters are
      left, which is what the cipher expects. */
  lemma {:induction false} ParsedPrintable(s: string)
    requires forall i :: 0 <= i < |s| ==> ' ' <= s[i] <= '~' || IsSpace(s[i])
    ensures AllLower(Parsed(s))
    decreases |s|
  {
    if s != [] {
      ParsedPrintable(s[..|s| - 1]);
    }
  }

  lemma ParsedHello()
    ensures Parsed("Hello,") == "hello"
  {
    assert "H"[..0] == "";
    assert Parsed("H") == "h";
    assert "He"[..1] == "H";
    assert Parsed("He") == "he";
    assert "Hel"[..2] == "He";
    assert Parsed("Hel") == "hel";
    assert "Hell"[..3] == "Hel";
    assert Parsed("Hell") == "hell";
    assert "Hello"[..4] == "Hell";
    assert Parsed("Hello") == "hello";
    assert "Hello,"[..5] == "Hello";
  }

  lemma ParsedWorld()
    ensures Parsed(" World!") == "world"
  {
    assert " "[..0] == "";
    assert Parsed(" ") == "";
    assert " W"[..1] == " ";
    assert Parsed(" W") == "w";
    assert " Wo"[..2] == " W";
    assert Parsed(" Wo") == "wo";
    assert " Wor"[..3] == " Wo";
    assert Parsed(" Wor") == "wor";
    assert " Worl"[..4] == " Wor";
    assert Parsed(" Worl") == "worl";
    assert " World"[..5] == " Worl";
    assert Parsed(" World") == "world";
    assert " World!"[..6] == " World";
  }

  lemma ParsedDigits()
    ensures Parsed(" 123") == []
  {
    assert " "[..0] == "";
    assert Parsed(" ") == "";
    assert " 1"[..1] == " ";
    assert Parsed(" 1") == "";
    assert " 12"[..2] == " 1";
    assert Parsed(" 12") == "";
    assert " 123"[..3] == " 12";
  }

  /** The example line: case folded, punctuation, digits and spaces gone. */
  lemma HelloWorld()
    ensures Parsed("Hello, World! 123") == "helloworld"
  {
    assert "Hello, World! 123" == "Hello," + " World!" + " 123";
    ParsedConcat("Hello,", " World!");
    ParsedConcat("Hello," + " World!", " 123");
    ParsedHello();
    ParsedWorld();
    ParsedDigits();
  }
}
