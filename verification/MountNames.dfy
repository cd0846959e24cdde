/** Undoing the octal escapes of the mount table (src/jar_upgrade.rs:1117-1147). */
module MountNames {
  import opened Text

  /** The characters the mount table escapes. */
  predicate IsEscaped(c: char)
  {
    c == ' ' || c == '\t' || c == '\n' || c == '\\'
  }

  /** Their three octal digits. */
  function Octal(c: char): (digits: string)
    ensures |digits| == 3 && AllDigits(digits)
  {
    if c == ' ' then "040" else if c == '\t' then "011" else if c == '\n' then "012" else "134"
  }

  /** They spell the character's number. */
  lemma OctalIsTheCharacter(c: char)
    requires IsEscaped(c)
    ensures var d := Octal(c); 64 * (d[0] as int - 48) + 8 * (d[1] as int - 48) + (d[2] as int - 48) == c as int
  {
    assert Octal(' ') == "040" && Octal('\t') == "011" && Octal('\n') == "012" && Octal('\\') == "134";
  }

  predicate AllDigits(digits: string)
  {
    forall i | 0 <= i < |digits| :: '0' <= digits[i] <= '9'
  }

  function Code(c: char): string
  {
    "\\" + Octal(c)
  }

  /** unescape_mount: four passes over the whole text, the backslash last. */
  function Unescape(value: string): string
  {
    Replace(Replace(Replace(Replace(value, Code(' '), " "), Code('\t'), "\t"), Code('\n'), "\n"), Code('\\'), "\\")
  }

  /** The escape at the start of `s`. */
  function EscapeAt(s: string): Option<char>
  {
    if Code(' ') <= s then Some(' ')
    else if Code('\t') <= s then Some('\t')
    else if Code('\n') <= s then Some('\n')
    else if Code('\\') <= s then Some('\\')
    else None
  }

  /** One pass from left to right that knows the escapes of `known`. */
  function DecodeKnown(s: string, known: set<char>): string
  {
    if s == "" then ""
    else
      var escape := EscapeAt(s);
      if escape.Some? && escape.value in known && |s| >= 4 then [escape.value] + DecodeKnown(s[4..], known)
      else [s[0]] + DecodeKnown(s[1..], known)
  }

  function Decode(s: string): string
  {
    DecodeKnown(s, {' ', '\t', '\n', '\\'})
  }

  /** What writes the mount table. */
  function Encode(s: string): string
  {
    if s == "" then ""
    else (if IsEscaped(s[0]) then Code(s[0]) else [s[0]]) + Encode(s[1..])
  }

  /** The codes differ from one another. */
  lemma EscapeIsUnique(s: string, c: char)
    requires IsEscaped(c)
    ensures Code(c) <= s <==> EscapeAt(s) == Some(c)
  {
    assert Code(' ')[2] == '4' && Code('\t')[2] == '1' && Code('\n')[2] == '1' && Code('\\')[2] == '3';
    assert Code('\t')[3] == '1' && Code('\n')[3] == '2';
  }

  lemma EscapeIsBackslash(s: string)
    ensures EscapeAt(s).Some? ==> IsEscaped(EscapeAt(s).value) && Code(EscapeAt(s).value) <= s && |s| >= 4 && s[0] == '\\'
  {
    if EscapeAt(s).Some? {
      EscapeIsUnique(s, EscapeAt(s).value);
      assert Code(EscapeAt(s).value)[0] == '\\';
    }
  }

  lemma CodePrefix(c: char, first: char, rest: string)
    ensures Code(c) <= [first] + rest <==> first == '\\' && Octal(c) <= rest
  {
    var code, octal, text := Code(c), Octal(c), [first] + rest;
    assert code == ['\\'] + octal && text[1..] == rest;
    if code <= text {
      assert text[0] == code[0];
      assert rest[..3] == text[1..4] == code[1..4] == octal;
    }
    if first == '\\' && octal <= rest {
      assert text[..4] == [first] + rest[..3] == code;
    }
  }

  predicate Decodes(s: string, known: set<char>)
  {
    EscapeAt(s).Some? && EscapeAt(s).value in known && |s| >= 4
  }

  lemma FirstStep(first: char, rest: string, known: set<char>)
    requires !Decodes([first] + rest, known)
    ensures DecodeKnown([first] + rest, known) == [first] + DecodeKnown(rest, known)
  {
    assert ([first] + rest)[1..] == rest;
  }

  /** What is decoded starts with an escaped character, or with the first character and goes on. */
  lemma FirstDecoded(s: string, known: set<char>)
    requires s != "" && forall c | c in known :: IsEscaped(c)
    ensures var d := DecodeKnown(s, known); d != "" && (IsEscaped(d[0]) || d == [s[0]] + DecodeKnown(s[1..], known))
  {
  }

  lemma Regroup(front: string, back: string)
    requires front != ""
    ensures front + back == [front[0]] + (front[1..] + back)
  {
  }

  /** Decoding neither hides nor invents digits at the start, as no escape stands for one. */
  lemma {:induction false} DigitsStay(digits: string, t: string, known: set<char>)
    requires AllDigits(digits)
    ensures DecodeKnown(digits + t, known) == digits + DecodeKnown(t, known)
  {
    if digits == "" {
      assert digits + t == t;
      assert digits + DecodeKnown(t, known) == DecodeKnown(t, known);
    } else {
      var first, more := digits[0], digits[1..];
      var tail := more + t;
      Regroup(digits, t);
      Regroup(digits, DecodeKnown(t, known));
      EscapeIsBackslash([first] + tail);
      FirstStep(first, tail, known);
      DigitsStay(more, t, known);
    }
  }

  lemma {:induction false} DigitsWereThere(digits: string, s: string, known: set<char>)
    requires AllDigits(digits) && forall c | c in known :: IsEscaped(c)
    requires digits <= DecodeKnown(s, known)
    ensures digits <= s
  {
    if digits != "" {
      var d := DecodeKnown(s, known);
      FirstDecoded(s, known);
      assert d[0] == digits[0] && !IsEscaped(d[0]);
      assert d[1..] == DecodeKnown(s[1..], known) && digits[1..] <= d[1..];
      DigitsWereThere(digits[1..], s[1..], known);
    }
  }

  /** A pass for one more escape on top of those already decoded: the core of the argument. As no earlier pass has
      made a backslash, the code stands in the decoded text exactly where it stood in the original. */
  lemma {:induction false} OnePassMore(s: string, known: set<char>, c: char)
    requires IsEscaped(c) && c !in known && forall d | d in known :: IsEscaped(d) && d != '\\'
    ensures Replace(DecodeKnown(s, known), Code(c), [c]) == DecodeKnown(s, known + {c})
  {
    if s != "" {
      var escape := EscapeAt(s);
      EscapeIsBackslash(s);
      EscapeIsUnique(s, c);
      if escape.Some? && escape.value in known {
        OnePassMore(s[4..], known, c);
        SkipsLetter(escape.value, DecodeKnown(s[4..], known), c);
      } else if escape == Some(c) {
        OnePassMore(s[4..], known, c);
        CodeIsKept(s, known, c);
        TakesCode(DecodeKnown(s[4..], known), c);
      } else {
        OnePassMore(s[1..], known, c);
        CodeIsNotMade(s, known, c);
        SkipsStart(s[0], DecodeKnown(s[1..], known), c);
      }
    }
  }

  lemma SkipsStart(first: char, rest: string, c: char)
    requires !(Code(c) <= [first] + rest)
    ensures Replace([first] + rest, Code(c), [c]) == [first] + Replace(rest, Code(c), [c])
  {
    assert ([first] + rest)[1..] == rest;
  }

  lemma SkipsLetter(first: char, rest: string, c: char)
    requires first != '\\'
    ensures Replace([first] + rest, Code(c), [c]) == [first] + Replace(rest, Code(c), [c])
  {
    assert Code(c)[0] == '\\';
    SkipsStart(first, rest, c);
  }

  lemma TakesCode(rest: string, c: char)
    ensures Replace(Code(c) + rest, Code(c), [c]) == [c] + Replace(rest, Code(c), [c])
  {
    assert Code(c) <= Code(c) + rest && (Code(c) + rest)[|Code(c)|..] == rest;
  }

  lemma BackslashFirst(octal: string, rest: string)
    ensures ("\\" + octal) + rest == ['\\'] + (octal + rest)
  {
  }

  lemma CodeIsKept(s: string, known: set<char>, c: char)
    requires IsEscaped(c) && Code(c) <= s && c !in known
    ensures DecodeKnown(s, known) == Code(c) + DecodeKnown(s[4..], known)
  {
    EscapeIsUnique(s, c);
    var octal, rest := Octal(c), s[4..];
    assert s == Code(c) + rest;
    BackslashFirst(octal, rest);
    FirstStep('\\', octal + rest, known);
    DigitsStay(octal, rest, known);
    BackslashFirst(octal, DecodeKnown(rest, known));
  }

  lemma CodeIsNotMade(s: string, known: set<char>, c: char)
    requires s != "" && IsEscaped(c) && !(Code(c) <= s) && forall d | d in known :: IsEscaped(d)
    ensures !(Code(c) <= [s[0]] + DecodeKnown(s[1..], known))
  {
    CodePrefix(c, s[0], DecodeKnown(s[1..], known));
    assert s == [s[0]] + s[1..];
    CodePrefix(c, s[0], s[1..]);
    if Octal(c) <= DecodeKnown(s[1..], known) {
      DigitsWereThere(Octal(c), s[1..], known);
    }
  }

  lemma {:induction false} NothingKnown(s: string)
    ensures DecodeKnown(s, {}) == s
  {
    if s != "" {
      NothingKnown(s[1..]);
    }
  }

  /** The four passes are one pass from left to right, on every text. */
  lemma UnescapeIsDecode(value: string)
    ensures Unescape(value) == Decode(value)
  {
    NothingKnown(value);
    OnePassMore(value, {}, ' ');
    OnePassMore(value, {' '}, '\t');
    OnePassMore(value, {' ', '\t'}, '\n');
    OnePassMore(value, {' ', '\t', '\n'}, '\\');
    assert {} + {' '} == {' '} && {' '} + {'\t'} == {' ', '\t'} && {' ', '\t'} + {'\n'} == {' ', '\t', '\n'};
    assert {' ', '\t', '\n'} + {'\\'} == {' ', '\t', '\n', '\\'};
  }

  lemma {:induction false} DecodeEncoded(s: string)
    ensures Decode(Encode(s)) == s
  {
    if s != "" {
      var rest := Encode(s[1..]);
      DecodeEncoded(s[1..]);
      if IsEscaped(s[0]) {
        EscapeIsUnique(Encode(s), s[0]);
        assert Encode(s)[4..] == rest;
      } else {
        EscapeIsBackslash(Encode(s));
        assert Encode(s)[1..] == rest;
      }
    }
  }

  /** So it gives back whatever was encoded. */
  lemma UnescapeEncoded(s: string)
    ensures Unescape(Encode(s)) == s
  {
    UnescapeIsDecode(Encode(s));
    DecodeEncoded(s);
  }

  lemma CodeHasNoSpace(c: char)
    ensures WithoutSpace(Code(c))
  {
    assert forall i | 0 <= i < 4 :: !IsSpace(Code(c)[i]);
  }

  lemma {:induction false} EncodedSpaces(s: string)
    ensures WithoutSpace(Encode(s)) <==> forall c | c in s && IsSpace(c) :: IsEscaped(c)
    ensures s != "" ==> Encode(s) != ""
  {
    if s != "" {
      var first := if IsEscaped(s[0]) then Code(s[0]) else [s[0]];
      EncodedSpaces(s[1..]);
      CodeHasNoSpace(s[0]);
      assert s == [s[0]] + s[1..];
      assert WithoutSpace(Encode(s)) <==> WithoutSpace(first) && WithoutSpace(Encode(s[1..]));
    }
  }

  /** An encoded name is a single field of its line, as the line is split, exactly if it is not empty and has no white
      space but what the encoding knows. */
  lemma EncodedIsOneField(s: string)
    ensures Words(Encode(s)) == [Encode(s)] <==> s != "" && forall c | c in s && IsSpace(c) :: IsEscaped(c)
  {
    EncodedSpaces(s);
    IsOneWord(Encode(s));
  }

  /** An ideographic space is not among that, nor is a carriage return. */
  lemma OtherSpacesSplit(before: string, space: char, after: string)
    requires space == '\U{3000}' || space == '\U{A0}' || space == '\r'
    ensures Words(Encode(before + [space] + after)) != [Encode(before + [space] + after)]
  {
    var s := before + [space] + after;
    assert s[|before|] == space && IsSpace(space) && !IsEscaped(space);
    EncodedIsOneField(s);
  }
}
