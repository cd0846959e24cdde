/** Quoting words for a remote shell, against the quoting rules of section 2.2 and the token rules of section 2.3 of
    the Shell Command Language of IEEE Std 1003.1 (src/jar_store.rs:346-382, 484-510, 540-542;
    src/hosts.rs:304-306). */
module ShellQuoting {
  import opened Text

  datatype Token = Word(text: string) | Operator(op: string)

  datatype Mode = Plain | Single | Double

  predicate IsBlank(c: char)
  {
    c == ' ' || c == '\t'
  }

  predicate IsControl(c: char)
  {
    c == '&' || c == '|' || c == ';' || c == '(' || c == ')' || c == '\n'
  }

  /** Unquoted characters that lead to expansions, comments or redirections, which are not part of this model. */
  predicate IsSpecial(c: char)
  {
    c == '$' || c == '`' || c == '*' || c == '?' || c == '[' || c == '~' || c == '#' || c == '<' || c == '>'
  }

  predicate IsNameLike(c: char)
  {
    c == '-' || '0' <= c <= '9' || 'a' <= c <= 'z'
  }

  /** The longest control operator at the start of `s`. */
  function OperatorAt(s: string): (op: string)
    requires s != "" && IsControl(s[0])
    ensures 1 <= |op| <= |s|
  {
    if |s| > 1 && s[0] == s[1] && (s[0] == '&' || s[0] == '|' || s[0] == ';') then s[..2] else s[..1]
  }

  function Grow(word: Option<string>, c: char): Option<string>
  {
    Some((if word.Some? then word.value else "") + [c])
  }

  /** A quote begins a word, even an empty one. */
  function Begin(word: Option<string>): Option<string>
  {
    if word.Some? then word else Some("")
  }

  function Flush(word: Option<string>): seq<Token>
  {
    if word.Some? then [Word(word.value)] else []
  }

  function Emit(tokens: seq<Token>, rest: Option<seq<Token>>): Option<seq<Token>>
  {
    if rest.Some? then Some(tokens + rest.value) else None
  }

  /** Token recognition with quote removal; None for unbalanced quotes and for what is not modelled. */
  function Scan(s: string, mode: Mode, word: Option<string>): Option<seq<Token>>
    decreases |s|
  {
    if s == "" then
      if mode.Plain? then Some(Flush(word)) else None
    else
      var c, rest := s[0], s[1..];
      match mode
      case Single =>
        if c == '\'' then Scan(rest, Plain, word) else Scan(rest, Single, Grow(word, c))
      case Double =>
        if c == '"' then Scan(rest, Plain, word)
        else if c == '$' || c == '`' then None
        else if c == '\\' && rest != "" && (rest[0] == '$' || rest[0] == '`' || rest[0] == '"' || rest[0] == '\\') then
          Scan(rest[1..], Double, Grow(word, rest[0]))
        else if c == '\\' && rest != "" && rest[0] == '\n' then Scan(rest[1..], Double, word)
        else Scan(rest, Double, Grow(word, c))
      case Plain =>
        if c == '\'' then Scan(rest, Single, Begin(word))
        else if c == '"' then Scan(rest, Double, Begin(word))
        else if c == '\\' then
          if rest == "" then None
          else if rest[0] == '\n' then Scan(rest[1..], Plain, word)
          else Scan(rest[1..], Plain, Grow(word, rest[0]))
        else if IsBlank(c) then Emit(Flush(word), Scan(rest, Plain, None))
        else if IsControl(c) then
          Emit(Flush(word) + [Operator(OperatorAt(s))], Scan(s[|OperatorAt(s)|..], Plain, None))
        else if IsSpecial(c) then None
        else Scan(rest, Plain, Grow(word, c))
  }

  function Lex(s: string): Option<seq<Token>>
  {
    Scan(s, Plain, None)
  }

  /** shell_quote: quotes around the value, each quote in it closed, escaped and reopened. */
  function Quote(value: string): string
  {
    "'" + Replace(value, "'", "'\\''") + "'"
  }

  lemma EscapedQuote(tail: string, w: string)
    ensures Scan("'\\''" + tail, Single, Some(w)) == Scan(tail, Single, Some(w + "'"))
  {
    var s := "'\\''" + tail;
    assert Scan(s, Single, Some(w)) == Scan(s[1..], Plain, Some(w));
    assert s[1..][0] == '\\' && s[1..][1..][0] == '\'';
    assert s[1..][1..][1..] == "'" + tail;
    assert Scan(s[1..], Plain, Some(w)) == Scan("'" + tail, Plain, Grow(Some(w), '\''));
    assert ("'" + tail)[1..] == tail;
  }

  lemma PlainInside(c: char, tail: string, w: string)
    requires c != '\''
    ensures Scan([c] + tail, Single, Some(w)) == Scan(tail, Single, Some(w + [c]))
  {
    assert ([c] + tail)[1..] == tail;
  }

  lemma ClosingQuote(rest: string, w: string)
    ensures Scan("'" + rest, Single, Some(w)) == Scan(rest, Plain, Some(w))
  {
    assert ("'" + rest)[1..] == rest;
  }

  lemma {:induction false} ScanQuoted(s: string, quote: string, escaped: string, rest: string, w: string)
    requires quote == "'" && escaped == "'\\''"
    ensures Scan(Replace(s, quote, escaped) + quote + rest, Single, Some(w)) == Scan(rest, Plain, Some(w + s))
  {
    var text := Replace(s, quote, escaped) + quote + rest;
    if s == "" {
      assert text == quote + rest && w + s == w;
      ClosingQuote(rest, w);
    } else {
      var tail := Replace(s[1..], quote, escaped) + quote + rest;
      ScanQuoted(s[1..], quote, escaped, rest, w + [s[0]]);
      assert w + [s[0]] + s[1..] == w + s;
      if quote <= s {
        assert text == escaped + tail;
        EscapedQuote(tail, w);
      } else {
        assert [s[0]] != quote && text == [s[0]] + tail;
        PlainInside(s[0], tail, w);
      }
    }
  }

  /** A quoted value is read as exactly that value, whatever stands before and after it. */
  lemma QuoteReadsBack(value: string, word: Option<string>, rest: string)
    ensures Scan(Quote(value) + rest, Plain, word)
         == Scan(rest, Plain, Some((if word.Some? then word.value else "") + value))
  {
    var text := Quote(value) + rest;
    assert text[0] == '\'' && text[1..] == Replace(value, "'", "'\\''") + "'" + rest;
    ScanQuoted(value, "'", "'\\''", rest, Begin(word).value);
  }

  /** The round trip: the shell reads a quoted value as one word, the value itself. */
  lemma QuotedIsOneWord(value: string)
    ensures Lex(Quote(value)) == Some([Word(value)])
  {
    QuoteReadsBack(value, None, "");
    assert Quote(value) + "" == Quote(value) && "" + value == value;
  }

  lemma QuoteIsInjective(a: string, b: string)
    requires Quote(a) == Quote(b)
    ensures a == b
  {
    QuotedIsOneWord(a);
    QuotedIsOneWord(b);
  }

  /** A piece of a command line: a word written as it is, a quoted word, or an operator. */
  datatype Piece = Bare(text: string) | Quoted(value: string) | Control(op: string)

  predicate WellFormed(p: Piece)
  {
    match p
    case Bare(text) => text != "" && forall i | 0 <= i < |text| :: IsNameLike(text[i])
    case Quoted(_) => true
    case Control(op) => op == "&&" || op == "||" || op == "|"
  }

  function Written(p: Piece): string
  {
    match p
    case Bare(text) => text
    case Quoted(value) => Quote(value)
    case Control(op) => op
  }

  function Meant(p: Piece): Token
  {
    match p
    case Bare(text) => Word(text)
    case Quoted(value) => Word(value)
    case Control(op) => Operator(op)
  }

  lemma Letter(c: char, tail: string, word: Option<string>)
    requires IsNameLike(c)
    ensures Scan([c] + tail, Plain, word) == Scan(tail, Plain, Grow(word, c))
  {
    assert ([c] + tail)[1..] == tail;
  }

  lemma {:induction false} LettersGrow(text: string, rest: string, word: Option<string>)
    requires text != "" && forall i | 0 <= i < |text| :: IsNameLike(text[i])
    ensures Scan(text + rest, Plain, word) == Scan(rest, Plain, Some((if word.Some? then word.value else "") + text))
  {
    var first, others := text[0], text[1..];
    var grown := Grow(word, first);
    assert text + rest == [first] + (others + rest);
    Letter(first, others + rest, word);
    if others == "" {
      assert others + rest == rest && text == [first];
    } else {
      LettersGrow(others, rest, grown);
      assert grown.value + others == (if word.Some? then word.value else "") + text;
    }
  }

  /** Where a word or a line may end. */
  predicate Ends(rest: string)
  {
    rest == "" || rest[0] == ' '
  }

  function AfterBlank(rest: string): string
  {
    if rest == "" then "" else rest[1..]
  }

  lemma BlankEndsWord(rest: string, w: string)
    requires Ends(rest)
    ensures Scan(rest, Plain, Some(w)) == Emit([Word(w)], Scan(AfterBlank(rest), Plain, None))
  {
    var word := [Word(w)];
    assert word + [] == word;
  }

  lemma BlankEndsOperator(op: string, rest: string)
    requires Ends(rest)
    ensures Emit([Operator(op)], Scan(rest, Plain, None)) == Emit([Operator(op)], Scan(AfterBlank(rest), Plain, None))
  {
    if rest != "" {
      var after := Scan(rest[1..], Plain, None);
      assert after.Some? ==> [] + after.value == after.value;
    }
  }

  lemma BareIsRead(text: string, rest: string)
    requires WellFormed(Bare(text)) && Ends(rest)
    ensures Scan(text + rest, Plain, None) == Emit([Word(text)], Scan(AfterBlank(rest), Plain, None))
  {
    LettersGrow(text, rest, None);
    assert "" + text == text;
    BlankEndsWord(rest, text);
  }

  lemma QuotedIsRead(value: string, rest: string)
    requires Ends(rest)
    ensures Scan(Quote(value) + rest, Plain, None) == Emit([Word(value)], Scan(AfterBlank(rest), Plain, None))
  {
    QuoteReadsBack(value, None, rest);
    assert "" + value == value;
    BlankEndsWord(rest, value);
  }

  lemma ControlIsRead(op: string, rest: string)
    requires WellFormed(Control(op)) && Ends(rest)
    ensures Scan(op + rest, Plain, None) == Emit([Operator(op)], Scan(AfterBlank(rest), Plain, None))
  {
    var s := op + rest;
    assert IsControl(s[0]) && OperatorAt(s) == op && s[|op|..] == rest;
    var token := Operator(op);
    assert Flush(None) + [token] == [token];
    BlankEndsOperator(op, rest);
  }

  lemma PieceIsRead(p: Piece, rest: string)
    requires WellFormed(p) && Ends(rest)
    ensures Scan(Written(p) + rest, Plain, None) == Emit([Meant(p)], Scan(AfterBlank(rest), Plain, None))
  {
    match p
    case Bare(text) => BareIsRead(text, rest);
    case Quoted(value) => QuotedIsRead(value, rest);
    case Control(op) => ControlIsRead(op, rest);
  }

  /** The shell reads `line` as these tokens. */
  predicate Reads(line: string, tokens: seq<Token>)
  {
    Lex(line) == Some(tokens)
  }

  lemma PieceAlone(p: Piece)
    requires WellFormed(p)
    ensures Reads(Written(p), [Meant(p)])
  {
    PieceIsRead(p, "");
    assert Written(p) + "" == Written(p);
    assert [Meant(p)] + [] == [Meant(p)];
  }

  lemma PieceThen(p: Piece, line: string, tokens: seq<Token>)
    requires WellFormed(p) && Reads(line, tokens)
    ensures Reads(Written(p) + " " + line, [Meant(p)] + tokens)
  {
    var rest := " " + line;
    assert AfterBlank(rest) == line;
    assert Written(p) + rest == Written(p) + " " + line;
    PieceIsRead(p, rest);
  }

  lemma Regroup(a: string, b: string, rest: string)
    ensures a + " " + (b + " " + rest) == (a + " " + b) + " " + rest
  {
  }

  lemma TwoThen(p: Piece, q: Piece, line: string, tokens: seq<Token>)
    requires WellFormed(p) && WellFormed(q) && Reads(line, tokens)
    ensures Reads((Written(p) + " " + Written(q)) + " " + line, [Meant(p), Meant(q)] + tokens)
  {
    PieceThen(q, line, tokens);
    PieceThen(p, Written(q) + " " + line, [Meant(q)] + tokens);
    Regroup(Written(p), Written(q), line);
    assert [Meant(p)] + ([Meant(q)] + tokens) == [Meant(p), Meant(q)] + tokens;
  }

  /** What ssh sends: its command arguments joined by blanks. */
  function RemoteCommand(script: string): string
  {
    "sh" + " " + "-c" + " " + Quote(script)
  }

  lemma LoginWords()
    ensures WellFormed(Bare("sh")) && WellFormed(Bare("-c"))
  {
  }

  lemma RemoteCommandSpelt(quoted: string)
    ensures "sh" + " " + "-c" + " " + quoted == ("sh" + " " + "-c") + " " + quoted
  {
  }

  /** The login shell on the other side starts `sh -c` with the script as one argument, whatever the script. */
  lemma LoginShellReads(script: string)
    ensures Reads(RemoteCommand(script), [Word("sh"), Word("-c"), Word(script)])
  {
    LoginWords();
    PieceAlone(Quoted(script));
    TwoThen(Bare("sh"), Bare("-c"), Quote(script), [Word(script)]);
    RemoteCommandSpelt(Quote(script));
    assert [Word("sh"), Word("-c")] + [Word(script)] == [Word("sh"), Word("-c"), Word(script)];
  }

  lemma {:induction false} ReplaceAbsent(s: string, from: string, to: string)
    requires |from| == 1 && from[0] !in s
    ensures Replace(s, from, to) == s
  {
    if s != "" {
      ReplaceAbsent(s[1..], from, to);
    }
  }

  /** The scripts, as the format strings spell them. */
  function InstallScript(dir: string): string
  {
    "install -d -m 0755 " + Quote(dir)
  }

  function DigestScript(path: string): string
  {
    "test -f " + Quote(path) + " && sha256sum " + Quote(path) + " | awk '{print $1}' || true"
  }

  function MoveScript(temp: string, target: string): string
  {
    "chmod 0644 " + Quote(temp) + " && mv -f -- " + Quote(temp) + " " + Quote(target)
  }

  /** Both shells together: the inner one reads what the outer one passes on. */
  function BothShells(script: string): Option<seq<Token>>
  {
    var outer := Lex(RemoteCommand(script));
    if outer.Some? && |outer.value| == 3 && outer.value[..2] == [Word("sh"), Word("-c")] && outer.value[2].Word? then
      Lex(outer.value[2].text)
    else None
  }

  lemma BothShellsRead(script: string)
    ensures BothShells(script) == Lex(script)
  {
    LoginShellReads(script);
  }

  lemma InstallWords()
    ensures WellFormed(Bare("install")) && WellFormed(Bare("-d")) && WellFormed(Bare("-m")) && WellFormed(Bare("0755"))
  {
  }

  lemma MoveWords()
    ensures WellFormed(Bare("chmod")) && WellFormed(Bare("0644")) && WellFormed(Bare("mv"))
    ensures WellFormed(Bare("-f")) && WellFormed(Bare("--"))
  {
  }

  lemma DigestWords()
    ensures WellFormed(Bare("test")) && WellFormed(Bare("-f")) && WellFormed(Bare("sha256sum"))
    ensures WellFormed(Bare("awk")) && WellFormed(Bare("true"))
  {
  }

  lemma InstallIsRead(dir: string)
    ensures BothShells(InstallScript(dir)) == Some([Word("install"), Word("-d"), Word("-m"), Word("0755"), Word(dir)])
  {
    InstallWords();
    PieceAlone(Quoted(dir));
    TwoThen(Bare("-m"), Bare("0755"), Quote(dir), [Word(dir)]);
    var line := ("-m" + " " + "0755") + " " + Quote(dir);
    TwoThen(Bare("install"), Bare("-d"), line, [Word("-m"), Word("0755")] + [Word(dir)]);
    assert ("install" + " " + "-d") + " " + line == InstallScript(dir);
    BothShellsRead(InstallScript(dir));
    assert [Word("install"), Word("-d")] + ([Word("-m"), Word("0755")] + [Word(dir)])
        == [Word("install"), Word("-d"), Word("-m"), Word("0755"), Word(dir)];
  }

  lemma MoveIsRead(temp: string, target: string)
    ensures BothShells(MoveScript(temp, target))
         == Some([Word("chmod"), Word("0644"), Word(temp), Operator("&&"), Word("mv"), Word("-f"), Word("--"), Word(temp), Word(target)])
  {
    MoveWords();
    PieceAlone(Quoted(target));
    TwoThen(Bare("--"), Quoted(temp), Quote(target), [Word(target)]);
    var l3 := ("--" + " " + Quote(temp)) + " " + Quote(target);
    var t3 := [Word("--"), Word(temp)] + [Word(target)];
    TwoThen(Bare("mv"), Bare("-f"), l3, t3);
    var l5 := ("mv" + " " + "-f") + " " + l3;
    var t5 := [Word("mv"), Word("-f")] + t3;
    TwoThen(Quoted(temp), Control("&&"), l5, t5);
    var l7 := (Quote(temp) + " " + "&&") + " " + l5;
    var t7 := [Word(temp), Operator("&&")] + t5;
    TwoThen(Bare("chmod"), Bare("0644"), l7, t7);
    MoveSpelt(Quote(temp), Quote(target));
    BothShellsRead(MoveScript(temp, target));
    assert [Word("chmod"), Word("0644")] + t7
        == [Word("chmod"), Word("0644"), Word(temp), Operator("&&"), Word("mv"), Word("-f"), Word("--"), Word(temp), Word(target)];
  }

  lemma MoveSpelt(temp: string, target: string)
    ensures "chmod 0644 " + temp + " && mv -f -- " + temp + " " + target
         == ("chmod" + " " + "0644") + " " + ((temp + " " + "&&") + " " + (("mv" + " " + "-f") + " " + (("--" + " " + temp) + " " + target)))
  {
    assert " && mv -f -- " == (" " + "&&" + " ") + (("mv" + " " + "-f") + " " + ("--" + " "));
  }

  lemma DigestLine(path: string, program: string)
    ensures Reads(("test" + " " + "-f") + " " + ((Quote(path) + " " + "&&") + " " + (("sha256sum" + " " + Quote(path)) + " " +
                    (("|" + " " + "awk") + " " + ((Quote(program) + " " + "||") + " " + "true")))),
                  [Word("test"), Word("-f"), Word(path), Operator("&&"), Word("sha256sum"), Word(path), Operator("|"),
                   Word("awk"), Word(program), Operator("||"), Word("true")])
  {
    DigestWords();
    PieceAlone(Bare("true"));
    TwoThen(Quoted(program), Control("||"), "true", [Word("true")]);
    var l3 := (Quote(program) + " " + "||") + " " + "true";
    var t3 := [Word(program), Operator("||")] + [Word("true")];
    TwoThen(Control("|"), Bare("awk"), l3, t3);
    var l5 := ("|" + " " + "awk") + " " + l3;
    var t5 := [Operator("|"), Word("awk")] + t3;
    TwoThen(Bare("sha256sum"), Quoted(path), l5, t5);
    var l7 := ("sha256sum" + " " + Quote(path)) + " " + l5;
    var t7 := [Word("sha256sum"), Word(path)] + t5;
    TwoThen(Quoted(path), Control("&&"), l7, t7);
    var l9 := (Quote(path) + " " + "&&") + " " + l7;
    var t9 := [Word(path), Operator("&&")] + t7;
    TwoThen(Bare("test"), Bare("-f"), l9, t9);
    assert [Word("test"), Word("-f")] + t9
        == [Word("test"), Word("-f"), Word(path), Operator("&&"), Word("sha256sum"), Word(path), Operator("|"),
            Word("awk"), Word(program), Operator("||"), Word("true")];
  }

  lemma DigestIsRead(path: string)
    ensures BothShells(DigestScript(path))
         == Some([Word("test"), Word("-f"), Word(path), Operator("&&"), Word("sha256sum"), Word(path), Operator("|"),
                  Word("awk"), Word("{print $1}"), Operator("||"), Word("true")])
  {
    var program := "{print $1}";
    ReplaceAbsent(program, "'", "'\\''");
    DigestLine(path, program);
    DigestSpelt(Quote(path), Quote(program));
    BothShellsRead(DigestScript(path));
  }

  lemma DigestSpelt(path: string, program: string)
    requires program == "'" + "{print $1}" + "'"
    ensures "test -f " + path + " && sha256sum " + path + " | awk '{print $1}' || true"
         == ("test" + " " + "-f") + " " + ((path + " " + "&&") + " " + (("sha256sum" + " " + path) + " " +
              (("|" + " " + "awk") + " " + ((program + " " + "||") + " " + "true"))))
  {
    AwkSpelt(program);
    var tail := ("|" + " " + "awk") + " " + ((program + " " + "||") + " " + "true");
    assert " && sha256sum " == (" " + "&&" + " ") + ("sha256sum" + " ");
    assert "test -f " + path + " && sha256sum " + path + (" " + tail)
        == ("test" + " " + "-f") + " " + ((path + " " + "&&") + " " + (("sha256sum" + " " + path) + " " + tail));
  }

  lemma AwkSpelt(program: string)
    requires program == "'" + "{print $1}" + "'"
    ensures " | awk '{print $1}' || true" == " " + (("|" + " " + "awk") + " " + ((program + " " + "||") + " " + "true"))
  {
  }
}
