/** Index entries as text: the lines that write them, the listing that names them and the pathspecs that remove them
    (src/backup.rs:233-271, 349-400). */
module IndexNames {
  import opened Text
  import opened Trees

  /** A path as a file system has it. */
  predicate Real(p: Path)
  {
    p != [] && forall c | c in p :: c != "" && '/' !in c
  }

  function Name(p: Path): string
  {
    Join(p, '/')
  }

  lemma NameIsInjective(p: Path, q: Path)
    requires Real(p) && Real(q) && Name(p) == Name(q)
    ensures p == q
  {
    SplitJoin(p, '/');
    SplitJoin(q, '/');
  }

  function Names(paths: set<Path>): set<string>
  {
    set p | p in paths :: Name(p)
  }

  /** A line whose name starts with a quote or holds a line break stops the update. */
  predicate Garbles(name: string)
  {
    '\n' in name || (name != "" && name[0] == '"')
  }

  // ----- listing

  predicate IsControl(c: char)
  {
    c < ' ' || c == '\U{7F}'
  }

  predicate NeedsQuoting(c: char)
  {
    IsControl(c) || c == '"' || c == '\\'
  }

  /** "core.quotepath=false": only these characters make a name appear quoted. */
  predicate IsPrintedAsIs(name: string)
  {
    forall c | c in name :: !NeedsQuoting(c)
  }

  function Octal(c: char): string
    requires IsControl(c)
  {
    var n := c as int;
    "\\" + [(n / 64 + 48) as char, (n / 8 % 8 + 48) as char, (n % 8 + 48) as char]
  }

  function Escape(c: char): string
  {
    if c == '"' || c == '\\' then ['\\', c]
    else if c == '\t' then "\\t"
    else if c == '\n' then "\\n"
    else if c == '\r' then "\\r"
    else if c == '\U{07}' then "\\a"
    else if c == '\U{08}' then "\\b"
    else if c == '\U{0B}' then "\\v"
    else if c == '\U{0C}' then "\\f"
    else if IsControl(c) then Octal(c)
    else [c]
  }

  function EscapeAll(name: string): string
  {
    if name == "" then "" else Escape(name[0]) + EscapeAll(name[1..])
  }

  function Printed(name: string): string
  {
    if IsPrintedAsIs(name) then name else "\"" + EscapeAll(name) + "\""
  }

  function TrimStart(s: string): string
  {
    if s != "" && IsSpace(s[0]) then TrimStart(s[1..]) else s
  }

  function TrimEnd(s: string): string
  {
    if s != "" && IsSpace(Last(s)) then TrimEnd(Init(s)) else s
  }

  /** What the listing is read as: each line is trimmed. */
  function Shown(name: string): string
  {
    TrimEnd(TrimStart(Printed(name)))
  }

  // ----- pruning

  /** Whether removing with that pathspec removes the entry of that name. */
  type Matcher = (string, string) -> bool

  /** The pathspecs of a pruning: what is listed and not to be kept. */
  function Extras(names: set<string>, keep: set<string>): set<string>
  {
    set n | n in names && Shown(n) != "" && Shown(n) !in keep :: Shown(n)
  }

  /** An entry goes if one of the pathspecs matches it. */
  predicate Goes(matches: Matcher, extras: set<string>, name: string)
  {
    exists e | e in extras :: matches(e, name)
  }

  /** The pathspecs made of all these names take every stale one and none to be kept. */
  predicate Prunes(matches: Matcher, stale: set<string>, keep: set<string>)
  {
    var extras := Extras(stale + keep, keep);
    && (forall s | s in stale :: Goes(matches, extras, s))
    && (forall k | k in keep :: !Goes(matches, extras, k))
  }

  /** A pathspec without wildcards, escapes and magic, and a name that is listed as it is. */
  predicate Plain(name: string)
  {
    && name != "" && name[0] != ':' && !IsSpace(name[0]) && !IsSpace(Last(name))
    && forall c | c in name :: !NeedsQuoting(c) && c != '*' && c != '?' && c != '['
  }

  /** Git takes a plain pathspec for the one name it spells. */
  ghost predicate Literal(matches: Matcher)
  {
    forall e, n | Plain(e) :: matches(e, n) <==> e == n
  }

  lemma PlainIsShown(name: string)
    requires Plain(name)
    ensures Shown(name) == name
  {
    assert name[|name| - 1] == Last(name);
  }

  lemma PlainIsReadable(name: string)
    requires Plain(name)
    ensures !Garbles(name)
  {
    assert name[0] in name && !NeedsQuoting(name[0]);
    assert '\n' in name ==> NeedsQuoting('\n');
  }

  /** As long as all pathspecs come out plain, a pruning does its work exactly if every stale name is listed and read
      as it is. */
  lemma PlainPruning(matches: Matcher, stale: set<string>, keep: set<string>)
    requires Literal(matches) && stale !! keep
    requires forall n | n in stale + keep :: n != "" && (Shown(n) == "" || Plain(Shown(n)))
    ensures Prunes(matches, stale, keep) <==> forall s | s in stale :: Shown(s) == s
  {
    var extras := Extras(stale + keep, keep);
    forall s | s in stale ensures Goes(matches, extras, s) <==> Shown(s) == s {
      if Shown(s) == s {
        assert s in extras && matches(s, s);
      } else if Goes(matches, extras, s) {
        var e :| e in extras && matches(e, s);
        var n :| n in stale + keep && Shown(n) == e;
        PlainIsShown(e);
      }
    }
    forall k | k in keep ensures !Goes(matches, extras, k) {
      forall e | e in extras ensures !matches(e, k) {
        var n :| n in stale + keep && Shown(n) == e;
      }
    }
  }

  /** So with plain names throughout nothing stale stays and nothing else goes. */
  lemma PlainNamesPrune(matches: Matcher, stale: set<string>, keep: set<string>)
    requires Literal(matches) && stale !! keep && forall n | n in stale + keep :: Plain(n)
    ensures Prunes(matches, stale, keep)
  {
    forall n | n in stale + keep ensures Shown(n) == n {
      PlainIsShown(n);
    }
    PlainPruning(matches, stale, keep);
  }

  /** A stale "b " is looked up as "b" and stays. */
  lemma TrailingBlankStays(matches: Matcher, keep: set<string>)
    requires Literal(matches) && forall n | n in keep :: Plain(n)
    ensures !Prunes(matches, {"b "}, keep)
  {
    var b := "b ";
    assert Last(b) == ' ' && IsSpace(' ');
    assert b !in keep;
    BlankIsTrimmed();
    forall n | n in {b} + keep ensures n != "" && (Shown(n) == "" || Plain(Shown(n))) {
      if n != b {
        PlainIsShown(n);
      }
    }
    PlainPruning(matches, {b}, keep);
    assert b in {b} && Shown(b) != b;
  }

  lemma BlankIsTrimmed()
    ensures Shown("b ") == "b" && Plain("b")
  {
    var s := "b ";
    assert IsPrintedAsIs(s) && Printed(s) == s && TrimStart(s) == s;
    assert Init(s) == "b" && Last(s) == ' ' && IsSpace(' ');
    assert TrimEnd("b") == "b";
  }

  /** A stale name that is a pattern takes every kept entry it matches along, as "a?" takes "a1". */
  lemma PatternTakesKept(matches: Matcher, stale: set<string>, keep: set<string>, pattern: string, kept: string)
    requires pattern in stale && Shown(pattern) == pattern && pattern != "" && pattern !in keep
    requires kept in keep && matches(pattern, kept)
    ensures !Prunes(matches, stale, keep)
  {
    assert pattern in Extras(stale + keep, keep);
    assert kept in keep && Goes(matches, Extras(stale + keep, keep), kept);
  }
}
