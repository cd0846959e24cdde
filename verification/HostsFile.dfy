/** Pointing the registry's host name at the master in /etc/hosts (src/api.rs:1320-1340). */
module HostsFile {
  import opened Text

  const REGISTRY := "hub.cangling.cn"

  /** A line without its carriage return. */
  function Chomp(line: string): string
  {
    if line != "" && Last(line) == '\r' then Init(line) else line
  }

  function ChompAll(lines: seq<string>): seq<string>
  {
    seq(|lines|, i requires 0 <= i < |lines| => Chomp(lines[i]))
  }

  /** The lines of a text; only a terminated line loses a carriage return. */
  function Lines(content: string): seq<string>
  {
    var pieces := Split(content, '\n');
    ChompAll(Init(pieces)) + if Last(pieces) == "" then [] else [Last(pieces)]
  }

  /** The part of a line before its comment. */
  function Uncommented(line: string): string
  {
    if line == "" || line[0] == '#' then "" else [line[0]] + Uncommented(line[1..])
  }

  /** The line gives the registry an address. */
  predicate Names(line: string)
  {
    var words := Words(Uncommented(line));
    words != [] && REGISTRY in words[1..]
  }

  predicate IsBlank(line: string)
  {
    forall c | c in line :: IsSpace(c)
  }

  function WithoutRegistry(lines: seq<string>): seq<string>
  {
    if lines == [] then []
    else WithoutRegistry(Init(lines)) + if Names(Last(lines)) then [] else [Last(lines)]
  }

  function TrimEnd(lines: seq<string>): (kept: seq<string>)
    ensures kept <= lines && (kept != [] ==> !IsBlank(Last(kept)))
    ensures forall line | line in lines[|kept|..] :: IsBlank(line)
  {
    if lines != [] && IsBlank(Last(lines)) then
      var kept := TrimEnd(Init(lines));
      assert lines[|kept|..] == Init(lines)[|kept|..] + [Last(lines)];
      kept
    else lines
  }

  /** The lines that stay. */
  function Kept(content: string): seq<string>
  {
    TrimEnd(WithoutRegistry(Lines(content)))
  }

  function Entry(ip: string): string
  {
    ip + "\t" + REGISTRY
  }

  function Update(content: string, ip: string): string
  {
    var text := Join(Kept(content), '\n');
    (if text == "" then "" else text + "\n") + Entry(ip) + "\n"
  }

  method UpdateZotHosts(content: string, ip: string) returns (result: string)
    ensures result == Update(content, ip)
  {
    var all := Lines(content);
    var lines := [];
    var i := 0;
    while i < |all|
      invariant 0 <= i <= |all| && lines == WithoutRegistry(all[..i])
    {
      assert Init(all[..i + 1]) == all[..i];
      if !Names(all[i]) {
        lines := lines + [all[i]];
      }
      i := i + 1;
    }
    assert all[..i] == all;
    while lines != [] && IsBlank(Last(lines))
      invariant TrimEnd(lines) == Kept(content)
    {
      lines := Init(lines);
    }
    result := Join(lines, '\n');
    if result != "" {
      result := result + "\n";
    }
    result := result + Entry(ip) + "\n";
  }

  // ----- what names the registry

  /** A later word of a text, read off the text: behind a blank and something that is not blank, up to a blank or the end. */
  predicate LaterWordAt(s: string, word: string, i: nat)
  {
    && 0 < i && i + |word| <= |s| && s[i..i + |word|] == word
    && IsSpace(s[i - 1]) && !IsBlank(s[..i]) && (i + |word| == |s| || IsSpace(s[i + |word|]))
  }

  /** Where the last word begins, or the end if the text ends in white space. */
  function LastStart(s: string): (k: nat)
    ensures k <= |s| && WithoutSpace(s[k..]) && (k > 0 ==> IsSpace(s[k - 1]))
  {
    if s == "" || IsSpace(Last(s)) then |s|
    else
      var k := LastStart(Init(s));
      assert s[k..] == Init(s)[k..] + [Last(s)];
      k
  }

  lemma WordsByLast(front: string, space: char, word: string)
    requires IsSpace(space) && WithoutSpace(word)
    ensures Words(front + [space] + word) == Words(front) + if word == "" then [] else [word]
  {
    var s := front + [space];
    assert Init(s) == front && Fields(s) == Fields(front) + [""];
    FieldsAppend(s, word);
    assert Init(Fields(front) + [""]) == Fields(front) && "" + word == word;
    assert Init(Fields(front) + [word]) == Fields(front);
  }

  lemma {:induction false} BlankHasNoWords(s: string)
    ensures Words(s) == [] <==> IsBlank(s)
    decreases |s|
  {
    var k := LastStart(s);
    if k == 0 {
      OneField(s);
      assert s != "" ==> s[0] in s;
    } else {
      assert s == s[..k - 1] + [s[k - 1]] + s[k..];
      WordsByLast(s[..k - 1], s[k - 1], s[k..]);
      BlankHasNoWords(s[..k - 1]);
      assert s[k..] != "" ==> s[k..][0] in s[k..];
    }
  }

  lemma SliceOfFront(front: string, rest: string, i: nat, n: nat)
    requires i + n <= |front|
    ensures (front + rest)[i..i + n] == front[i..i + n] && (front + rest)[..i] == front[..i]
  {
  }

  /** A word does not reach over a blank. */
  lemma WordStaysBefore(s: string, word: string, i: nat, at: nat)
    requires i <= at < |s| && IsSpace(s[at]) && WithoutSpace(word) && i + |word| <= |s| && s[i..i + |word|] == word
    ensures i + |word| <= at
  {
    assert forall k | 0 <= k < |word| :: word[k] in word && s[i + k] == s[i..i + |word|][k];
  }

  lemma LaterWordSplits(front: string, space: char, last: string, word: string, i: nat)
    requires IsSpace(space) && WithoutSpace(last) && word != "" && WithoutSpace(word)
    ensures LaterWordAt(front + [space] + last, word, i)
       <==> LaterWordAt(front, word, i) || (i == |front| + 1 && last == word && !IsBlank(front))
  {
    var rest, k := [space] + last, |front| + 1;
    var s := front + rest;
    assert s == front + [space] + last && s[k - 1] == space;
    if i < k {
      if LaterWordAt(s, word, i) {
        WordStaysBefore(s, word, i, k - 1);
      }
      if i + |word| <= |front| {
        SliceOfFront(front, rest, i, |word|);
      }
    } else if i == k {
      LastWordAt(front, space, last, word);
    } else {
      assert i <= |s| ==> s[i - 1] == last[i - 1 - k] && last[i - 1 - k] in last;
    }
  }

  lemma LastWordAt(front: string, space: char, last: string, word: string)
    requires IsSpace(space) && WithoutSpace(last)
    ensures LaterWordAt(front + [space] + last, word, |front| + 1) <==> last == word && !IsBlank(front)
  {
    var s, k := front + [space] + last, |front| + 1;
    assert s[k..] == last && s[..k] == front + [space] && |s| == k + |last|;
    assert IsBlank(front + [space]) <==> IsBlank(front) by {
      assert forall c | c in front :: c in front + [space];
    }
    if |word| < |last| {
      assert s[k + |word|] == last[|word|] && last[|word|] in last;
    } else if |word| == |last| {
      assert s[k..k + |word|] == last;
    }
  }

  predicate LaterIn(words: seq<string>, word: string)
  {
    words != [] && word in words[1..]
  }

  lemma LaterInLonger(words: seq<string>, last: string, word: string)
    requires word != ""
    ensures LaterIn(words + if last == "" then [] else [last], word) <==> LaterIn(words, word) || (last == word && words != [])
  {
    if last == "" {
      assert words + [] == words;
    } else if words != [] {
      assert (words + [last])[1..] == words[1..] + [last];
    }
  }

  lemma {:induction false} LaterWords(s: string, word: string)
    requires word != "" && WithoutSpace(word)
    ensures LaterIn(Words(s), word) <==> exists i: nat :: LaterWordAt(s, word, i)
    decreases |s|
  {
    var k := LastStart(s);
    if k == 0 {
      OneField(s);
      assert forall j | 0 <= j < |s| :: s[j] in s;
    } else {
      var front, last := s[..k - 1], s[k..];
      assert s == front + [s[k - 1]] + last;
      WordsByLast(front, s[k - 1], last);
      LaterWords(front, word);
      BlankHasNoWords(front);
      forall i: nat ensures LaterWordAt(s, word, i) <==> LaterWordAt(front, word, i) || (i == k && last == word && !IsBlank(front)) {
        LaterWordSplits(front, s[k - 1], last, word, i);
      }
      LaterInLonger(Words(front), last, word);
      if last == word && !IsBlank(front) {
        assert LaterWordAt(s, word, k);
      }
    }
  }

  /** The registry's name stands there as a word of its own, as any but the first, and not in the comment. */
  predicate AliasAt(line: string, i: nat)
  {
    && 0 < i && i + |REGISTRY| <= |line| && line[i..i + |REGISTRY|] == REGISTRY
    && '#' !in line[..i] && IsSpace(line[i - 1]) && !IsBlank(line[..i])
    && (i + |REGISTRY| == |line| || IsSpace(line[i + |REGISTRY|]) || line[i + |REGISTRY|] == '#')
  }

  lemma {:induction false} UncommentedIs(line: string)
    ensures Uncommented(line) <= line && '#' !in Uncommented(line)
    ensures |Uncommented(line)| < |line| ==> line[|Uncommented(line)|] == '#'
  {
    if line != "" && line[0] != '#' {
      UncommentedIs(line[1..]);
    }
  }

  lemma AliasIsWord(line: string, i: nat)
    ensures AliasAt(line, i) <==> LaterWordAt(Uncommented(line), REGISTRY, i)
  {
    var text, registry := Uncommented(line), REGISTRY;
    UncommentedIs(line);
    assert '#' !in registry;
    assert forall j | 0 <= j < |text| :: line[j] == text[j] && text[j] in text;
    if i + |registry| <= |line| && line[i..i + |registry|] == registry {
      forall j | i <= j < i + |registry| ensures line[j] != '#' {
        assert line[j] == registry[j - i] && registry[j - i] in registry;
      }
    }
    if i <= |line| {
      assert '#' !in line[..i] <==> i <= |text| by {
        assert |text| < i ==> line[..i][|text|] == '#';
      }
    }
    if i + |registry| <= |text| {
      assert text[i..i + |registry|] == line[i..i + |registry|] && text[..i] == line[..i];
    }
  }

  /** A line counts for the registry exactly if its name is one of the aliases, wherever among them it stands. */
  lemma NamesIsAlias(line: string)
    ensures Names(line) <==> exists i: nat :: AliasAt(line, i)
  {
    var registry := REGISTRY;
    assert WithoutSpace(registry) && registry != "";
    LaterWords(Uncommented(line), registry);
    forall i: nat ensures AliasAt(line, i) <==> LaterWordAt(Uncommented(line), registry, i) {
      AliasIsWord(line, i);
    }
  }

  lemma OneLine(line: string)
    ensures WithoutRegistry([line]) == if Names(line) then [] else [line]
  {
    assert Init([line]) == [] && WithoutRegistry([]) == [];
  }

  /** A line that counts goes wherever it stands, and the others keep their order. */
  lemma NamedLineGoes(before: seq<string>, line: string, after: seq<string>)
    ensures WithoutRegistry(before + [line] + after)
         == WithoutRegistry(before) + (if Names(line) then [] else [line]) + WithoutRegistry(after)
  {
    OneLine(line);
    FilterConcat(before + [line], after);
    FilterConcat(before, [line]);
  }

  lemma {:induction false} FilterConcat(a: seq<string>, b: seq<string>)
    ensures WithoutRegistry(a + b) == WithoutRegistry(a) + WithoutRegistry(b)
  {
    if b == [] {
      assert a + b == a;
    } else {
      assert Init(a + b) == a + Init(b) && Last(a + b) == Last(b);
      FilterConcat(a, Init(b));
    }
  }

  lemma {:induction false} KeptOnes(lines: seq<string>)
    ensures forall line :: line in WithoutRegistry(lines) <==> line in lines && !Names(line)
  {
    if lines != [] {
      KeptOnes(Init(lines));
      assert lines == Init(lines) + [Last(lines)];
    }
  }

  lemma {:induction false} AllKept(lines: seq<string>)
    requires forall line | line in lines :: !Names(line)
    ensures WithoutRegistry(lines) == lines
  {
    if lines != [] {
      assert lines == Init(lines) + [Last(lines)];
      AllKept(Init(lines));
    }
  }

  lemma LinesAreWhole(content: string)
    ensures forall line | line in Lines(content) :: '\n' !in line
  {
    var pieces := Split(content, '\n');
    SplitPieces(content, '\n');
    forall i | 0 <= i < |pieces| - 1 ensures '\n' !in Chomp(pieces[i]) {
      assert pieces[i] in pieces;
    }
    assert Last(pieces) in pieces;
  }

  lemma KeptAreWhole(content: string)
    ensures forall line | line in Kept(content) :: '\n' !in line && !Names(line)
  {
    LinesAreWhole(content);
    KeptOnes(Lines(content));
  }

  /** The new text is the kept lines, the entry, and nothing after its line end. */
  lemma UpdateIsJoin(content: string, ip: string)
    ensures Update(content, ip) == Join(Kept(content) + [Entry(ip), ""], '\n')
  {
    var kept := Kept(content);
    var entry := Entry(ip);
    assert kept + [entry, ""] == (kept + [entry]) + [""];
    JoinSnoc(kept + [entry], "", '\n');
    if kept == [] {
      assert kept + [entry] == [entry];
      assert Update(content, ip) == entry + "\n";
      assert Join([entry], '\n') + ['\n'] + "" == entry + "\n";
    } else {
      JoinSnoc(kept, entry, '\n');
      JoinNonEmpty(kept);
      assert (Join(kept, '\n') + ['\n'] + entry) + ['\n'] + "" == (Join(kept, '\n') + "\n") + entry + "\n";
    }
  }

  lemma JoinNonEmpty(lines: seq<string>)
    requires lines != [] && Last(lines) != ""
    ensures Join(lines, '\n') != ""
  {
  }

  lemma EntryIsWhole(ip: string)
    requires WithoutSpace(ip)
    ensures '\n' !in Entry(ip)
  {
    var rest := "\t" + REGISTRY;
    assert Entry(ip) == ip + rest;
    assert '\n' !in rest && '\n' !in ip;
  }

  lemma PiecesAreWhole(content: string, ip: string)
    requires WithoutSpace(ip)
    ensures forall piece | piece in Kept(content) + [Entry(ip), ""] :: '\n' !in piece
  {
    KeptAreWhole(content);
    EntryIsWhole(ip);
  }

  lemma EntryEnds(ip: string)
    ensures Chomp(Entry(ip)) == Entry(ip) && !IsBlank(Entry(ip))
  {
    var entry := Entry(ip);
    assert Last(entry) == Last(REGISTRY) == 'n';
    assert entry[|entry| - 1] in entry;
  }

  lemma ChompEntry(lines: seq<string>, ip: string)
    ensures ChompAll(lines + [Entry(ip)]) == ChompAll(lines) + [Entry(ip)]
  {
    EntryEnds(ip);
  }

  lemma LinesOfJoin(lines: seq<string>)
    requires forall line | line in lines :: '\n' !in line
    ensures Lines(Join(lines + [""], '\n')) == ChompAll(lines)
  {
    var pieces := lines + [""];
    SplitJoin(pieces, '\n');
    assert Init(pieces) == lines && Last(pieces) == "";
    assert ChompAll(lines) + [] == ChompAll(lines);
  }

  lemma LinesOfUpdate(content: string, ip: string)
    requires WithoutSpace(ip)
    ensures Lines(Update(content, ip)) == ChompAll(Kept(content)) + [Entry(ip)]
  {
    var kept, entry := Kept(content), Entry(ip);
    UpdateIsJoin(content, ip);
    KeptAreWhole(content);
    EntryIsWhole(ip);
    assert kept + [entry, ""] == (kept + [entry]) + [""];
    LinesOfJoin(kept + [entry]);
    ChompEntry(kept, ip);
  }

  lemma {:induction false} UncommentedWhole(line: string)
    requires '#' !in line
    ensures Uncommented(line) == line
  {
    if line != "" {
      UncommentedWhole(line[1..]);
    }
  }

  lemma {:induction false} UncommentedEarly(line: string, more: string)
    requires '#' in line
    ensures Uncommented(line + more) == Uncommented(line)
  {
    if line[0] != '#' {
      UncommentedEarly(line[1..], more);
      assert (line + more)[1..] == line[1..] + more;
    }
  }

  /** A carriage return at the end of a line changes nothing that is asked of it. */
  lemma ChompedSays(line: string)
    ensures Names(Chomp(line)) <==> Names(line)
    ensures IsBlank(Chomp(line)) <==> IsBlank(line)
  {
    if line != "" && Last(line) == '\r' {
      var short := Init(line);
      assert line == short + ['\r'];
      if '#' in short {
        UncommentedEarly(short, ['\r']);
      } else {
        UncommentedWhole(short);
        UncommentedWhole(line);
        WordsBeforeSpace(short, '\r');
      }
    }
  }

  lemma EntryWords(ip: string)
    requires WithoutSpace(ip)
    ensures Words(Entry(ip)) == (if ip == "" then [] else [ip]) + [REGISTRY]
  {
    var registry := REGISTRY;
    assert WithoutSpace(registry);
    OneField(ip);
    assert Init(ip + "\t") == ip && Last(ip + "\t") == '\t';
    assert Fields(ip + "\t") == Fields(ip) + [""];
    FieldsAppend(ip + "\t", registry);
    assert Init(Fields(ip) + [""]) == Fields(ip) && "" + registry == registry;
    assert Entry(ip) == (ip + "\t") + registry;
    assert Init(Fields(ip) + [registry]) == Fields(ip);
  }

  lemma {:induction false} UncommentedPart(line: string)
    ensures Uncommented(line) <= line
  {
    if line != "" && line[0] != '#' {
      UncommentedPart(line[1..]);
    }
  }

  /** The entry counts as one for the registry exactly if the address is there and starts no comment. */
  lemma EntryNames(ip: string)
    requires WithoutSpace(ip)
    ensures Names(Entry(ip)) <==> ip != "" && '#' !in ip
  {
    if '#' in ip {
      UncommentedEarly(ip, "\t" + REGISTRY);
      assert Entry(ip) == ip + ("\t" + REGISTRY);
      UncommentedPart(ip);
      OneField(Uncommented(ip));
    } else {
      assert '#' !in REGISTRY;
      UncommentedWhole(Entry(ip));
      EntryWords(ip);
    }
  }

  ghost predicate Settled(lines: seq<string>)
  {
    && (forall line | line in lines :: !Names(line))
    && (lines != [] ==> !IsBlank(Last(lines)))
  }

  lemma ChompedSettled(lines: seq<string>)
    requires Settled(lines)
    ensures Settled(ChompAll(lines))
  {
    forall i | 0 <= i < |lines| ensures !Names(Chomp(lines[i])) {
      ChompedSays(lines[i]);
    }
    if lines != [] {
      ChompedSays(Last(lines));
    }
  }

  lemma KeptOfUpdate(content: string, ip: string)
    requires WithoutSpace(ip)
    ensures Kept(Update(content, ip)) == ChompAll(Kept(content)) + if Names(Entry(ip)) then [] else [Entry(ip)]
  {
    var lines, entry := ChompAll(Kept(content)), Entry(ip);
    LinesOfUpdate(content, ip);
    KeptAreWhole(content);
    ChompedSettled(Kept(content));
    AllKept(lines);
    EntryEnds(ip);
    assert Init(lines + [entry]) == lines;
    assert lines + [] == lines;
  }

  lemma ChompAllIsSame(lines: seq<string>)
    ensures ChompAll(lines) == lines <==> forall line | line in lines :: Chomp(line) == line
  {
    if ChompAll(lines) == lines {
      forall i | 0 <= i < |lines| ensures Chomp(lines[i]) == lines[i] {
        assert ChompAll(lines)[i] == lines[i];
      }
    }
  }

  /** The second update keeps the same lines as the first exactly if it finds the entry and no carriage return. */
  lemma SameKept(content: string, ip: string)
    requires WithoutSpace(ip)
    ensures Kept(Update(content, ip)) == Kept(content)
       <==> ip != "" && '#' !in ip && forall line | line in Kept(content) :: Chomp(line) == line
  {
    var kept := Kept(content);
    KeptOfUpdate(content, ip);
    EntryNames(ip);
    ChompAllIsSame(kept);
    assert ChompAll(kept) + [] == ChompAll(kept);
    assert |ChompAll(kept) + [Entry(ip)]| == |kept| + 1;
  }

  /** Two updates give the same text exactly if they keep the same lines. */
  lemma SameUpdate(a: string, b: string, ip: string)
    requires WithoutSpace(ip)
    ensures Update(a, ip) == Update(b, ip) <==> Kept(a) == Kept(b)
  {
    UpdateIsJoin(a, ip);
    UpdateIsJoin(b, ip);
    PiecesAreWhole(a, ip);
    PiecesAreWhole(b, ip);
    SplitJoin(Kept(a) + [Entry(ip), ""], '\n');
    SplitJoin(Kept(b) + [Entry(ip), ""], '\n');
    SameFront(Kept(a), Kept(b), [Entry(ip), ""]);
  }

  /** Updating is idempotent exactly if the address is there, starts no comment, and no kept line still ends in a
      carriage return. */
  lemma UpdateAgain(content: string, ip: string)
    requires WithoutSpace(ip)
    ensures Update(Update(content, ip), ip) == Update(content, ip)
       <==> ip != "" && '#' !in ip && forall line | line in Kept(content) :: Chomp(line) == line
  {
    SameUpdate(Update(content, ip), content, ip);
    SameKept(content, ip);
  }

  lemma SameFront(a: seq<string>, b: seq<string>, back: seq<string>)
    ensures a + back == b + back <==> a == b
  {
    if a + back == b + back {
      assert |a| == |b|;
      assert a == (a + back)[..|a|] == (b + back)[..|a|] == b;
    }
  }

  lemma {:induction false} PiecesAreParts(s: string, c: char)
    requires c !in s
    ensures forall piece | piece in Split(s, '\n') :: c !in piece
  {
    if s != "" {
      assert s == Init(s) + [Last(s)];
      PiecesAreParts(Init(s), c);
      var before := Split(Init(s), '\n');
      assert Last(before) in before;
      forall piece | piece in Extend(before, Last(s), '\n') ensures c !in piece {
        if piece !in before && piece != [] {
          assert piece == Last(before) + [Last(s)];
        }
      }
    }
  }

  lemma LinesArePlain(content: string)
    requires '\r' !in content
    ensures forall line | line in Lines(content) :: '\r' !in line
  {
    var pieces := Split(content, '\n');
    PiecesAreParts(content, '\r');
    forall i | 0 <= i < |pieces| - 1 ensures '\r' !in Chomp(pieces[i]) {
      assert pieces[i] in pieces;
    }
    assert Last(pieces) in pieces;
  }

  lemma PlainLine(line: string)
    requires '\r' !in line
    ensures Chomp(line) == line
  {
  }

  lemma PlainTextStays(content: string)
    requires '\r' !in content
    ensures forall line | line in Kept(content) :: Chomp(line) == line
    ensures ChompAll(Kept(content)) == Kept(content)
  {
    var kept := Kept(content);
    LinesArePlain(content);
    KeptOnes(Lines(content));
    forall i | 0 <= i < |kept| ensures Chomp(kept[i]) == kept[i] {
      assert kept[i] in WithoutRegistry(Lines(content));
      PlainLine(kept[i]);
    }
  }

  /** On a text without carriage returns and an address without white space or '#': the lines that do not name the
      registry stay, in order and up to blank ones at the end; the entry follows; it alone names the registry; and a
      second update changes nothing. */
  lemma UpdateLeavesOneEntry(content: string, ip: string)
    requires '\r' !in content && ip != "" && WithoutSpace(ip) && '#' !in ip
    ensures var kept := Kept(content); var lines := Lines(Update(content, ip));
      && kept <= WithoutRegistry(Lines(content))
      && (forall line | line in WithoutRegistry(Lines(content))[|kept|..] :: IsBlank(line))
      && lines == kept + [Entry(ip)]
      && Names(Last(lines)) && (forall line | line in kept :: !Names(line))
      && Update(Update(content, ip), ip) == Update(content, ip)
  {
    LinesOfUpdate(content, ip);
    PlainTextStays(content);
    KeptAreWhole(content);
    EntryNames(ip);
    UpdateAgain(content, ip);
  }
}
