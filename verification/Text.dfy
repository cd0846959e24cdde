/** Sequence idioms shared by the other modules: splitting, joining and the
    left-to-right substring replacement of the source's string type. */
module Text {

  datatype Option<+T> = None | Some(value: T)

  function Init<T>(s: seq<T>): seq<T>
    requires s != []
  {
    s[..|s| - 1]
  }

  function Last<T>(s: seq<T>): T
    requires s != []
  {
    s[|s| - 1]
  }

  /** The pieces of `s` between occurrences of `sep`: always one more than there are separators. */
  function Split<T(==)>(s: seq<T>, sep: T): (pieces: seq<seq<T>>)
    ensures pieces != []
  {
    if s == [] then [[]] else Extend(Split(Init(s), sep), Last(s), sep)
  }

  /** One more element after the text that gave `pieces`. */
  function Extend<T(==)>(pieces: seq<seq<T>>, x: T, sep: T): (longer: seq<seq<T>>)
    requires pieces != []
    ensures longer != []
  {
    if x == sep then pieces + [[]] else Init(pieces) + [Last(pieces) + [x]]
  }

  function Join<T>(pieces: seq<seq<T>>, sep: T): seq<T>
  {
    if pieces == [] then []
    else if |pieces| == 1 then pieces[0]
    else Join(Init(pieces), sep) + [sep] + Last(pieces)
  }

  lemma SplitSnoc<T>(s: seq<T>, x: T, sep: T)
    ensures Split(s + [x], sep) == Extend(Split(s, sep), x, sep)
  {
    assert Init(s + [x]) == s;
  }

  lemma {:induction false} SplitPieces<T>(s: seq<T>, sep: T)
    ensures forall piece | piece in Split(s, sep) :: sep !in piece
  {
    if s != [] {
      SplitPieces(Init(s), sep);
      var before := Split(Init(s), sep);
      forall piece | piece in Extend(before, Last(s), sep) ensures sep !in piece {
        if piece !in before && piece != [] {
          assert Last(before) in before;
          assert piece == Last(before) + [Last(s)];
        }
      }
    }
  }

  lemma {:induction false} SplitWithoutSeparator<T>(s: seq<T>, sep: T)
    requires sep !in s
    ensures Split(s, sep) == [s]
  {
    if s != [] {
      SplitWithoutSeparator(Init(s), sep);
      assert s == Init(s) + [Last(s)];
    }
  }

  lemma ExtendSuffix<T>(front: seq<seq<T>>, pieces: seq<seq<T>>, x: T, sep: T)
    requires pieces != []
    ensures Extend(front + pieces, x, sep) == front + Extend(pieces, x, sep)
  {
    assert Init(front + pieces) == front + Init(pieces);
  }

  /** Splitting can be resumed: only the unfinished last piece of the first part matters to the second. */
  lemma {:induction false} SplitResumes<T>(a: seq<T>, b: seq<T>, sep: T)
    ensures Split(a + b, sep) == Init(Split(a, sep)) + Split(Last(Split(a, sep)) + b, sep)
  {
    var done := Split(a, sep);
    if b == [] {
      assert a + b == a && Last(done) + b == Last(done);
      SplitLastPiece(a, sep);
    } else {
      var b', x := Init(b), Last(b);
      SplitResumes(a, b', sep);
      assert a + b == (a + b') + [x] && Last(done) + b == (Last(done) + b') + [x];
      SplitSnoc(a + b', x, sep);
      SplitSnoc(Last(done) + b', x, sep);
      ExtendSuffix(Init(done), Split(Last(done) + b', sep), x, sep);
    }
  }

  lemma SplitLastPiece<T>(a: seq<T>, sep: T)
    ensures Init(Split(a, sep)) + Split(Last(Split(a, sep)), sep) == Split(a, sep)
  {
    SplitPieces(a, sep);
    var last := Last(Split(a, sep));
    assert last in Split(a, sep);
    SplitWithoutSeparator(last, sep);
  }

  lemma JoinSnoc<T>(pieces: seq<seq<T>>, piece: seq<T>, sep: T)
    requires pieces != []
    ensures Join(pieces + [piece], sep) == Join(pieces, sep) + [sep] + piece
  {
    assert Init(pieces + [piece]) == pieces;
  }

  lemma JoinExtend<T>(pieces: seq<seq<T>>, x: T, sep: T)
    requires pieces != []
    ensures Join(Extend(pieces, x, sep), sep) == Join(pieces, sep) + [x]
  {
    if x == sep {
      JoinSnoc(pieces, [], sep);
    } else if |pieces| > 1 {
      JoinSnoc(Init(pieces), Last(pieces) + [x], sep);
    }
  }

  lemma {:induction false} JoinSplit<T>(s: seq<T>, sep: T)
    ensures Join(Split(s, sep), sep) == s
  {
    if s != [] {
      assert s == Init(s) + [Last(s)];
      JoinSplit(Init(s), sep);
      JoinExtend(Split(Init(s), sep), Last(s), sep);
    }
  }

  lemma {:induction false} SplitJoin<T>(pieces: seq<seq<T>>, sep: T)
    requires pieces != []
    requires forall piece | piece in pieces :: sep !in piece
    ensures Split(Join(pieces, sep), sep) == pieces
  {
    var last := Last(pieces);
    assert last in pieces;
    SplitWithoutSeparator(last, sep);
    if |pieces| > 1 {
      SplitJoin(Init(pieces), sep);
      SplitAppended(Join(Init(pieces), sep), last, sep);
    }
  }

  lemma SplitAppended<T>(front: seq<T>, piece: seq<T>, sep: T)
    requires sep !in piece
    ensures Split(front + [sep] + piece, sep) == Split(front, sep) + [piece]
  {
    SplitSnoc(front, sep, sep);
    SplitResumes(front + [sep], piece, sep);
    assert [] + piece == piece;
    SplitWithoutSeparator(piece, sep);
    assert Init(Split(front, sep) + [[]]) == Split(front, sep);
  }

  /** Every non-overlapping occurrence of `from`, found left to right, becomes `to`. */
  function Replace(s: string, from: string, to: string): string
    requires from != ""
  {
    if s == "" then ""
    else if from <= s then to + Replace(s[|from|..], from, to)
    else [s[0]] + Replace(s[1..], from, to)
  }

  /** White space as the source's character type has it. */
  predicate IsSpace(c: char)
  {
    || '\t' <= c <= '\r' || c == ' ' || c == '\U{85}' || c == '\U{A0}' || c == '\U{1680}'
    || '\U{2000}' <= c <= '\U{200A}' || c == '\U{2028}' || c == '\U{2029}' || c == '\U{202F}' || c == '\U{205F}' || c == '\U{3000}'
  }

  /** The pieces between white space characters, empty ones included. */
  function Fields(s: string): (fields: seq<string>)
    ensures fields != []
  {
    if s == "" then [""]
    else if IsSpace(Last(s)) then Fields(Init(s)) + [""]
    else Init(Fields(Init(s))) + [Last(Fields(Init(s))) + [Last(s)]]
  }

  function NonEmptyOnes(fields: seq<string>): seq<string>
  {
    if fields == [] then []
    else NonEmptyOnes(Init(fields)) + if Last(fields) == "" then [] else [Last(fields)]
  }

  function Words(s: string): seq<string>
  {
    NonEmptyOnes(Fields(s))
  }

  predicate WithoutSpace(s: string)
  {
    forall c | c in s :: !IsSpace(c)
  }

  lemma WordsBeforeSpace(s: string, c: char)
    requires IsSpace(c)
    ensures Words(s + [c]) == Words(s)
  {
    assert Init(s + [c]) == s && Init(Fields(s) + [""]) == Fields(s);
  }

  lemma {:induction false} FieldsAppend(s: string, word: string)
    requires WithoutSpace(word)
    ensures Fields(s + word) == Init(Fields(s)) + [Last(Fields(s)) + word]
  {
    if word == "" {
      assert s + word == s && Last(Fields(s)) + word == Last(Fields(s));
    } else {
      var w, c := Init(word), Last(word);
      assert s + word == (s + w) + [c] && Init((s + w) + [c]) == s + w;
      assert c == word[|word| - 1] && !IsSpace(c);
      FieldsAppend(s, w);
      assert Last(Fields(s)) + w + [c] == Last(Fields(s)) + word;
    }
  }

  lemma OneField(word: string)
    requires WithoutSpace(word)
    ensures Words(word) == if word == "" then [] else [word]
  {
    FieldsAppend("", word);
    assert Init([""]) == [] && Last([""]) + word == word;
    assert Fields(word) == [word] by {
      assert "" + word == word && [] + [word] == [word];
    }
    var fields := [word];
    assert Init(fields) == [] && Last(fields) == word;
    assert NonEmptyOnes(fields) == NonEmptyOnes(Init(fields)) + if word == "" then [] else [word];
    assert NonEmptyOnes(Init(fields)) == [];
  }

  lemma {:induction false} FieldsHaveNoSpace(s: string)
    ensures forall field | field in Fields(s) :: WithoutSpace(field)
  {
    if s != "" {
      var before := Fields(Init(s));
      FieldsHaveNoSpace(Init(s));
      assert Last(before) in before;
      if !IsSpace(Last(s)) {
        assert WithoutSpace(Last(before) + [Last(s)]);
        forall field | field in Fields(s) ensures WithoutSpace(field) {
          assert field in Init(before) || field == Last(before) + [Last(s)];
        }
      }
    }
  }

  lemma {:induction false} NonEmptyOnesAmong(fields: seq<string>)
    ensures forall field | field in NonEmptyOnes(fields) :: field in fields && field != ""
  {
    if fields != [] {
      NonEmptyOnesAmong(Init(fields));
    }
  }

  /** A text is its own only word exactly if there is something to it and no white space. */
  lemma IsOneWord(s: string)
    ensures Words(s) == [s] <==> s != "" && WithoutSpace(s)
  {
    FieldsHaveNoSpace(s);
    NonEmptyOnesAmong(Fields(s));
    if WithoutSpace(s) {
      OneField(s);
    }
    if Words(s) == [s] {
      assert s in Words(s);
    }
  }
}
