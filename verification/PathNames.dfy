/** Collapsing high-cardinality request paths (src/nginx_stats.rs:552-604).
    A string stands for its UTF-8 bytes: every separator and character class the code looks at is ASCII. */
module PathNames {
  import opened Text

  const LIMIT: nat := 512
  const TILE_PREFIX := "/ib/api/v1/map3/"
  const TILE := "/ib/api/v1/map3/:tile"
  const INVALID := "/invalid-request"
  const OVERSIZED := "/oversized-path"

  predicate Digits(s: string)
  {
    forall c | c in s :: '0' <= c <= '9'
  }

  predicate IsHex(c: char)
  {
    '0' <= c <= '9' || 'a' <= c <= 'f' || 'A' <= c <= 'F'
  }

  predicate HexDigits(s: string)
  {
    forall c | c in s :: IsHex(c)
  }

  /** Where the first dot is, or the length if there is none. */
  function FirstDot(s: string): (i: nat)
    ensures i <= |s| && '.' !in s[..i] && (i < |s| ==> s[i] == '.')
  {
    if s == "" || s[0] == '.' then 0
    else
      var i := 1 + FirstDot(s[1..]);
      assert s[..i] == [s[0]] + s[1..][..i - 1];
      i
  }

  function WithoutDashes(s: string): (compact: string)
    ensures |compact| <= |s|
  {
    if s == "" then "" else (if s[0] == '-' then "" else [s[0]]) + WithoutDashes(s[1..])
  }

  function WithSuffix(mark: string, segment: string, dot: nat): string
    requires dot <= |segment|
  {
    if dot < |segment| then mark + "." + segment[dot + 1..] else mark
  }

  predicate CommaSeparatedDigits(s: string)
  {
    ',' in s && forall part | part in Split(s, ',') :: part != "" && Digits(part)
  }

  function NormalizeSegment(segment: string): string
  {
    if segment == "" then ""
    else if Digits(segment) then ":id"
    else if CommaSeparatedDigits(segment) then ":ids"
    else
      var dot := FirstDot(segment);
      var stem := segment[..dot];
      if Digits(stem) then WithSuffix(":id", segment, dot)
      else
        var compact := WithoutDashes(stem);
        if |compact| >= 16 && HexDigits(compact) then WithSuffix(":hash", segment, dot)
        else segment
  }

  /** A rewriting of single segments. */
  type Rewriter = string -> string

  function RewriteAll(f: Rewriter, segments: seq<string>): (rewritten: seq<string>)
    ensures |rewritten| == |segments|
    ensures forall i | 0 <= i < |segments| :: rewritten[i] == f(segments[i])
  {
    seq(|segments|, i requires 0 <= i < |segments| => f(segments[i]))
  }

  function Rewritten(f: Rewriter, path: string): string
  {
    Join(RewriteAll(f, Split(path, '/')), '/')
  }

  /** What the rewriting loop comes to: all segments are rewritten, and a long result is dropped. */
  function NormalizePath(path: string): string
  {
    if !("/" <= path) then INVALID
    else if TILE_PREFIX <= path then TILE
    else
      var normal := Rewritten(NormalizeSegment, path);
      if |normal| >= LIMIT then OVERSIZED else normal
  }

  lemma {:induction false} FirstPiece(s: string, sep: char)
    requires s != "" && s[0] != sep
    ensures Split(s, sep)[0] != "" && Split(s, sep)[0][0] == s[0]
  {
    if |s| > 1 {
      FirstPiece(Init(s), sep);
    } else {
      assert Init(s) == "";
    }
  }

  predicate Marked(s: string)
  {
    s != "" && s[0] == ':'
  }

  lemma MarkedIsNoList(s: string)
    requires Marked(s)
    ensures !Digits(s) && !CommaSeparatedDigits(s)
  {
    assert ':' in s;
    FirstPiece(s, ',');
    var first := Split(s, ',')[0];
    assert first in Split(s, ',') && ':' in first;
  }

  /** A segment that starts like a mark and has no long stem is left alone. */
  lemma MarkedIsFixed(s: string)
    requires Marked(s) && 0 < FirstDot(s) < 16
    ensures NormalizeSegment(s) == s
  {
    MarkedIsNoList(s);
    var stem := s[..FirstDot(s)];
    assert stem[0] in stem && stem[0] == ':';
    assert !Digits(stem) && |WithoutDashes(stem)| < 16;
  }

  lemma {:induction false} FirstDotIs(s: string, i: nat)
    requires i <= |s| && '.' !in s[..i] && (i < |s| ==> s[i] == '.')
    ensures FirstDot(s) == i
  {
    if i > 0 {
      assert s[..i][0] == s[0] && s[1..][..i - 1] == s[..i][1..];
      FirstDotIs(s[1..], i - 1);
    }
  }

  lemma SuffixKeepsStem(mark: string, segment: string, dot: nat)
    requires dot <= |segment| && '.' !in mark
    ensures FirstDot(WithSuffix(mark, segment, dot)) == |mark|
  {
    assert WithSuffix(mark, segment, dot)[..|mark|] == mark;
    FirstDotIs(WithSuffix(mark, segment, dot), |mark|);
  }

  /** A rewritten segment is a fixed point; a segment is either left alone or starts with a colon. */
  lemma SegmentIsFixed(segment: string)
    ensures NormalizeSegment(NormalizeSegment(segment)) == NormalizeSegment(segment)
    ensures NormalizeSegment(segment) == segment || Marked(NormalizeSegment(segment))
  {
    var dot, normal := FirstDot(segment), NormalizeSegment(segment);
    if normal != segment {
      if normal == ":id" || normal == ":ids" {
        FirstDotIs(normal, |normal|);
      } else {
        SuffixKeepsStem(":id", segment, dot);
        SuffixKeepsStem(":hash", segment, dot);
      }
      MarkedIsFixed(normal);
    }
  }

  /** What counts as an identifier, apart from how the code looks for it. */
  predicate IsNumber(s: string)
  {
    s != "" && Digits(s)
  }

  predicate IsNumberList(s: string)
  {
    |Split(s, ',')| > 1 && forall part | part in Split(s, ',') :: IsNumber(part)
  }

  /** How many characters are hexadecimal digits. */
  function HexCount(s: string): nat
  {
    if s == "" then 0 else (if IsHex(s[0]) then 1 else 0) + HexCount(s[1..])
  }

  /** A UUID, a digest or the like: hexadecimal digits, at least 16, with or without dashes. */
  predicate IsHash(s: string)
  {
    HexCount(s) >= 16 && forall c | c in s :: c == '-' || IsHex(c)
  }

  /** `stem` is what comes before the first dot. */
  predicate HasStem(segment: string, stem: string)
  {
    stem <= segment && '.' !in stem && (|stem| == |segment| || segment[|stem|] == '.')
  }

  ghost predicate IsIdentifier(segment: string)
  {
    IsNumberList(segment) || exists stem :: HasStem(segment, stem) && (IsNumber(stem) || IsHash(stem))
  }

  lemma StemIsFirst(segment: string, stem: string)
    requires HasStem(segment, stem)
    ensures stem == segment[..FirstDot(segment)]
  {
    FirstDotIs(segment, |stem|);
  }

  lemma FirstDotIsStem(segment: string)
    ensures HasStem(segment, segment[..FirstDot(segment)])
  {
  }

  lemma {:induction false} HashWithoutDashes(s: string)
    ensures IsHash(s) <==> |WithoutDashes(s)| >= 16 && HexDigits(WithoutDashes(s))
  {
    DashesAndHex(s);
  }

  lemma {:induction false} DashesAndHex(s: string)
    ensures HexDigits(WithoutDashes(s)) <==> forall c | c in s :: c == '-' || IsHex(c)
    ensures HexDigits(WithoutDashes(s)) ==> |WithoutDashes(s)| == HexCount(s)
  {
    if s != "" {
      DashesAndHex(s[1..]);
      var rest := WithoutDashes(s[1..]);
      assert s == [s[0]] + s[1..];
      if s[0] == '-' {
        assert WithoutDashes(s) == rest && !IsHex(s[0]);
      } else {
        assert WithoutDashes(s) == [s[0]] + rest;
        assert s[0] in [s[0]] + rest && forall c | c in rest :: c in [s[0]] + rest;
      }
    }
  }

  lemma {:induction false} CommaMeansParts(s: string)
    ensures ',' in s <==> |Split(s, ',')| > 1
  {
    if s != "" {
      CommaMeansParts(Init(s));
      assert s == Init(s) + [Last(s)];
    }
  }

  predicate StartsWithDot(segment: string)
  {
    segment != "" && segment[0] == '.'
  }

  lemma IdentifierByGuards(segment: string)
    ensures var stem := segment[..FirstDot(segment)];
      IsIdentifier(segment) <==> CommaSeparatedDigits(segment) || IsNumber(stem) || IsHash(stem)
  {
    var stem := segment[..FirstDot(segment)];
    FirstDotIsStem(segment);
    CommaMeansParts(segment);
    forall other | HasStem(segment, other) ensures other == stem {
      StemIsFirst(segment, other);
    }
  }

  lemma MarkedIsNoIdentifier(segment: string)
    requires Marked(segment)
    ensures !IsIdentifier(segment) && !StartsWithDot(segment)
  {
    var stem := segment[..FirstDot(segment)];
    IdentifierByGuards(segment);
    assert stem[0] == ':' && stem[0] in stem;
    assert !IsHex(stem[0]);
    MarkedIsNoList(segment);
  }

  lemma DigitsHaveNoDot(s: string)
    requires Digits(s)
    ensures FirstDot(s) == |s| && s[..|s|] == s
  {
    assert s[..|s|] == s;
    FirstDotIs(s, |s|);
  }

  /** Identifiers are collapsed, and so is every name that starts with a dot; nothing else is touched. */
  lemma WhatCollapses(segment: string)
    ensures NormalizeSegment(segment) != segment <==> IsIdentifier(segment) || StartsWithDot(segment)
  {
    var dot := FirstDot(segment);
    var stem := segment[..dot];
    IdentifierByGuards(segment);
    HashWithoutDashes(stem);
    if Digits(segment) {
      DigitsHaveNoDot(segment);
    }
    if Marked(segment) {
      MarkedIsNoIdentifier(segment);
    }
  }

  /** What each kind becomes. */
  lemma ListBecomes(segment: string)
    requires IsNumberList(segment)
    ensures NormalizeSegment(segment) == ":ids"
  {
    CommaMeansParts(segment);
  }

  lemma SuffixFollows(mark: string, segment: string, stem: string)
    requires HasStem(segment, stem)
    ensures FirstDot(segment) == |stem| && WithSuffix(mark, segment, |stem|) == mark + segment[|stem|..]
  {
    StemIsFirst(segment, stem);
    var rest := segment[|stem|..];
    if rest != "" {
      assert rest == "." + segment[|stem| + 1..];
    }
  }

  lemma NumberBecomes(segment: string, stem: string)
    requires HasStem(segment, stem) && IsNumber(stem)
    ensures NormalizeSegment(segment) == ":id" + segment[|stem|..]
  {
    SuffixFollows(":id", segment, stem);
    StemIsFirst(segment, stem);
    if Digits(segment) {
      DigitsHaveNoDot(segment);
    } else {
      StemOfList(segment, stem);
    }
  }

  lemma HashBecomes(segment: string, stem: string)
    requires HasStem(segment, stem) && IsHash(stem) && !Digits(stem) && !IsNumberList(segment)
    ensures NormalizeSegment(segment) == ":hash" + segment[|stem|..]
  {
    SuffixFollows(":hash", segment, stem);
    StemIsFirst(segment, stem);
    CommaMeansParts(segment);
    HashWithoutDashes(stem);
    if Digits(segment) {
      DigitsHaveNoDot(segment);
    }
  }

  /** A name that starts with a dot, such as ".env", has an empty stem, which passes for a number. */
  lemma DotNameBecomes(segment: string)
    requires StartsWithDot(segment)
    ensures NormalizeSegment(segment) == ":id" + segment
  {
    assert HasStem(segment, "");
    SuffixFollows(":id", segment, "");
    FirstPiece(segment, ',');
    var first := Split(segment, ',')[0];
    assert first in Split(segment, ',') && first[0] in first;
    assert segment[0] in segment;
  }

  lemma StemOfList(segment: string, stem: string)
    requires HasStem(segment, stem) && IsNumber(stem)
    ensures !CommaSeparatedDigits(segment)
  {
    if |stem| < |segment| {
      assert segment[|stem|] in segment;
      DotMeansNoList(segment);
    } else {
      assert stem == segment;
    }
  }

  lemma DotMeansNoList(s: string)
    requires '.' in s
    ensures !CommaSeparatedDigits(s)
  {
    PiecesCover(s, '.', ',');
  }

  lemma {:induction false} PiecesCover(s: string, c: char, sep: char)
    requires c in s && c != sep
    ensures exists piece | piece in Split(s, sep) :: c in piece
  {
    var before := Split(Init(s), sep);
    assert s == Init(s) + [Last(s)];
    if Last(s) == c {
      assert c in Last(before) + [c] && Last(before) + [c] in Split(s, sep);
    } else {
      PiecesCover(Init(s), c, sep);
      var piece :| piece in before && c in piece;
      assert Last(s) == sep || piece in Init(before) || piece == Last(before);
      assert piece == Last(before) ==> c in Last(before) + [Last(s)];
    }
  }

  lemma SegmentHasNoSlash(segment: string)
    requires '/' !in segment
    ensures '/' !in NormalizeSegment(segment)
  {
  }

  /** What the path level needs to know of the segment level. */
  ghost predicate Stable(f: Rewriter)
  {
    && (forall s :: f(f(s)) == f(s))
    && (forall s :: '/' !in s ==> '/' !in f(s))
    && (forall s :: f(s) == s || Marked(f(s)))
  }

  lemma NormalizeSegmentIsStable()
    ensures Stable(NormalizeSegment)
  {
    forall s ensures NormalizeSegment(NormalizeSegment(s)) == NormalizeSegment(s)
             ensures NormalizeSegment(s) == s || Marked(NormalizeSegment(s))
    {
      SegmentIsFixed(s);
    }
    forall s | '/' !in s ensures '/' !in NormalizeSegment(s) {
      SegmentHasNoSlash(s);
    }
  }

  /** The segments of a rewritten path are the rewritten segments. */
  lemma SegmentsOfRewritten(f: Rewriter, path: string)
    requires Stable(f)
    ensures Split(Rewritten(f, path), '/') == RewriteAll(f, Split(path, '/'))
  {
    var segments := Split(path, '/');
    var rewritten := RewriteAll(f, segments);
    SplitPieces(path, '/');
    forall s | s in rewritten ensures '/' !in s {
      var i :| 0 <= i < |rewritten| && rewritten[i] == s;
      assert segments[i] in segments;
    }
    SplitJoin(rewritten, '/');
  }

  lemma {:induction false} JoinConcat(front: seq<string>, rest: seq<string>)
    requires front != [] && rest != []
    ensures Join(front + rest, '/') == Join(front, '/') + "/" + Join(rest, '/')
  {
    if |rest| == 1 {
      JoinSnoc(front, rest[0], '/');
      assert front + rest == front + [rest[0]];
    } else {
      JoinConcat(front, Init(rest));
      JoinSnoc(front + Init(rest), Last(rest), '/');
      assert front + rest == (front + Init(rest)) + [Last(rest)];
    }
  }

  const TILE_SEGMENTS := ["", "ib", "api", "v1", "map3"]

  lemma TileSegmentIsUnmarked(i: nat)
    requires i < 5
    ensures !Marked(TILE_SEGMENTS[i])
  {
    if i == 0 {
    } else if i == 1 {
      assert TILE_SEGMENTS[1] == "ib";
    } else if i == 2 {
      assert TILE_SEGMENTS[2] == "api";
    } else if i == 3 {
      assert TILE_SEGMENTS[3] == "v1";
    } else {
      assert TILE_SEGMENTS[4] == "map3";
    }
  }

  lemma TileSegmentsJoin()
    ensures Join(TILE_SEGMENTS, '/') + "/" == TILE_PREFIX
  {
    JoinLonger([""], "", "ib");
    JoinLonger([""] + ["ib"], "/ib", "api");
    JoinLonger([""] + ["ib"] + ["api"], "/ib/api", "v1");
    JoinLonger([""] + ["ib"] + ["api"] + ["v1"], "/ib/api/v1", "map3");
    assert [""] + ["ib"] + ["api"] + ["v1"] + ["map3"] == TILE_SEGMENTS;
  }

  lemma JoinLonger(front: seq<string>, text: string, piece: string)
    requires front != [] && Join(front, '/') == text
    ensures Join(front + [piece], '/') == text + "/" + piece
  {
    JoinSnoc(front, piece, '/');
  }

  lemma SegmentsGivePrefix(path: string, front: seq<string>)
    requires front != [] && |Split(path, '/')| > |front| && Split(path, '/')[..|front|] == front
    ensures Join(front, '/') + "/" <= path
  {
    var segments := Split(path, '/');
    JoinSplit(path, '/');
    JoinConcat(front, segments[|front|..]);
    assert segments == front + segments[|front|..];
  }

  lemma PrefixGivesSegments(path: string, front: seq<string>)
    requires front != [] && Join(front, '/') + "/" <= path && forall s | s in front :: '/' !in s
    ensures |Split(path, '/')| > |front| && Split(path, '/')[..|front|] == front
  {
    var text := Join(front, '/');
    var rest := path[|text| + 1..];
    assert path == (text + "/") + rest;
    SplitJoin(front, '/');
    SplitSnoc(text, '/', '/');
    SplitResumes(text + "/", rest, '/');
    assert Init(front + [""]) == front && "" + rest == rest;
    assert Split(path, '/') == front + Split(rest, '/');
  }

  /** The tile shortcut looks at whole segments. */
  lemma TileBySegments(path: string)
    ensures TILE_PREFIX <= path <==> |Split(path, '/')| > 5 && Split(path, '/')[..5] == TILE_SEGMENTS
  {
    TileSegmentsJoin();
    if |Split(path, '/')| > 5 && Split(path, '/')[..5] == TILE_SEGMENTS {
      SegmentsGivePrefix(path, TILE_SEGMENTS);
    }
    if TILE_PREFIX <= path {
      PrefixGivesSegments(path, TILE_SEGMENTS);
    }
  }

  /** Rewriting segments never creates the tile prefix. */
  lemma NoNewTile(f: Rewriter, path: string)
    requires Stable(f) && TILE_PREFIX <= Rewritten(f, path)
    ensures TILE_PREFIX <= path
  {
    SegmentsOfRewritten(f, path);
    TileBySegments(Rewritten(f, path));
    var segments := Split(path, '/');
    forall i | 0 <= i < 5 ensures segments[i] == TILE_SEGMENTS[i] {
      assert RewriteAll(f, segments)[i] == RewriteAll(f, segments)[..5][i];
      TileSegmentIsUnmarked(i);
    }
    assert segments[..5] == TILE_SEGMENTS;
    TileBySegments(path);
  }

  lemma SplitAfterSlash(rest: string)
    ensures Split("/" + rest, '/') == [""] + Split(rest, '/')
  {
    SplitSnoc("", '/', '/');
    SplitResumes("/", rest, '/');
    assert "" + ['/'] == "/" && "" + rest == rest;
    assert Split("/", '/') == [""] + [""] && Init([""] + [""]) == [""];
  }

  lemma RewrittenAfterSlash(f: Rewriter, rest: string)
    requires f("") == ""
    ensures Rewritten(f, "/" + rest) == "/" + Rewritten(f, rest)
  {
    SplitAfterSlash(rest);
    RewriteEmptyFirst(f, Split(rest, '/'));
    JoinConcat([""], RewriteAll(f, Split(rest, '/')));
    assert Join([""], '/') == "";
  }

  lemma RewriteEmptyFirst(f: Rewriter, segments: seq<string>)
    requires f("") == ""
    ensures RewriteAll(f, [""] + segments) == [""] + RewriteAll(f, segments)
  {
  }

  /** A path rewritten to something that is no tile path stays as it is. */
  lemma RewrittenIsStable(f: Rewriter, path: string)
    requires Stable(f) && f("") == "" && "/" <= path && !(TILE_PREFIX <= path)
    ensures var normal := Rewritten(f, path);
            "/" <= normal && !(TILE_PREFIX <= normal) && Rewritten(f, normal) == normal
  {
    var segments := Split(path, '/');
    SegmentsOfRewritten(f, path);
    assert RewriteAll(f, RewriteAll(f, segments)) == RewriteAll(f, segments);
    if TILE_PREFIX <= Rewritten(f, path) { NoNewTile(f, path); }
    assert path == "/" + path[1..];
    RewrittenAfterSlash(f, path[1..]);
  }

  predicate IsWord(name: string)
  {
    0 < |name| < 16 && 'a' <= name[0] <= 'z' && forall c | c in name :: c == '-' || 'a' <= c <= 'z'
  }

  lemma WordIsFixed(name: string)
    requires IsWord(name)
    ensures NormalizeSegment(name) == name && '/' !in name
  {
    assert name[0] in name && name[..|name|] == name;
    FirstDotIs(name, |name|);
  }

  lemma WordPathIsKept(f: Rewriter, path: string, name: string)
    requires f("") == "" && path == "/" + name && '/' !in name && f(name) == name
    ensures Rewritten(f, path) == path
  {
    SplitWithoutSeparator(name, '/');
    assert RewriteAll(f, [name]) == [name];
    RewrittenAfterSlash(f, name);
  }

  /** The two constants without a slash in them are left alone. */
  lemma ConstantIsKept(path: string)
    requires path == INVALID || path == OVERSIZED
    ensures Rewritten(NormalizeSegment, path) == path && !(TILE_PREFIX <= path)
  {
    ConstantIsWord(path);
    WordIsFixed(path[1..]);
    assert path == "/" + path[1..];
    WordPathIsKept(NormalizeSegment, path, path[1..]);
  }

  lemma ConstantIsWord(path: string)
    requires path == INVALID || path == OVERSIZED
    ensures IsWord(path[1..]) && path[0] == '/' && !(TILE_PREFIX <= path)
  {
    assert path[2] != TILE_PREFIX[2];
    forall c | c in path[1..] ensures c == '-' || 'a' <= c <= 'z' {
      var i :| 0 < i < |path| && path[i] == c;
    }
  }

  lemma KeptIsNormal(path: string)
    requires "/" <= path && !(TILE_PREFIX <= path) && Rewritten(NormalizeSegment, path) == path && |path| < LIMIT
    ensures NormalizePath(path) == path
  {
  }

  lemma TileIsNormal(path: string)
    requires path == TILE
    ensures NormalizePath(path) == path
  {
    assert path[..|TILE_PREFIX|] == TILE_PREFIX;
  }

  /** Normalising is idempotent, its result is always short, and it is a tile path only if the original was one. */
  lemma NormalizeIsIdempotent(path: string)
    ensures NormalizePath(NormalizePath(path)) == NormalizePath(path)
    ensures |NormalizePath(path)| < LIMIT
    ensures TILE_PREFIX <= NormalizePath(path) ==> TILE_PREFIX <= path
  {
    var normal := NormalizePath(path);
    if TILE_PREFIX <= path {
      TileIsNormal(normal);
    } else if normal == INVALID || normal == OVERSIZED {
      ConstantIsKept(normal);
      KeptIsNormal(normal);
    } else {
      NormalizeSegmentIsStable();
      RewrittenIsStable(NormalizeSegment, path);
      KeptIsNormal(normal);
    }
  }

  /** The rewriting loop, which gives up as soon as the result is too long. */
  method RewriteAfterSlash(f: Rewriter, segments: seq<string>) returns (normalized: string)
    ensures var whole := "/" + Join(RewriteAll(f, segments), '/');
      normalized == if |whole| >= LIMIT then OVERSIZED else whole
  {
    ghost var rewritten := RewriteAll(f, segments);
    normalized := "/";
    for index := 0 to |segments|
      invariant normalized == "/" + Join(rewritten[..index], '/') && |normalized| < LIMIT
    {
      JoinNext(rewritten, index);
      normalized := normalized + if index > 0 then "/" else "";
      normalized := normalized + f(segments[index]);
      if |normalized| >= LIMIT {
        JoinGrows(rewritten, index + 1);
        return OVERSIZED;
      }
    }
    assert rewritten[..|segments|] == rewritten;
  }

  /** The pieces of `normal` are those of `path`, rewritten one by one. */
  ghost predicate RewrittenPieces(path: string, normal: string)
  {
    var before, after := Split(path, '/'), Split(normal, '/');
    |after| == |before| && forall i | 0 <= i < |before| :: after[i] == NormalizeSegment(before[i])
  }

  /** There is one such text, so that it may well be called the rewritten path. */
  lemma RewrittenIsUnique(path: string, normal: string)
    ensures RewrittenPieces(path, normal) <==> normal == Rewritten(NormalizeSegment, path)
  {
    NormalizeSegmentIsStable();
    SegmentsOfRewritten(NormalizeSegment, path);
    if RewrittenPieces(path, normal) {
      assert Split(normal, '/') == Split(Rewritten(NormalizeSegment, path), '/');
      JoinSplit(normal, '/');
      JoinSplit(Rewritten(NormalizeSegment, path), '/');
    }
  }

  /** What a path becomes: a mark if it is no path or a tile's, else the text with the rewritten pieces, or a mark in
      its place if that is too long. */
  ghost predicate Becomes(path: string, normal: string)
  {
    && (path == "" || path[0] != '/' ==> normal == "/invalid-request")
    && ("/ib/api/v1/map3/" <= path ==> normal == "/ib/api/v1/map3/:tile")
    && (path != "" && path[0] == '/' && !("/ib/api/v1/map3/" <= path) ==> BecomesPieces(path, normal))
  }

  ghost predicate BecomesPieces(path: string, normal: string)
  {
    exists whole :: RewrittenPieces(path, whole) && normal == if |whole| < 512 then whole else "/oversized-path"
  }

  lemma WhatPathBecomes(path: string)
    ensures Becomes(path, NormalizePath(path))
  {
    var whole := Rewritten(NormalizeSegment, path);
    RewrittenIsUnique(path, whole);
    if "/" <= path && !(TILE_PREFIX <= path) {
      assert BecomesPieces(path, NormalizePath(path));
    }
  }

  lemma RewrittenTail(path: string)
    requires "/" <= path
    ensures "/" + Join(RewriteAll(NormalizeSegment, Split(path[1..], '/')), '/') == Rewritten(NormalizeSegment, path)
  {
    assert path == "/" + path[1..];
    RewrittenAfterSlash(NormalizeSegment, path[1..]);
  }

  method Normalize(path: string) returns (normalized: string)
    ensures normalized == NormalizePath(path) && Becomes(path, normalized)
  {
    WhatPathBecomes(path);
    if !("/" <= path) {
      return INVALID;
    }
    if TILE_PREFIX <= path {
      return TILE;
    }
    // Splitting at '/' and skipping the empty first piece leaves the pieces of what follows the first slash.
    RewrittenTail(path);
    normalized := RewriteAfterSlash(NormalizeSegment, Split(path[1..], '/'));
  }

  lemma JoinNext(pieces: seq<string>, n: nat)
    requires n < |pieces|
    ensures "/" + Join(pieces[..n + 1], '/') == "/" + Join(pieces[..n], '/') + (if n > 0 then "/" else "") + pieces[n]
  {
    assert pieces[..n + 1] == pieces[..n] + [pieces[n]];
    if n > 0 {
      JoinSnoc(pieces[..n], pieces[n], '/');
    }
  }

  lemma {:induction false} JoinGrows(pieces: seq<string>, n: nat)
    requires 0 < n <= |pieces|
    ensures |Join(pieces[..n], '/')| <= |Join(pieces, '/')|
  {
    if n == |pieces| {
      assert pieces[..n] == pieces;
    } else {
      JoinGrows(Init(pieces), n);
      assert Init(pieces)[..n] == pieces[..n];
    }
  }
}
