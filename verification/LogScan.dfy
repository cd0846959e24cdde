/** The incremental scanner: per-inode cursors, chunked reads, one transaction per chunk
    (src/nginx_stats.rs:290-391). */
module LogScan {
  import opened Text
  import opened LogLines
  import opened LogStats
  import opened Tables
  import opened TopPaths

  type Identity = string

  /** A row of nginx_log_cursors. */
  datatype Cursor = Cursor(offset: nat, pending: seq<Byte>)

  const CHUNK: nat := 8 * 1024 * 1024

  /** The bytes read so far from each generation of a file: a generation ends when the file shrinks. */
  type Generations = seq<seq<Byte>>

  function Current(gens: Generations): seq<Byte>
  {
    if gens == [] then [] else Last(gens)
  }

  /** All complete lines of all generations, oldest first. */
  function LinesOf(gens: Generations): seq<Line>
  {
    if gens == [] then [] else LinesOf(Init(gens)) + CompleteLines(Last(gens))
  }

  /** Generations after a poll that saw `length` as the size of the file, then read it up to `end`. */
  function Polled(gens: Generations, length: nat, content: seq<Byte>, end: nat): Generations
    requires Readable(gens, length, content, end)
  {
    var start := Start(gens, length);
    if end == start then gens
    else if gens == [] || start != |Current(gens)| then gens + [content[..end]]
    else Init(gens) + [Current(gens) + content[start..end]]
  }

  /** Reading starts where the cursor stands and may come to any place up to the end; a file that shrank since its
      size was taken gives nothing. */
  predicate Readable(gens: Generations, length: nat, content: seq<Byte>, end: nat)
  {
    Start(gens, length) == end || Start(gens, length) <= end <= |content|
  }

  function Start(gens: Generations, length: nat): nat
  {
    if length < |Current(gens)| then 0 else |Current(gens)|
  }

  /** Where a complete poll ends: a file that has become shorter than the cursor's place gives nothing. */
  function EndOf(gens: Generations, length: nat, content: seq<Byte>): nat
  {
    if Start(gens, length) <= |content| then |content| else Start(gens, length)
  }

  /** After a complete poll the bytes behind the cursor are the file itself if and only if the file
      still begins with what was read before, or shrank to something that is not empty. */
  lemma PollIsFaithful(gens: Generations, length: nat, content: seq<Byte>)
    ensures Current(Polled(gens, length, content, EndOf(gens, length, content))) == content
       <==> if length < |Current(gens)| then content != [] else Current(gens) <= content
  {
    var g := Current(gens);
    if |g| <= length && |g| <= |content| {
      assert content == content[..|g|] + content[|g|..];
      assert g + content[|g|..] == content <==> g == content[..|g|];
    }
  }

  /** The exception is real: a log emptied in place is seen empty by one poll, nothing is recorded, and
      when it has grown past the old offset the next poll takes its middle for the rest of the old line. */
  lemma EmptiedFileIsMissed()
    ensures var polled := Polled([[65, 10]], 0, [], 0);
            && Current(polled) != []
            && Current(Polled(polled, 4, [66, 67, 68, 10], 4)) == [65, 10, 68, 10]
  {
    assert Init([[65, 10]]) == [];
    assert [66, 67, 68, 10][2..4] == [68, 10];
  }

  function Tagged(id: Identity, lines: seq<Line>): seq<(Identity, Line)>
  {
    seq(|lines|, i requires 0 <= i < |lines| => (id, lines[i]))
  }

  function Untagged(log: seq<(Identity, Line)>): seq<Line>
  {
    seq(|log|, i requires 0 <= i < |log| => log[i].1)
  }

  /** The lines that came from one file. */
  function From(id: Identity, log: seq<(Identity, Line)>): seq<Line>
  {
    if log == [] then []
    else From(id, Init(log)) + if Last(log).0 == id then [Last(log).1] else []
  }

  function FromOthers(id: Identity, log: seq<(Identity, Line)>): seq<Line>
  {
    if log == [] then []
    else FromOthers(id, Init(log)) + if Last(log).0 != id then [Last(log).1] else []
  }

  lemma {:induction false} FromTagged(id: Identity, log: seq<(Identity, Line)>, source: Identity, lines: seq<Line>)
    ensures From(id, log + Tagged(source, lines)) == From(id, log) + if id == source then lines else []
  {
    if lines == [] {
      assert log + Tagged(source, lines) == log;
    } else {
      var whole := log + Tagged(source, lines);
      assert Init(whole) == log + Tagged(source, Init(lines));
      FromTagged(id, log, source, Init(lines));
      assert lines == Init(lines) + [Last(lines)];
    }
  }

  lemma UntaggedConcat(log: seq<(Identity, Line)>, id: Identity, lines: seq<Line>)
    ensures Untagged(log + Tagged(id, lines)) == Untagged(log) + lines
  {
  }

  /** The statistics of a log are the statistics of one file plus those of all the others. */
  lemma {:induction false} FilesAddUp(parse: Line -> Option<Event>, id: Identity, log: seq<(Identity, Line)>)
    ensures Fold(parse, Untagged(log)) == MergeTables(Fold(parse, From(id, log)), Fold(parse, FromOthers(id, log)))
  {
    if log == [] {
      MergeTablesEmpty(map[]);
    } else {
      var before, line := Init(log), Last(log).1;
      var mine, theirs := From(id, before), FromOthers(id, before);
      var t, u := Fold(parse, mine), Fold(parse, theirs);
      FilesAddUp(parse, id, before);
      assert Untagged(log) == Untagged(before) + [line];
      FoldSnoc(parse, Untagged(before), line);
      if Last(log).0 == id {
        assert theirs + [] == theirs;
        FoldSnoc(parse, mine, line);
        MergeTablesCommutes(t, u);
        MergeTablesCountLine(parse, u, t, line);
        MergeTablesCommutes(u, CountLine(parse, t, line));
      } else {
        assert mine + [] == mine;
        FoldSnoc(parse, theirs, line);
        MergeTablesCountLine(parse, t, u, line);
      }
    }
  }

  /** One more chunk of the current generation adds exactly the lines cut from the carried tail and the chunk. */
  lemma ChunkAddsLines(earlier: Generations, base: seq<Byte>, chunk: seq<Byte>)
    ensures LinesOf(earlier + [base + chunk]) == LinesOf(earlier + [base]) + CompleteLines(Unfinished(base) + chunk)
  {
    LinesResume(base, chunk);
    assert Init(earlier + [base + chunk]) == earlier == Init(earlier + [base]);
  }

  lemma EmptyGenerationAddsNothing(earlier: Generations)
    ensures LinesOf(earlier + [[]]) == LinesOf(earlier)
  {
    assert Init(earlier + [[]]) == earlier;
    NoLineYet([]);
  }

  /** Everything read once the poll has come to `offset`, the current generation last even if nothing of it was read. */
  function ReadUpTo(gens: Generations, length: nat, content: seq<Byte>, offset: nat): (all: Generations)
    requires Readable(gens, length, content, offset)
    ensures all != []
  {
    var start := Start(gens, length);
    if gens == [] || start != |Current(gens)| then gens + [content[..offset]]
    else if offset == start then gens
    else Init(gens) + [Current(gens) + content[start..offset]]
  }

  /** At the start of a poll nothing is pending but the tail of a generation that goes on. */
  lemma PollBegins(gens: Generations, length: nat, content: seq<Byte>)
    ensures var all := ReadUpTo(gens, length, content, Start(gens, length));
            && LinesOf(all) == LinesOf(gens)
            && Unfinished(Current(all)) == if length < |Current(gens)| then [] else Unfinished(Current(gens))
  {
    NoLineYet([]);
    EmptyGenerationAddsNothing(gens);
    var start := Start(gens, length);
    if gens == [] || start != |Current(gens)| {
      assert content[..start] == [];
    }
  }

  lemma ReadExtends(gens: Generations, length: nat, content: seq<Byte>, offset: nat, next: nat)
    requires Start(gens, length) <= offset < next <= |content|
    ensures var before := ReadUpTo(gens, length, content, offset);
      && |Current(before)| == offset
      && ReadUpTo(gens, length, content, next) == Init(before) + [Current(before) + content[offset..next]]
  {
    var start := Start(gens, length);
    assert content[..offset] + content[offset..next] == content[..next];
    if gens != [] && start == |Current(gens)| {
      var g := Current(gens);
      assert (g + content[start..offset]) + content[offset..next] == g + content[start..next];
      assert g + content[offset..offset] == g;
    }
  }

  /** One more read continues the current generation. */
  lemma PollGoesOn(gens: Generations, length: nat, content: seq<Byte>, offset: nat, next: nat)
    requires Start(gens, length) <= offset < next <= |content|
    ensures var before, after, chunk := ReadUpTo(gens, length, content, offset), ReadUpTo(gens, length, content, next), content[offset..next];
      && |Current(before)| == offset && |Current(after)| == next
      && Unfinished(Unfinished(Current(before)) + chunk) == Unfinished(Current(after))
      && LinesOf(after) == LinesOf(before) + CompleteLines(Unfinished(Current(before)) + chunk)
  {
    var before, chunk := ReadUpTo(gens, length, content, offset), content[offset..next];
    ReadExtends(gens, length, content, offset, next);
    LinesResume(Current(before), chunk);
    ChunkAddsLines(Init(before), Current(before), chunk);
    assert before == Init(before) + [Current(before)];
  }

  lemma PolledIsReadUpTo(gens: Generations, length: nat, content: seq<Byte>, end: nat)
    requires Readable(gens, length, content, end)
    ensures Polled(gens, length, content, end) == if end == Start(gens, length) then gens else ReadUpTo(gens, length, content, end)
  {
  }

  function GenerationsOf(readings: map<Identity, Generations>, id: Identity): Generations
  {
    if id in readings then readings[id] else []
  }

  lemma UpdateTwice<K, V>(m: map<K, V>, key: K, a: V, b: V)
    ensures m[key := a][key := b] == m[key := b]
  {
  }

  ghost predicate SameForOthers(before: map<Identity, Generations>, after: map<Identity, Generations>, id: Identity)
  {
    forall other | other != id :: GenerationsOf(after, other) == GenerationsOf(before, other)
  }

  function CursorFor(gens: Generations): Cursor
  {
    Cursor(|Current(gens)|, Unfinished(Current(gens)))
  }

  ghost predicate CursorsMatch(cursors: map<Identity, Cursor>, readings: map<Identity, Generations>)
  {
    cursors.Keys == readings.Keys
    && forall id | id in cursors :: readings[id] != [] && cursors[id] == CursorFor(readings[id])
  }

  predicate FileMatches(log: seq<(Identity, Line)>, readings: map<Identity, Generations>, id: Identity)
  {
    From(id, log) == LinesOf(GenerationsOf(readings, id))
  }

  ghost predicate LogMatches(log: seq<(Identity, Line)>, readings: map<Identity, Generations>)
  {
    forall id :: FileMatches(log, readings, id)
  }

  /** A committed chunk extends the report by exactly its lines. */
  lemma ReportGrows(parse: Line -> Option<Event>, before: Table, log: seq<(Identity, Line)>, id: Identity, added: seq<Line>)
    requires Reports(before, Fold(parse, Untagged(log)))
    ensures Reports(Persist(before, Fold(parse, added)), Fold(parse, Untagged(log + Tagged(id, added))))
  {
    PersistReports(before, Fold(parse, Untagged(log)), Fold(parse, added));
    FoldConcat(parse, Untagged(log), added);
    UntaggedConcat(log, id, added);
  }

  lemma LogGrows(log: seq<(Identity, Line)>, readings: map<Identity, Generations>, id: Identity, gens: Generations, added: seq<Line>)
    requires LogMatches(log, readings) && LinesOf(gens) == From(id, log) + added
    ensures LogMatches(log + Tagged(id, added), readings[id := gens])
  {
    var longer, more := log + Tagged(id, added), readings[id := gens];
    forall other ensures FileMatches(longer, more, other) {
      assert FileMatches(log, readings, other);
      FromTagged(other, log, id, added);
      assert From(other, log) + [] == From(other, log);
    }
  }

  lemma CursorsGrow(cursors: map<Identity, Cursor>, readings: map<Identity, Generations>, id: Identity, gens: Generations)
    requires CursorsMatch(cursors, readings) && gens != []
    ensures CursorsMatch(cursors[id := CursorFor(gens)], readings[id := gens])
  {
  }

  /** What is stored as pending is a line that has not ended. */
  lemma TailsHaveNoNewline(cursors: map<Identity, Cursor>, readings: map<Identity, Generations>)
    requires CursorsMatch(cursors, readings)
    ensures forall id | id in cursors :: NEWLINE !in cursors[id].pending
  {
    forall id | id in cursors ensures NEWLINE !in cursors[id].pending {
      UnfinishedHasNoNewline(Current(readings[id]));
    }
  }

  /** The statistics tables and the cursor table, with a record of everything behind the cursors. */
  class StatsDb {
    const parse: Line -> Option<Event>
    var tables: Table
    var cursors: map<Identity, Cursor>
    ghost var readings: map<Identity, Generations>
    ghost var log: seq<(Identity, Line)>

    /** The stored statistics report the one-shot count of all lines behind the cursors, and every cursor
        stands at the end of what was read of the file's current generation. */
    ghost predicate Valid()
      reads this
    {
      && Reports(tables, Fold(parse, Untagged(log)))
      && LogMatches(log, readings)
      && CursorsMatch(cursors, readings)
    }

    constructor (parse: Line -> Option<Event>)
      ensures Valid() && this.parse == parse && log == [] && readings == map[]
    {
      this.parse := parse;
      tables, cursors := map[], map[];
      readings, log := map[], [];
    }

    /** So no stored tail holds a line end, at any time. */
    lemma StoredTails()
      requires Valid()
      ensures forall id | id in cursors :: NEWLINE !in cursors[id].pending
    {
      TailsHaveNoNewline(cursors, readings);
    }

    /** The loop over the lines of one batch. */
    method Aggregate(text: seq<Byte>) returns (aggs: Table)
      ensures aggs == Fold(parse, NonEmpty(Split(text, NEWLINE)))
    {
      var pieces := Split(text, NEWLINE);
      aggs := map[];
      for i := 0 to |pieces|
        invariant aggs == Fold(parse, NonEmpty(pieces[..i]))
      {
        var raw := pieces[i];
        ghost var before := NonEmpty(pieces[..i]);
        NonEmptySnoc(pieces, i);
        if raw != [] {
          FoldSnoc(parse, before, raw);
          match parse(raw) {
            case Some(e) => aggs := Count(aggs, e);
            case None =>
          }
        }
      }
      assert pieces[..|pieces|] == pieces;
    }

    /** The upserts of one bucket and the deletion of its surplus paths. */
    static method PersistRow(stored: Agg, batch: Agg) returns (row: Agg)
      ensures row == MergeAndPrune(stored, batch)
    {
      row := Merge(stored, batch);
      var paths := DeleteOutranked(row.paths);
      row := row.(paths := paths);
    }

    /** The statements of one transaction, bucket after bucket in no particular order. */
    method Draft(aggs: Table) returns (draft: Table)
      ensures draft == Persist(tables, aggs)
    {
      var todo := aggs.Keys;
      draft := tables;
      UpsertNothing(tables, aggs, MergeAndPrune, EMPTY);
      while todo != {}
        invariant todo <= aggs.Keys && draft == Persist(tables, aggs - todo)
        decreases |todo|
      {
        var bucket :| bucket in todo;
        UpsertOneMore(tables, aggs, MergeAndPrune, EMPTY, todo, bucket);
        var row := PersistRow(At(draft, bucket, EMPTY), aggs[bucket]);
        draft := draft[bucket := row];
        todo := todo - {bucket};
      }
      assert aggs - {} == aggs;
    }

    /** The commit, seen together with what it makes of the record. */
    method Commit(draft: Table, id: Identity, cursor: Cursor, ghost gens: Generations, ghost lines: seq<Line>)
      requires Valid() && gens != [] && cursor == CursorFor(gens)
      requires draft == Persist(tables, Fold(parse, lines)) && LinesOf(gens) == From(id, log) + lines
      modifies this
      ensures Valid()
      ensures tables == draft && cursors == old(cursors)[id := cursor]
      ensures readings == old(readings)[id := gens] && log == old(log) + Tagged(id, lines)
    {
      ghost var longer, more := log + Tagged(id, lines), readings[id := gens];
      assert Reports(draft, Fold(parse, Untagged(longer))) by {
        ReportGrows(parse, tables, log, id, lines);
      }
      assert LogMatches(longer, more) by {
        LogGrows(log, readings, id, gens, lines);
      }
      assert CursorsMatch(cursors[id := cursor], more) by {
        CursorsGrow(cursors, readings, id, gens);
      }
      tables, cursors, readings, log := draft, cursors[id := cursor], more, longer;
    }

    /** One transaction: all statements and the cursor, or, when it does not commit, nothing. The batch counts
        `lines`, the ones by which `gens` goes beyond what the log has of this file. */
    method PersistBatch(id: Identity, offset: nat, pending: seq<Byte>, aggs: Table, ghost gens: Generations, ghost lines: seq<Line>)
      returns (committed: bool)
      requires Valid() && gens != [] && Cursor(offset, pending) == CursorFor(gens)
      requires aggs == Fold(parse, lines) && LinesOf(gens) == From(id, log) + lines
      modifies this
      ensures Valid()
      ensures committed ==> tables == Persist(old(tables), aggs) && cursors == old(cursors)[id := Cursor(offset, pending)]
      ensures committed ==> readings == old(readings)[id := gens] && log == old(log) + Tagged(id, lines)
      ensures !committed ==> tables == old(tables) && cursors == old(cursors) && readings == old(readings) && log == old(log)
    {
      var draft := Draft(aggs);
      committed := *;
      if committed {
        Commit(draft, id, Cursor(offset, pending), gens, lines);
      }
    }

    /** The newline search of one iteration: what to aggregate and what to carry over. */
    method Cut(buffer: seq<Byte>) returns (pending: seq<Byte>, aggs: Table)
      ensures pending == Unfinished(buffer) && aggs == Fold(parse, CompleteLines(buffer))
    {
      match LastNewline(buffer) {
        case None =>
          NoLineYet(buffer);
          pending, aggs := buffer, map[];
        case Some(at) =>
          CutAtLastNewline(buffer, at + 1);
          pending := buffer[at + 1..];
          aggs := Aggregate(buffer[..at + 1]);
      }
    }

    /** One committed or abandoned chunk; `gens` is what will have been read of this file once it commits. */
    method Ingest(id: Identity, offset: nat, pending: seq<Byte>, chunk: seq<Byte>, ghost gens: Generations)
      returns (committed: bool, rest: seq<Byte>)
      requires Valid() && gens != [] && offset == |Current(gens)|
      requires Unfinished(pending + chunk) == Unfinished(Current(gens))
      requires LinesOf(gens) == From(id, log) + CompleteLines(pending + chunk)
      modifies this
      ensures Valid() && rest == Unfinished(Current(gens))
      ensures readings == if committed then old(readings)[id := gens] else old(readings)
      ensures committed ==> From(id, log) == LinesOf(gens)
    {
      var aggs;
      rest, aggs := Cut(pending + chunk);
      ghost var lines := CompleteLines(pending + chunk);
      FromTagged(id, log, id, lines);
      committed := PersistBatch(id, offset, rest, aggs, gens, lines);
    }

    /** The read loop. Reads return any number of bytes up to the buffer size, and the scanner may die at
        any commit; `ok` tells that it did not. */
    method ReadToEnd(id: Identity, ghost gens: Generations, ghost length: nat, content: seq<Byte>, start: nat, carried: seq<Byte>)
      returns (ok: bool, ghost end: nat)
      requires Valid() && gens == GenerationsOf(readings, id) && start == Start(gens, length)
      requires carried == Unfinished(Current(ReadUpTo(gens, length, content, start)))
      requires From(id, log) == LinesOf(ReadUpTo(gens, length, content, start))
      modifies this
      ensures Valid() && Readable(gens, length, content, end) && (ok ==> end >= |content|)
      ensures readings == if end == start then old(readings) else old(readings)[id := ReadUpTo(gens, length, content, end)]
    {
      var offset, pending := start, carried;
      ok, end := true, start;
      while offset < |content|
        invariant Readable(gens, length, content, offset) && ok && end == offset && Valid()
        invariant pending == Unfinished(Current(ReadUpTo(gens, length, content, offset)))
        invariant From(id, log) == LinesOf(ReadUpTo(gens, length, content, offset))
        invariant readings == if offset == start then old(readings) else old(readings)[id := ReadUpTo(gens, length, content, offset)]
      {
        var read :| 0 < read <= |content| - offset && read <= CHUNK;
        var next := offset + read;
        PollGoesOn(gens, length, content, offset, next);
        ghost var after := ReadUpTo(gens, length, content, next);
        UpdateTwice(old(readings), id, ReadUpTo(gens, length, content, offset), after);
        ok, pending := Ingest(id, next, pending, content[offset..next], after);
        if !ok {
          return;
        }
        offset, end := next, next;
      }
    }

    /** The cursor of a file, started over if the file has shrunk. */
    method StartAt(id: Identity, length: nat, ghost content: seq<Byte>) returns (offset: nat, pending: seq<Byte>)
      requires Valid()
      ensures var gens := GenerationsOf(readings, id);
        && offset == Start(gens, length)
        && pending == Unfinished(Current(ReadUpTo(gens, length, content, offset)))
        && From(id, log) == LinesOf(ReadUpTo(gens, length, content, offset))
    {
      offset, pending := 0, [];
      if id in cursors {
        offset, pending := cursors[id].offset, cursors[id].pending;
      }
      if length < offset {
        offset, pending := 0, [];
      }
      assert FileMatches(log, readings, id);
      NoLineYet([]);
      PollBegins(GenerationsOf(readings, id), length, content);
    }

    /** A poll of one file: `length` is its size from the metadata call, `content` what reading it yields
        (it may have grown or shrunk meanwhile). */
    method ScanFile(id: Identity, length: nat, content: seq<Byte>) returns (ok: bool, ghost end: nat)
      requires Valid()
      modifies this
      ensures Valid()
      ensures Readable(old(GenerationsOf(readings, id)), length, content, end) && (ok ==> end >= |content|)
      ensures GenerationsOf(readings, id) == Polled(old(GenerationsOf(readings, id)), length, content, end)
      ensures SameForOthers(old(readings), readings, id)
    {
      ghost var gens := GenerationsOf(readings, id);
      var offset, pending := StartAt(id, length, content);
      ok, end := ReadToEnd(id, gens, length, content, offset, pending);
      PolledIsReadUpTo(gens, length, content, end);
    }
  }
}
