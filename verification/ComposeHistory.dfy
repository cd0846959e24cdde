/** Saving a Compose file: etag checks, installation and the revision history
    (src/api.rs:4176-4422; src/db.rs:450-500; src/paths.rs:208-215). */
module ComposeHistory {
  import opened Text
  import opened LogLines
  import opened Fingerprint
  import opened Versions

  type Content = seq<Byte>

  datatype Kind = Baseline | External | Saved | Restored
  datatype Revision = Revision(content: Content, etag: Etag, kind: Kind)

  /** 64-bit fingerprint and length, as the text form spells them out. */
  datatype Etag = Etag(fingerprint: Word, length: nat)

  function EtagOf(content: Content): Etag
  {
    Etag(Hash(OFFSET_BASIS, content), |content|)
  }

  /** A one-byte edit never goes unnoticed. */
  lemma OneByteEditChangesEtag(before: Content, b: Byte, c: Byte, after: Content)
    requires b != c
    ensures EtagOf(before + [b] + after) != EtagOf(before + [c] + after)
  {
    OneByteIsNoticed(before, b, c, after);
  }

  /** The history is kept right whatever function computes the etags. */
  type Tagging = Content -> Etag

  type Revisions = map<nat, Revision>

  /** The file on disk, if it exists, and the revisions by number. */
  datatype Doc = Doc(disk: Option<Content>, revs: Revisions)

  /** What is read from disk; a missing file counts as an empty text. */
  function TextOf(doc: Doc): Content
  {
    if doc.disk.Some? then doc.disk.value else []
  }

  ghost predicate Run(nos: set<nat>, n: nat)
  {
    forall k :: k in nos <==> 1 <= k <= n
  }

  ghost predicate Numbered<R>(table: map<nat, R>)
  {
    Run(table.Keys, |table|)
  }

  /** Revisions are only ever added. */
  ghost predicate Extends(old': Revisions, new': Revisions)
  {
    forall n | n in old' :: n in new' && new'[n] == old'[n]
  }

  /** Revision numbers are exactly 1..n, and every etag belongs to its content. */
  ghost predicate Valid(tag: Tagging, revs: Revisions)
  {
    && Numbered(revs)
    && (forall n | n in revs :: revs[n].etag == tag(revs[n].content))
  }

  function NextRevNo(revs: Revisions): nat
  {
    MaxOf(revs.Keys) + 1
  }

  function Latest(revs: Revisions): Option<Revision>
  {
    if revs == map[] then None else Some(revs[MaxOf(revs.Keys)])
  }

  ghost predicate Recorded(revs: Revisions, content: Content)
  {
    exists n | n in revs :: revs[n].content == content
  }

  function Record(tag: Tagging, revs: Revisions, content: Content, kind: Kind): Revisions
  {
    revs[NextRevNo(revs) := Revision(content, tag(content), kind)]
  }

  function SnapshotDiskIfNeeded(tag: Tagging, revs: Revisions, text: Content): Revisions
  {
    if text == [] then revs
    else
      match Latest(revs)
      case Some(r) => if r.etag == tag(text) then revs else Record(tag, revs, text, External)
      case None => Record(tag, revs, text, Baseline)
  }

  datatype Result = Invalid | Conflict | Unchanged | Refused | Died | Done

  /** What may happen while the new file is put in place and the history written. */
  datatype Installing = Works | FailsValidation | DiesAfterwards | DiesBetweenInserts

  /** One request. `seen` is the text at the check before the gate, `doc` the state once the gate is held. */
  function Save(tag: Tagging, doc: Doc, valid: bool, content: Content, kind: Kind, expected: Option<Etag>, seen: Content, how: Installing): (Doc, Result)
  {
    var text := TextOf(doc);
    if !valid then (doc, Invalid)
    else if expected.Some? && expected.value != tag(seen) then (doc, Conflict)
    else if expected.Some? && expected.value != tag(text) then (doc, Conflict)
    else if content == text then (doc.(revs := SnapshotDiskIfNeeded(tag, doc.revs, text)), Unchanged)
    else
      match how
      case FailsValidation => (doc, Refused)
      case DiesAfterwards => (doc.(disk := Some(content)), Died)
      case DiesBetweenInserts => (Doc(Some(content), SnapshotDiskIfNeeded(tag, doc.revs, text)), Died)
      case Works => (Doc(Some(content), Record(tag, SnapshotDiskIfNeeded(tag, doc.revs, text), content, kind)), Done)
  }

  predicate TurnedDown(result: Result)
  {
    result.Invalid? || result.Conflict? || result.Refused?
  }

  /** When each answer is given. `text` is what is on disk once the gate is held. */
  ghost predicate Answers(tag: Tagging, text: Content, valid: bool, content: Content, expected: Option<Etag>, seen: Content, how: Installing, result: Result)
  {
    var changed := expected.Some? && (expected.value != tag(seen) || expected.value != tag(text));
    && (result.Invalid? <==> !valid)
    && (result.Conflict? <==> valid && changed)
    && (result.Unchanged? <==> valid && !changed && content == text)
    && (result.Refused? <==> valid && !changed && content != text && how.FailsValidation?)
    && (result.Done? <==> valid && !changed && content != text && how.Works?)
    && (result.Died? <==> valid && !changed && content != text && (how.DiesAfterwards? || how.DiesBetweenInserts?))
  }

  /** What each answer leaves: whoever is turned down changes nothing, an unchanged text stays, and no other file is
      ever installed than the text of the request. */
  ghost predicate Leaves(before: Doc, content: Content, result: Result, after: Doc)
  {
    && (TurnedDown(result) ==> after.disk == before.disk && after.revs == before.revs)
    && (result.Unchanged? ==> after.disk == before.disk)
    && (result.Done? || result.Died? ==> after.disk == Some(content))
  }

  /** No check can be dropped, and a request that is turned down leaves no trace. */
  lemma SaveAnswers(tag: Tagging, doc: Doc, valid: bool, content: Content, kind: Kind, expected: Option<Etag>, seen: Content, how: Installing)
    ensures var (after, result) := Save(tag, doc, valid, content, kind, expected, seen, how);
      Answers(tag, TextOf(doc), valid, content, expected, seen, how, result) && Leaves(doc, content, result, after)
  {
  }

  lemma RunGrows(nos: set<nat>, n: nat)
    requires Run(nos, n)
    ensures MaxOf(nos) == n && n + 1 !in nos && Run(nos + {n + 1}, n + 1)
  {
    if n == 0 {
      assert nos == {};
    } else {
      assert n in nos;
    }
  }

  lemma RowAdded<R>(table: map<nat, R>, no: nat, row: R)
    requires no !in table
    ensures table[no := row].Keys == table.Keys + {no} && |table[no := row]| == |table| + 1
  {
  }

  /** Adding a row under the next number keeps the numbering and makes the row the newest. */
  lemma NumberedGrows<R>(table: map<nat, R>, row: R)
    requires Numbered(table)
    ensures var no := MaxOf(table.Keys) + 1;
      && no == |table| + 1 && no !in table
      && Numbered(table[no := row]) && MaxOf(table[no := row].Keys) == no
  {
    RunGrows(table.Keys, |table|);
    RowAdded(table, |table| + 1, row);
    RunGrows(table.Keys + {|table| + 1}, |table| + 1);
  }

  lemma RecordKeepsValid(tag: Tagging, revs: Revisions, content: Content, kind: Kind)
    requires Valid(tag, revs)
    ensures Valid(tag, Record(tag, revs, content, kind))
    ensures Extends(revs, Record(tag, revs, content, kind))
  {
    NumberedGrows(revs, Revision(content, tag(content), kind));
  }

  lemma RecordIsLatest(tag: Tagging, revs: Revisions, content: Content, kind: Kind)
    requires Valid(tag, revs)
    ensures Latest(Record(tag, revs, content, kind)) == Some(Revision(content, tag(content), kind))
  {
    NumberedGrows(revs, Revision(content, tag(content), kind));
  }

  lemma RecordAddsContent(tag: Tagging, revs: Revisions, content: Content, kind: Kind, c: Content)
    requires Valid(tag, revs)
    ensures Recorded(Record(tag, revs, content, kind), c) <==> Recorded(revs, c) || c == content
  {
    var r := Revision(content, tag(content), kind);
    NumberedGrows(revs, r);
    RowIsAdded(revs, MaxOf(revs.Keys) + 1, r, c);
  }

  lemma RowIsAdded(revs: Revisions, no: nat, r: Revision, c: Content)
    requires no !in revs
    ensures Recorded(revs[no := r], c) <==> Recorded(revs, c) || c == r.content
  {
    var more := revs[no := r];
    assert more[no].content == r.content;
    if Recorded(revs, c) {
      var n :| n in revs && revs[n].content == c;
      assert more[n].content == c;
    }
  }

  /** After a disk snapshot the latest etag is that of the disk; the text itself is in the history unless the
      latest revision is a different text with the same etag. */
  lemma SnapshotRecords(tag: Tagging, revs: Revisions, text: Content)
    requires Valid(tag, revs) && text != []
    ensures var after := SnapshotDiskIfNeeded(tag, revs, text);
      && Latest(after).Some? && Latest(after).value.etag == tag(text)
      && (after != revs ==> Latest(after).value == Revision(text, tag(text), if revs == map[] then Baseline else External))
      && (Recorded(after, text) <==> Recorded(revs, text) || Latest(revs).None? || Latest(revs).value.etag != tag(text))
  {
    var kind := if Latest(revs).None? then Baseline else External;
    RecordIsLatest(tag, revs, text, kind);
    RecordAddsContent(tag, revs, text, kind, text);
  }

  lemma SnapshotKeepsHistory(tag: Tagging, revs: Revisions, text: Content)
    requires Valid(tag, revs)
    ensures Valid(tag, SnapshotDiskIfNeeded(tag, revs, text))
    ensures Extends(revs, SnapshotDiskIfNeeded(tag, revs, text))
  {
    RecordKeepsValid(tag, revs, text, External);
    RecordKeepsValid(tag, revs, text, Baseline);
  }

  /** A request leaves the history as it was, with a disk snapshot, or with a disk snapshot and the saved text. */
  lemma SaveRecords(tag: Tagging, doc: Doc, valid: bool, content: Content, kind: Kind, expected: Option<Etag>, seen: Content, how: Installing)
    ensures var after := Save(tag, doc, valid, content, kind, expected, seen, how).0.revs;
      var middle := SnapshotDiskIfNeeded(tag, doc.revs, TextOf(doc));
      after == doc.revs || after == middle || after == Record(tag, middle, content, kind)
  {
  }

  /** A request keeps the numbering and never touches an existing revision. */
  lemma SaveKeepsHistory(tag: Tagging, doc: Doc, valid: bool, content: Content, kind: Kind, expected: Option<Etag>, seen: Content, how: Installing)
    requires Valid(tag, doc.revs)
    ensures var after := Save(tag, doc, valid, content, kind, expected, seen, how).0;
      Valid(tag, after.revs) && Extends(doc.revs, after.revs)
  {
    SaveRecords(tag, doc, valid, content, kind, expected, seen, how);
    var after := Save(tag, doc, valid, content, kind, expected, seen, how).0.revs;
    var middle := SnapshotDiskIfNeeded(tag, doc.revs, TextOf(doc));
    SnapshotKeepsHistory(tag, doc.revs, TextOf(doc));
    if after == Record(tag, middle, content, kind) {
      RecordKeepsValid(tag, middle, content, kind);
    }
  }

  /** After a successful save the disk holds the new text and so does the latest revision; the text just
      overwritten is in the history, except in the one case of an unrecorded text that shares its etag with the
      latest revision. */
  lemma SavedIsRecorded(tag: Tagging, doc: Doc, content: Content, kind: Kind, expected: Option<Etag>, seen: Content, how: Installing)
    requires Valid(tag, doc.revs)
    ensures var (after, result) := Save(tag, doc, true, content, kind, expected, seen, how);
      result.Done? ==>
        && after.disk == Some(content) && Latest(after.revs) == Some(Revision(content, tag(content), kind))
        && var text := TextOf(doc); text != [] ==>
          (Recorded(after.revs, text) <==>
             Recorded(doc.revs, text) || Latest(doc.revs).None? || Latest(doc.revs).value.etag != tag(text))
  {
    var text := TextOf(doc);
    var revs := SnapshotDiskIfNeeded(tag, doc.revs, text);
    SnapshotKeepsHistory(tag, doc.revs, text);
    if text != [] {
      SnapshotRecords(tag, doc.revs, text);
    }
    RecordIsLatest(tag, revs, content, kind);
    RecordAddsContent(tag, revs, content, kind, text);
  }

  /** A save that finds the disk as it is leaves it so, and the latest revision has its etag. */
  lemma UnchangedIsRecorded(tag: Tagging, doc: Doc, content: Content, kind: Kind, expected: Option<Etag>, seen: Content, how: Installing)
    requires Valid(tag, doc.revs) && content != []
    ensures var (after, result) := Save(tag, doc, true, content, kind, expected, seen, how);
      result.Unchanged? ==>
        TextOf(after) == TextOf(doc) == content && Latest(after.revs).Some? && Latest(after.revs).value.etag == tag(content)
  {
    SnapshotRecords(tag, doc.revs, content);
  }

  /** The order of the steps matters: a process that dies between installing the file and writing the history has
      overwritten a text that is recorded only if it was before. */
  lemma DeathLosesOverwritten(tag: Tagging, doc: Doc, content: Content, kind: Kind, expected: Option<Etag>, seen: Content)
    requires Valid(tag, doc.revs)
    ensures var (after, result) := Save(tag, doc, true, content, kind, expected, seen, DiesAfterwards);
      result.Died? ==> TextOf(after) == content && forall c :: Recorded(after.revs, c) <==> Recorded(doc.revs, c)
  {
  }

  /** One that dies between the two inserts leaves the saved text unrecorded, unless it was recorded before; the
      overwritten one is recorded as ever. */
  lemma DeathLosesSaved(tag: Tagging, doc: Doc, content: Content, kind: Kind, expected: Option<Etag>, seen: Content)
    requires Valid(tag, doc.revs)
    ensures var (after, result) := Save(tag, doc, true, content, kind, expected, seen, DiesBetweenInserts);
      result.Died? ==>
        && TextOf(after) == content && (Recorded(after.revs, content) <==> Recorded(doc.revs, content))
        && var text := TextOf(doc); text != [] ==>
          (Recorded(after.revs, text) <==>
             Recorded(doc.revs, text) || Latest(doc.revs).None? || Latest(doc.revs).value.etag != tag(text))
  {
    var text := TextOf(doc);
    if text != [] {
      SnapshotRecords(tag, doc.revs, text);
    }
    RecordAddsContent(tag, doc.revs, text, External, content);
    RecordAddsContent(tag, doc.revs, text, Baseline, content);
  }

  datatype Request = Request(valid: bool, content: Content, kind: Kind, seen: Content, how: Installing)

  function Serve(tag: Tagging, doc: Doc, r: Request, expected: Etag): (Doc, Result)
  {
    Save(tag, doc, r.valid, r.content, r.kind, Some(expected), r.seen, r.how)
  }

  /** How many of the requests changed the file. */
  function Changes(tag: Tagging, doc: Doc, requests: seq<Request>, expected: Etag): nat
    decreases |requests|
  {
    if requests == [] then 0
    else
      var (after, _) := Serve(tag, doc, requests[0], expected);
      (if TextOf(after) != TextOf(doc) then 1 else 0) + Changes(tag, after, requests[1..], expected)
  }

  lemma {:induction false} NoneWins(tag: Tagging, doc: Doc, requests: seq<Request>, expected: Etag)
    requires tag(TextOf(doc)) != expected
    ensures Changes(tag, doc, requests, expected) == 0
    decreases |requests|
  {
    if requests != [] {
      NoneWins(tag, doc, requests[1..], expected);
    }
  }

  /** Of several saves that all expect the same etag, at most one changes the file, in whatever order they get the
      gate and whatever becomes of each, provided none brings a different text under that very etag. */
  lemma {:induction false} AtMostOneWins(tag: Tagging, doc: Doc, requests: seq<Request>, expected: Etag)
    requires forall r | r in requests && tag(r.content) == expected :: r.content == TextOf(doc)
    ensures Changes(tag, doc, requests, expected) <= 1
    decreases |requests|
  {
    if requests != [] {
      var (after, _) := Serve(tag, doc, requests[0], expected);
      if TextOf(after) != TextOf(doc) {
        assert TextOf(after) == requests[0].content && requests[0] in requests;
        NoneWins(tag, after, requests[1..], expected);
      } else {
        AtMostOneWins(tag, after, requests[1..], expected);
      }
    }
  }

  /** The proviso is needed: a different text under the expected etag lets a second save through. */
  lemma CollisionLetsTwoWin(tag: Tagging, doc: Doc, first: Content, second: Content)
    requires first != TextOf(doc) && tag(first) == tag(TextOf(doc)) && second != first
    ensures var text := TextOf(doc);
      Changes(tag, doc, [Request(true, first, Saved, text, Works), Request(true, second, Saved, text, Works)], tag(text)) == 2
  {
    var one := Request(true, first, Saved, TextOf(doc), Works);
    var two := Request(true, second, Saved, TextOf(doc), Works);
    var expected := tag(TextOf(doc));
    var (after, _) := Serve(tag, doc, one, expected);
    assert [one, two][1..] == [two];
    assert TextOf(after) == first;
    assert Changes(tag, after, [two], expected) == 1;
  }

  /** The project's state as the handlers change it. */
  class Project {
    var disk: Option<Content>
    var revs: Revisions

    function Value(): Doc
      reads this
    {
      Doc(disk, revs)
    }

    method RecordRevision(content: Content, kind: Kind)
      modifies this`revs
      ensures revs == Record(EtagOf, old(revs), content, kind)
    {
      var no := NextRevNo(revs);
      revs := revs[no := Revision(content, EtagOf(content), kind)];
    }

    method SnapshotDisk(text: Content)
      modifies this`revs
      ensures revs == SnapshotDiskIfNeeded(EtagOf, old(revs), text)
    {
      if text == [] {
        return;
      }
      var latest := Latest(revs);
      match latest {
        case Some(r) =>
          if r.etag != EtagOf(text) {
            RecordRevision(text, External);
          }
        case None =>
          RecordRevision(text, Baseline);
      }
    }

    /** save_compose_content, from the moment the gate is held. */
    method SaveContent(valid: bool, content: Content, kind: Kind, expected: Option<Etag>, seen: Content, how: Installing) returns (result: Result)
      requires Valid(EtagOf, revs)
      modifies this
      ensures (Value(), result) == Save(EtagOf, old(Value()), valid, content, kind, expected, seen, how)
      ensures Valid(EtagOf, revs)
      ensures Answers(EtagOf, old(TextOf(Value())), valid, content, expected, seen, how, result)
      ensures Leaves(old(Value()), content, result, Value())
      ensures result.Done? ==> Latest(revs) == Some(Revision(content, EtagOf(content), kind))
    {
      SaveAnswers(EtagOf, Value(), valid, content, kind, expected, seen, how);
      SaveKeepsHistory(EtagOf, Value(), valid, content, kind, expected, seen, how);
      SavedIsRecorded(EtagOf, Value(), content, kind, expected, seen, how);
      if !valid {
        return Invalid;
      }
      if expected.Some? && expected.value != EtagOf(seen) {
        return Conflict;
      }
      var text := TextOf(Value());
      if expected.Some? && expected.value != EtagOf(text) {
        return Conflict;
      }
      if content == text {
        SnapshotDisk(text);
        return Unchanged;
      }
      match how {
        case FailsValidation =>
          return Refused;
        case DiesAfterwards =>
          disk := Some(content);
          return Died;
        case DiesBetweenInserts =>
          disk := Some(content);
          SnapshotDisk(text);
          return Died;
        case Works =>
          disk := Some(content);
          SnapshotDisk(text);
          RecordRevision(content, kind);
          return Done;
      }
    }
  }
}
