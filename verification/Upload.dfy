/** Resumable upload of one file in chunks (src/api.rs:2766-2938). */
module Upload {
  import opened Text
  import opened LogLines

  const CHUNK_MAX: nat := 16 * 1024 * 1024

  datatype Target = Absent | Directory | Regular(bytes: seq<Byte>)

  datatype Status = Oversized | Received(uploaded: nat, complete: bool)

  /** Where the process can die while it handles a chunk; a reply that is lost is a death after everything. */
  datatype Moment = Writing | Written | Marked | Renamed

  /** What becomes of one request: `written` bytes of the body get through if the process dies while writing. */
  datatype Fate = Survives | Dies(at: Moment, written: nat)

  datatype Reply =
    | Rejected                                 // nothing was changed
    | Accepted(uploaded: nat, complete: bool)
    | TargetIsDirectory                        // reported after the marker was written
    | Died(at: Moment)

  /** A received prefix and a piece of what follows are a longer prefix. */
  lemma PrefixGrows(source: seq<Byte>, offset: nat, body: seq<Byte>, k: nat)
    requires offset + |body| <= |source| && body == source[offset..offset + |body|] && k <= |body|
    ensures source[..offset] + body[..k] == source[..offset + k]
  {
  }

  /** The files of one upload: the part file, the target and the content of the ".done" marker. */
  class Server {
    var part: Option<seq<Byte>>
    var target: Target
    var marker: Option<nat>
    ghost const source: seq<Byte>
    ghost const original: Target

    /** The part file is always a prefix of the source, and once the marker stands the whole source is in
        the target or still in the part file. */
    ghost predicate Valid()
      reads this
    {
      && (part.Some? ==> part.value <= source)
      && (target == original || target == Regular(source))
      && (marker.Some? ==> marker.value == |source| && (target == Regular(source) || part == Some(source)))
    }

    /** The marker stands for a rename that never happened, and an older file of the same size is taken for the new one. */
    ghost predicate Stale()
      reads this
    {
      marker.Some? && target != Regular(source) && target.Regular? && |target.bytes| == |source|
    }

    ghost function Remaining(): nat
      requires Valid()
      reads this
    {
      if marker.Some? && target == Regular(source) then 0
      else if part.Some? then |source| - |part.value| + 1
      else |source| + 1
    }

    constructor (ghost source: seq<Byte>, existing: Target)
      ensures Valid() && !Stale() && this.source == source && original == existing == target && part.None?
    {
      this.source, original := source, existing;
      part, target, marker := None, existing, None;
    }

    function Current(): nat
      reads this
    {
      if part.Some? then |part.value| else 0
    }

    /** temp_upload_status */
    method GetStatus(total: nat) returns (status: Status)
      requires Valid() && total == |source|
      ensures status.Received? && status.uploaded <= total
      ensures status.complete ==> status.uploaded == total
      ensures status.complete <==> marker.Some? && (target == Regular(source) || Stale())
      ensures !status.complete ==> status.uploaded == Current()
    {
      var complete := marker == Some(total) && target.Regular? && |target.bytes| == total;
      var uploaded := if complete then total else Current();
      if uploaded > total {
        return Oversized;
      }
      return Received(uploaded, complete);
    }

    /** temp_upload_chunk, for a chunk that is the piece of the source at its offset. */
    method PutChunk(total: nat, offset: nat, body: seq<Byte>, fate: Fate) returns (reply: Reply)
      requires Valid() && total == |source|
      requires offset + |body| <= |source| ==> body == source[offset..offset + |body|]
      modifies this
      ensures Valid()
      // What is checked first.
      ensures reply.Rejected? <==> |body| > 0x100_0000 || offset + |body| > total || old(Current()) != offset
      ensures reply.Rejected? ==> part == old(part) && target == old(target) && marker == old(marker)
      // A complete upload is the source, byte for byte, and completion is reported exactly at the last byte.
      ensures reply.Accepted? ==> reply.uploaded == offset + |body| && (reply.complete <==> reply.uploaded == total)
      ensures reply.Accepted? && reply.complete ==> target == Regular(source) && marker == Some(total) && part == None
      ensures reply.Accepted? && !reply.complete ==> part == Some(source[..offset + |body|]) && target == old(target) && marker == old(marker)
      // Once there, the source stays there; only a death between marker and rename can make an older file pass for it.
      ensures old(target) == Regular(source) ==> target == Regular(source)
      ensures Stale() ==> old(Stale()) || (reply == Died(Marked) && original.Regular? && |original.bytes| == total)
      ensures reply == Died(Marked) && target.Regular? && target != Regular(source) && |target.bytes| == total ==> Stale()
      ensures reply.TargetIsDirectory? ==> original.Directory?
      ensures !reply.Rejected? && fate.Dies? && (fate.at.Writing? || fate.at.Written? || (fate.at.Marked? && offset + |body| == total)) ==>
                reply == Died(fate.at) && target == old(target)
      // What a death leaves: as much of the body as got through, behind what was there; the marker only with all of it.
      ensures reply == Died(Writing) ==> fate.Dies? && marker == old(marker)
      ensures reply == Died(Writing) ==> part == Some(source[..offset + if fate.written < |body| then fate.written else |body|])
      ensures reply == Died(Written) ==> marker == old(marker) && part == Some(source[..offset + |body|])
      ensures reply == Died(Marked) ==> offset + |body| == total && marker == Some(total) && part == Some(source)
      ensures reply == Died(Renamed) ==>
                offset + |body| == total && marker == Some(total) && part == None && target == Regular(source)
      ensures reply.TargetIsDirectory? ==> marker == Some(total) && part == Some(source) && target == old(target)
    {
      if |body| > CHUNK_MAX {
        return Rejected;
      }
      if offset > total || |body| > total - offset {
        return Rejected;
      }
      var current := Current();
      if current != offset {
        return Rejected;
      }
      var before := if part.Some? then part.value else [];
      assert before == source[..offset];
      if fate.Dies? && fate.at.Writing? {
        // write_all got through a part of the body, or nothing of it
        var k := if fate.written <= |body| then fate.written else |body|;
        PrefixGrows(source, offset, body, k);
        part := Some(before + body[..k]);
        return Died(Writing);
      }
      PrefixGrows(source, offset, body, |body|);
      assert body[..|body|] == body;
      part := Some(before + body);
      if fate.Dies? && fate.at.Written? {
        return Died(Written);
      }
      var uploaded := current + |body|;
      if uploaded == total {
        assert part.value == source;
        marker := Some(total);
        if fate.Dies? && fate.at.Marked? {
          return Died(Marked);
        }
        if target.Directory? {
          return TargetIsDirectory;
        }
        target, part := Regular(part.value), None;
        if fate.Dies? {
          return Died(Renamed);
        }
      }
      return Accepted(uploaded, uploaded == total);
    }
  }

  datatype Outcome = Complete | Impossible | GaveUp

  /** A client that asks for the status and sends what is missing, until it is told that all is there. It puts up
      with any number of deaths and lost replies that is below its patience, and then always comes to an end. */
  method Follow(server: Server, source: seq<Byte>, patience: nat) returns (outcome: Outcome, faults: nat)
    requires server.Valid() && server.source == source
    modifies server
    ensures server.Valid() && faults <= patience
    ensures outcome.Complete? ==> server.target == Regular(source) || server.Stale()
    ensures outcome.Complete? && !old(server.Stale()) && server.Stale() ==>
              faults > 0 && server.original.Regular? && |server.original.bytes| == |source|
    ensures outcome.Impossible? ==> server.original.Directory?
    ensures outcome.GaveUp? ==> faults == patience
  {
    var total := |source|;
    faults := 0;
    while true
      invariant server.Valid() && faults <= patience
      invariant !old(server.Stale()) && server.Stale() ==>
                  faults > 0 && server.original.Regular? && |server.original.bytes| == |source|
      decreases patience - faults, server.Remaining()
    {
      var status := server.GetStatus(total);
      if status.complete {
        return Complete, faults;
      }
      var n: nat :| n <= CHUNK_MAX && status.uploaded + n <= total && (n == 0 ==> status.uploaded == total);
      var fate: Fate := *;
      var reply := server.PutChunk(total, status.uploaded, source[status.uploaded..status.uploaded + n], fate);
      match reply {
        case Accepted(_, _) =>
        case TargetIsDirectory =>
          return Impossible, faults;
        case Died(_) =>
          if faults == patience {
            return GaveUp, faults;
          }
          faults := faults + 1;
        case Rejected =>
          assert false;
      }
    }
  }

  /** The exception is real: the process dies between marker and rename, an older file of the same length is in
      place, and from then on the status says "complete" although the target is not the source. */
  method StaleMarkerIsBelieved(source: seq<Byte>, older: seq<Byte>) returns (server: Server, status: Status)
    requires |older| == |source| <= CHUNK_MAX && older != source
    ensures server.Valid() && server.Stale() && server.source == source && server.target == Regular(older)
    ensures status == Received(|source|, true)
  {
    server := new Server(source, Regular(older));
    assert source[0..0 + |source|] == source;
    var reply := server.PutChunk(|source|, 0, source, Dies(Marked, 0));
    status := server.GetStatus(|source|);
  }
}
