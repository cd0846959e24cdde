/** Per-bucket aggregates of access-log events (src/nginx_stats.rs:234-246, 324-347, 364-387). */
module LogStats {
  import opened Text
  import opened LogLines
  import opened Tables
  import opened TopPaths

  datatype DeviceInfo = DeviceInfo(platform: string, osVersion: string, deviceModel: string,
                                   networkType: string, clientApp: string, appVersion: string)

  type HttpStatus = n: int | 100 <= n < 600 witness 200

  datatype Event = Event(bucket: string, status: HttpStatus, bytes: int, client: string, path: string,
                         upstream: Option<string>, requestTime: Option<real>, device: DeviceInfo)

  /** 1 for informational responses to 5 for server errors. */
  type StatusClass = c: int | 1 <= c <= 5 witness 1

  /** A table of positive counts per key is a multiset of keys; the five status columns are one of them. */
  datatype Agg = Agg(requests: nat, bytes: int, status: multiset<StatusClass>, rtSum: real, rtCount: nat, slow: nat,
                     clients: set<string>, upstreams: multiset<string>, paths: multiset<string>,
                     devices: multiset<DeviceInfo>)

  type Table = map<string, Agg>

  const EMPTY := Agg(0, 0, multiset{}, 0.0, 0, 0, {}, multiset{}, multiset{}, multiset{})

  function Record(a: Agg, e: Event): Agg
  {
    a.(requests := a.requests + 1,
       bytes := a.bytes + e.bytes,
       status := a.status + multiset{e.status / 100},
       rtSum := a.rtSum + if e.requestTime.Some? then e.requestTime.value else 0.0,
       rtCount := a.rtCount + if e.requestTime.Some? then 1 else 0,
       slow := a.slow + if e.requestTime.Some? && e.requestTime.value > 1.0 then 1 else 0,
       clients := a.clients + {e.client},
       upstreams := a.upstreams + if e.upstream.Some? then multiset{e.upstream.value} else multiset{},
       paths := a.paths + multiset{e.path},
       devices := a.devices + multiset{e.device})
  }

  function Count(t: Table, e: Event): Table
  {
    t[e.bucket := Record(At(t, e.bucket, EMPTY), e)]
  }

  /** Reference: one pass over the lines, in order; lines that do not parse are skipped. */
  function Fold(parse: Line -> Option<Event>, lines: seq<Line>): Table
  {
    if lines == [] then map[]
    else CountLine(parse, Fold(parse, Init(lines)), Last(lines))
  }

  function CountLine(parse: Line -> Option<Event>, t: Table, line: Line): Table
  {
    match parse(line)
    case None => t
    case Some(e) => Count(t, e)
  }

  lemma FoldSnoc(parse: Line -> Option<Event>, lines: seq<Line>, line: Line)
    ensures Fold(parse, lines + [line]) == CountLine(parse, Fold(parse, lines), line)
  {
    assert Init(lines + [line]) == lines;
  }

  /** One bucket's upsert statements: every counter is added, every client is kept once. */
  function Merge(a: Agg, b: Agg): Agg
  {
    Agg(a.requests + b.requests, a.bytes + b.bytes, a.status + b.status,
        a.rtSum + b.rtSum, a.rtCount + b.rtCount, a.slow + b.slow, a.clients + b.clients,
        a.upstreams + b.upstreams, a.paths + b.paths, a.devices + b.devices)
  }

  function MergeTables(t: Table, u: Table): Table
  {
    Sum(t, u, Merge, EMPTY)
  }

  lemma MergeEmpty(a: Agg)
    ensures Merge(a, EMPTY) == a && Merge(EMPTY, a) == a
  {
  }

  lemma MergeCommutes(a: Agg, b: Agg)
    ensures Merge(a, b) == Merge(b, a)
  {
  }

  lemma MergeRecord(a: Agg, b: Agg, e: Event)
    ensures Merge(a, Record(b, e)) == Record(Merge(a, b), e)
  {
  }

  lemma MergeTablesUpdate(t: Table, u: Table, bucket: string, v: Agg, w: Agg)
    requires Merge(At(t, bucket, EMPTY), v) == w
    ensures MergeTables(t, u[bucket := v]) == MergeTables(t, u)[bucket := w]
  {
    SumUpdate(t, u, Merge, EMPTY, bucket, v, w);
  }

  lemma MergeTablesAt(t: Table, u: Table, bucket: string)
    ensures At(MergeTables(t, u), bucket, EMPTY) == Merge(At(t, bucket, EMPTY), At(u, bucket, EMPTY))
  {
    MergeEmpty(EMPTY);
    SumAt(t, u, Merge, EMPTY, bucket);
  }

  lemma MergeTablesCount(t: Table, u: Table, e: Event)
    ensures MergeTables(t, Count(u, e)) == Count(MergeTables(t, u), e)
  {
    var there, here := At(t, e.bucket, EMPTY), At(u, e.bucket, EMPTY);
    MergeRecord(there, here, e);
    MergeTablesUpdate(t, u, e.bucket, Record(here, e), Record(Merge(there, here), e));
    MergeTablesAt(t, u, e.bucket);
  }

  lemma MergeTablesCountLine(parse: Line -> Option<Event>, t: Table, u: Table, line: Line)
    ensures MergeTables(t, CountLine(parse, u, line)) == CountLine(parse, MergeTables(t, u), line)
  {
    if parse(line).Some? {
      MergeTablesCount(t, u, parse(line).value);
    }
  }

  lemma MergeTablesEmpty(t: Table)
    ensures MergeTables(t, map[]) == t
  {
    forall bucket | bucket in t ensures Merge(t[bucket], EMPTY) == t[bucket] {
      MergeEmpty(t[bucket]);
    }
    SumEmpty(t, Merge, EMPTY);
  }

  lemma MergeTablesCommutes(t: Table, u: Table)
    ensures MergeTables(t, u) == MergeTables(u, t)
  {
    forall bucket | bucket in t.Keys + u.Keys
      ensures Merge(At(t, bucket, EMPTY), At(u, bucket, EMPTY)) == Merge(At(u, bucket, EMPTY), At(t, bucket, EMPTY))
    {
      MergeCommutes(At(t, bucket, EMPTY), At(u, bucket, EMPTY));
    }
    SumCommutes(t, u, Merge, EMPTY);
  }

  /** Batching does not change the statistics: aggregating two batches separately and adding the
      tables is the one-pass count of all their lines. */
  lemma {:induction false} FoldConcat(parse: Line -> Option<Event>, a: seq<Line>, b: seq<Line>)
    ensures Fold(parse, a + b) == MergeTables(Fold(parse, a), Fold(parse, b))
  {
    if b == [] {
      assert a + b == a;
      MergeTablesEmpty(Fold(parse, a));
    } else {
      assert Init(a + b) == a + Init(b) && Last(a + b) == Last(b);
      FoldConcat(parse, a, Init(b));
      MergeTablesCountLine(parse, Fold(parse, a), Fold(parse, Init(b)), Last(b));
    }
  }

  /** What holds inside one aggregate, however it was built. */
  predicate Consistent(a: Agg)
  {
    && |a.status| == a.requests
    && |a.devices| == a.requests
    && |a.upstreams| <= a.requests
    && |a.paths| <= a.requests
    && a.slow <= a.rtCount <= a.requests
    && |a.clients| <= a.requests
  }

  /** The five status columns add up to the number of requests. */
  lemma StatusColumns(a: Agg)
    requires Consistent(a)
    ensures a.status[1] + a.status[2] + a.status[3] + a.status[4] + a.status[5] == a.requests
  {
    var m := a.status;
    DropOne(m, 1);
    DropOne(m[1 := 0], 2);
    DropOne(m[1 := 0][2 := 0], 3);
    DropOne(m[1 := 0][2 := 0][3 := 0], 4);
    DropOne(m[1 := 0][2 := 0][3 := 0][4 := 0], 5);
    assert m[1 := 0][2 := 0][3 := 0][4 := 0][5 := 0] == multiset{};
  }

  lemma DropOne<T>(m: multiset<T>, x: T)
    ensures |m| == m[x] + |m[x := 0]|
  {
    assert m == m[x := 0] + multiset{}[x := m[x]];
  }

  lemma RecordIsConsistent(a: Agg, e: Event)
    requires Consistent(a)
    ensures Consistent(Record(a, e))
  {
    assert |a.clients + {e.client}| <= |a.clients| + 1;
  }

  lemma {:induction false} FoldIsConsistent(parse: Line -> Option<Event>, lines: seq<Line>)
    ensures forall bucket | bucket in Fold(parse, lines) :: Consistent(Fold(parse, lines)[bucket])
  {
    if lines != [] {
      var before := Fold(parse, Init(lines));
      FoldIsConsistent(parse, Init(lines));
      if parse(Last(lines)).Some? {
        var e := parse(Last(lines)).value;
        RecordIsConsistent(At(before, e.bucket, EMPTY), e);
      }
    }
  }

  /** The stored row of a bucket against the true count: everything is exact except the path table,
      which is an under-count of at most 500 paths and exact while 500 suffice. */
  ghost predicate Approximates(stored: Agg, truth: Agg)
  {
    && stored.(paths := truth.paths) == truth
    && stored.paths <= truth.paths
    && |Names(stored.paths)| <= MAX_PATHS_PER_BUCKET
    && (|Names(truth.paths)| <= MAX_PATHS_PER_BUCKET ==> stored.paths == truth.paths)
  }

  ghost predicate Reports(stored: Table, truth: Table)
  {
    stored.Keys == truth.Keys && forall bucket | bucket in stored :: Approximates(stored[bucket], truth[bucket])
  }

  /** One bucket's share of a transaction: the upserts, then the deletion of surplus paths. */
  ghost function MergeAndPrune(stored: Agg, batch: Agg): Agg
  {
    var row := Merge(stored, batch);
    row.(paths := KeepTop(row.paths))
  }

  ghost function Persist(t: Table, batch: Table): Table
  {
    Upsert(t, batch, MergeAndPrune, EMPTY)
  }

  lemma MergeAndPruneApproximates(stored: Agg, truth: Agg, batch: Agg)
    requires Approximates(stored, truth)
    ensures Approximates(MergeAndPrune(stored, batch), Merge(truth, batch))
  {
    var paths, all := stored.paths + batch.paths, truth.paths + batch.paths;
    TopIsKept(paths);
    if |Names(all)| <= MAX_PATHS_PER_BUCKET {
      FewerNames(truth.paths, all);
      SmallTableIsKept(paths);
    }
  }

  /** In a bucket that a batch adds to, the paths that stay have the sum of the two counts, and none of those that go
      has a higher one, or as high a one and the earlier text. */
  lemma BusiestPathsStay(t: Table, batch: Table, bucket: string)
    requires bucket in batch
    ensures bucket in Persist(t, batch)
    ensures var sum := At(t, bucket, EMPTY).paths + batch[bucket].paths; var after := Persist(t, batch)[bucket].paths;
      (forall p | p in after :: after[p] == sum[p]) && KeepsBusiest(sum, after)
  {
    TopIsKept(At(t, bucket, EMPTY).paths + batch[bucket].paths);
  }

  /** A bucket that a batch does not touch stays as it is. */
  lemma OtherBucketsStay(t: Table, batch: Table, bucket: string)
    requires bucket !in batch
    ensures bucket in Persist(t, batch) <==> bucket in t
    ensures bucket in t ==> Persist(t, batch)[bucket] == t[bucket]
  {
  }

  lemma EmptyApproximatesEmpty()
    ensures Approximates(EMPTY, EMPTY)
  {
    assert Names(EMPTY.paths) == {};
  }

  /** Committing a batch keeps the stored tables a report of the true ones. */
  lemma PersistReports(stored: Table, truth: Table, batch: Table)
    requires Reports(stored, truth)
    ensures Reports(Persist(stored, batch), MergeTables(truth, batch))
  {
    forall bucket | bucket in Persist(stored, batch)
      ensures Approximates(Persist(stored, batch)[bucket], MergeTables(truth, batch)[bucket])
    {
      if bucket in batch {
        EmptyApproximatesEmpty();
        MergeAndPruneApproximates(At(stored, bucket, EMPTY), At(truth, bucket, EMPTY), batch[bucket]);
      } else {
        MergeEmpty(truth[bucket]);
      }
    }
  }

  /** The balance rules survive the loss of paths. */
  lemma StoredRowsBalance(parse: Line -> Option<Event>, lines: seq<Line>, stored: Table, bucket: string)
    requires Reports(stored, Fold(parse, lines)) && bucket in stored
    ensures var row := stored[bucket];
      && row.status[1] + row.status[2] + row.status[3] + row.status[4] + row.status[5] == row.requests
      && |row.devices| == row.requests
      && |row.upstreams| <= row.requests && |row.paths| <= row.requests && |row.clients| <= row.requests
      && row.slow <= row.rtCount <= row.requests
      && |Names(row.paths)| <= MAX_PATHS_PER_BUCKET
  {
    FoldIsConsistent(parse, lines);
    var row, truth := stored[bucket], Fold(parse, lines)[bucket];
    assert truth.paths == row.paths + (truth.paths - row.paths);
    StatusColumns(truth);
  }
}
