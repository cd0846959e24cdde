/** What the one-pass count of a log means, column by column (src/nginx_stats.rs:324-349). */
module LogMeaning {
  import opened Text
  import opened LogLines
  import opened LogStats
  import opened Tables

  /** The events of one bucket, in order. */
  function EventsOf(parse: Line -> Option<Event>, lines: seq<Line>, bucket: string): seq<Event>
  {
    if lines == [] then []
    else
      var e := parse(Last(lines));
      EventsOf(parse, Init(lines), bucket) + if e.Some? && e.value.bucket == bucket then [e.value] else []
  }

  /** One feature of the events that have it. */
  function Gather<T>(events: seq<Event>, feature: Event -> Option<T>): seq<T>
  {
    if events == [] then []
    else Gather(Init(events), feature) + if feature(Last(events)).Some? then [feature(Last(events)).value] else []
  }

  function ByteCount(e: Event): Option<int> { Some(e.bytes) }
  function Class(e: Event): Option<StatusClass> { Some(e.status / 100) }
  function Client(e: Event): Option<string> { Some(e.client) }
  function Path(e: Event): Option<string> { Some(e.path) }
  function Device(e: Event): Option<DeviceInfo> { Some(e.device) }
  function Upstream(e: Event): Option<string> { e.upstream }
  function Time(e: Event): Option<real> { e.requestTime }
  function SlowTime(e: Event): Option<real> { if e.requestTime.Some? && e.requestTime.value > 1.0 then e.requestTime else None }

  function Total(times: seq<real>): real
  {
    if times == [] then 0.0 else Total(Init(times)) + Last(times)
  }

  function Sum(numbers: seq<int>): int
  {
    if numbers == [] then 0 else Sum(Init(numbers)) + Last(numbers)
  }

  /** What the numbers of an aggregate say about a list of events. */
  ghost predicate Numbers(a: Agg, events: seq<Event>)
  {
    && a.requests == |events| && a.bytes == Sum(Gather(events, ByteCount))
    && a.rtCount == |Gather(events, Time)| && a.rtSum == Total(Gather(events, Time)) && a.slow == |Gather(events, SlowTime)|
  }

  /** The same with multiplicities. */
  function Bag<T>(events: seq<Event>, feature: Event -> Option<T>): multiset<T>
  {
    if events == [] then multiset{}
    else Bag(Init(events), feature) + if feature(Last(events)).Some? then multiset{feature(Last(events)).value} else multiset{}
  }

  /** What its collections say. */
  ghost predicate Collections(a: Agg, events: seq<Event>)
  {
    && a.status == Bag(events, Class) && a.paths == Bag(events, Path)
    && a.devices == Bag(events, Device) && a.upstreams == Bag(events, Upstream)
    && a.clients == Present(events, Client)
  }

  ghost predicate Means(a: Agg, events: seq<Event>)
  {
    Numbers(a, events) && Collections(a, events)
  }

  function Present<T(==)>(events: seq<Event>, feature: Event -> Option<T>): set<T>
  {
    set x | x in Bag(events, feature)
  }

  lemma GatherSnoc<T>(events: seq<Event>, e: Event, feature: Event -> Option<T>)
    ensures Gather(events + [e], feature) == Gather(events, feature) + if feature(e).Some? then [feature(e).value] else []
  {
    assert Init(events + [e]) == events;
  }

  lemma BagSnoc<T>(events: seq<Event>, e: Event, feature: Event -> Option<T>)
    ensures Bag(events + [e], feature) == Bag(events, feature) + if feature(e).Some? then multiset{feature(e).value} else multiset{}
  {
    assert Init(events + [e]) == events;
  }

  lemma PresentSnoc<T>(events: seq<Event>, e: Event, feature: Event -> Option<T>)
    requires feature(e).Some?
    ensures Present(events + [e], feature) == Present(events, feature) + {feature(e).value}
  {
    BagSnoc(events, e, feature);
  }

  lemma SumsSnoc(numbers: seq<int>, n: int, times: seq<real>, time: real)
    ensures Sum(numbers + [n]) == Sum(numbers) + n && Total(times + [time]) == Total(times) + time
  {
    assert Init(numbers + [n]) == numbers && Init(times + [time]) == times;
  }

  lemma NumbersOneMore(a: Agg, events: seq<Event>, e: Event)
    requires Numbers(a, events)
    ensures Numbers(Record(a, e), events + [e])
  {
    GatherSnoc(events, e, ByteCount);
    GatherSnoc(events, e, Time);
    GatherSnoc(events, e, SlowTime);
    SumsSnoc(Gather(events, ByteCount), e.bytes, Gather(events, Time), if e.requestTime.Some? then e.requestTime.value else 0.0);
    assert Gather(events, Time) + [] == Gather(events, Time);
  }

  lemma CollectionsOneMore(a: Agg, events: seq<Event>, e: Event)
    requires Collections(a, events)
    ensures Collections(Record(a, e), events + [e])
  {
    BagSnoc(events, e, Class);
    BagSnoc(events, e, Path);
    BagSnoc(events, e, Device);
    BagSnoc(events, e, Upstream);
    PresentSnoc(events, e, Client);
  }

  lemma NothingYet()
    ensures Means(EMPTY, [])
  {
  }

  lemma OneMoreEvent(a: Agg, events: seq<Event>, e: Event)
    requires Means(a, events)
    ensures Means(Record(a, e), events + [e])
  {
    NumbersOneMore(a, events, e);
    CollectionsOneMore(a, events, e);
  }

  predicate Falls(parse: Line -> Option<Event>, line: Line, bucket: string)
  {
    parse(line).Some? && parse(line).value.bucket == bucket
  }

  lemma OneMoreLine(parse: Line -> Option<Event>, t: Table, line: Line, bucket: string)
    ensures At(CountLine(parse, t, line), bucket, EMPTY)
         == if Falls(parse, line, bucket) then Record(At(t, bucket, EMPTY), parse(line).value) else At(t, bucket, EMPTY)
    ensures bucket in CountLine(parse, t, line) <==> bucket in t || Falls(parse, line, bucket)
  {
  }

  /** A bucket is there if it has events, and each of its columns is the count, the sum or the collection of them that
      its name says. */
  lemma {:induction false} FoldCountsEvents(parse: Line -> Option<Event>, lines: seq<Line>, bucket: string)
    ensures bucket in Fold(parse, lines) <==> EventsOf(parse, lines, bucket) != []
    ensures Means(At(Fold(parse, lines), bucket, EMPTY), EventsOf(parse, lines, bucket))
  {
    if lines == [] {
      NothingYet();
    } else {
      var events := EventsOf(parse, Init(lines), bucket);
      FoldCountsEvents(parse, Init(lines), bucket);
      OneMoreLine(parse, Fold(parse, Init(lines)), Last(lines), bucket);
      if Falls(parse, Last(lines), bucket) {
        OneMoreEvent(At(Fold(parse, Init(lines)), bucket, EMPTY), events, parse(Last(lines)).value);
      } else {
        assert events + [] == events;
      }
    }
  }
}
