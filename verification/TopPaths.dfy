/** The lossy per-bucket path table: "ORDER BY requests DESC, path LIMIT 500" (src/nginx_stats.rs:60, 380-383). */
module TopPaths {
  const MAX_PATHS_PER_BUCKET: nat := 500

  predicate Less(a: string, b: string)
  {
    b != "" && (a == "" || a[0] < b[0] || (a[0] == b[0] && Less(a[1..], b[1..])))
  }

  lemma {:induction false} LessIsTotal(a: string, b: string)
    ensures Less(a, b) || a == b || Less(b, a)
  {
    if a != "" && b != "" && a[0] == b[0] {
      LessIsTotal(a[1..], b[1..]);
      assert a == [a[0]] + a[1..] && b == [b[0]] + b[1..];
    }
  }

  lemma {:induction false} LessIsStrict(a: string, b: string)
    requires Less(a, b)
    ensures !Less(b, a) && a != b
  {
    if a != "" && a[0] == b[0] {
      LessIsStrict(a[1..], b[1..]);
    }
  }

  lemma {:induction false} LessIsTransitive(a: string, b: string, c: string)
    requires Less(a, b) && Less(b, c)
    ensures Less(a, c)
  {
    if a != "" && a[0] == b[0] && b[0] == c[0] {
      LessIsTransitive(a[1..], b[1..], c[1..]);
    }
  }

  /** The text order, read off the characters: at the first place where they differ, `a` has ended or has the lower
      character. */
  ghost predicate InTextOrder(a: string, b: string)
  {
    exists n: nat :: DiffersAt(a, b, n) && (n == |a| || a[n] < b[n])
  }

  predicate DiffersAt(a: string, b: string, n: nat)
  {
    n <= |a| && n < |b| && a[..n] == b[..n] && (n < |a| ==> a[n] != b[n])
  }

  lemma {:induction false} LessIsTextOrder(a: string, b: string)
    ensures Less(a, b) <==> InTextOrder(a, b)
  {
    if a != "" && b != "" && a[0] == b[0] {
      LessIsTextOrder(a[1..], b[1..]);
      forall n: nat ensures DiffersAt(a, b, n + 1) <==> DiffersAt(a[1..], b[1..], n) {
        OneFurther(a, b, n);
      }
      if InTextOrder(a[1..], b[1..]) {
        var n: nat :| DiffersAt(a[1..], b[1..], n) && (n == |a[1..]| || a[1..][n] < b[1..][n]);
        assert DiffersAt(a, b, n + 1);
      }
      if InTextOrder(a, b) {
        var n: nat :| DiffersAt(a, b, n) && (n == |a| || a[n] < b[n]);
        assert DiffersAt(a[1..], b[1..], n - 1);
      }
    } else {
      assert Less(a, b) ==> DiffersAt(a, b, 0);
    }
  }

  lemma OneFurther(a: string, b: string, n: nat)
    requires a != "" && b != "" && a[0] == b[0]
    ensures DiffersAt(a, b, n + 1) <==> DiffersAt(a[1..], b[1..], n)
  {
    if n < |a| && n + 1 < |b| {
      assert a[..n + 1] == [a[0]] + a[1..][..n] && b[..n + 1] == [b[0]] + b[1..][..n];
    }
  }

  function Names(m: multiset<string>): set<string>
  {
    set p | p in m
  }

  /** The order of the table: more requests first, then by path. */
  predicate Before(m: multiset<string>, p: string, q: string)
  {
    m[p] > m[q] || (m[p] == m[q] && Less(p, q))
  }

  lemma BeforeIsTransitive(m: multiset<string>, p: string, q: string, r: string)
    requires Before(m, p, q) && Before(m, q, r)
    ensures Before(m, p, r)
  {
    if m[p] == m[r] {
      LessIsTransitive(p, q, r);
    }
  }

  lemma BeforeIsStrictAndTotal(m: multiset<string>, p: string, q: string)
    ensures Before(m, p, q) ==> !Before(m, q, p) && p != q
    ensures p != q ==> Before(m, p, q) || Before(m, q, p)
  {
    LessIsTotal(p, q);
    if Less(p, q) { LessIsStrict(p, q); }
    if Less(q, p) { LessIsStrict(q, p); }
  }

  function Ahead(m: multiset<string>, among: set<string>, p: string): set<string>
  {
    set q | q in among && Before(m, q, p)
  }

  /** The first `limit` names in the table's order. */
  function Ranked(m: multiset<string>, among: set<string>, limit: nat): set<string>
  {
    set p | p in among && |Ahead(m, among, p)| < limit
  }

  lemma {:induction false} HasLastName(m: multiset<string>, among: set<string>) returns (last: string)
    requires among != {}
    ensures last in among && forall p | p in among && p != last :: Before(m, p, last)
  {
    last :| last in among;
    var rest := among - {last};
    assert among == rest + {last};
    if rest != {} {
      var other := HasLastName(m, rest);
      BeforeIsStrictAndTotal(m, last, other);
      if Before(m, last, other) {
        last := other;
      } else {
        forall p | p in among && p != last ensures Before(m, p, last) {
          if p != other { BeforeIsTransitive(m, p, other, last); }
        }
      }
    }
  }

  lemma AheadWithoutLast(m: multiset<string>, among: set<string>, last: string, p: string)
    requires last in among && p in among
    requires forall q | q in among && q != last :: Before(m, q, last)
    ensures p != last ==> Ahead(m, among, p) == Ahead(m, among - {last}, p)
    ensures p == last ==> Ahead(m, among, p) == among - {last}
  {
    BeforeIsStrictAndTotal(m, p, last);
  }

  /** LIMIT keeps as many rows as it may. */
  lemma {:induction false} RankedCount(m: multiset<string>, among: set<string>, limit: nat)
    ensures |Ranked(m, among, limit)| == if |among| < limit then |among| else limit
    decreases among
  {
    if among == {} {
      assert Ranked(m, among, limit) == {};
    } else {
      var last := HasLastName(m, among);
      var rest := among - {last};
      RankedCount(m, rest, limit);
      forall p | p in among
        ensures p in Ranked(m, among, limit) <==> if p == last then |rest| < limit else p in Ranked(m, rest, limit)
      {
        AheadWithoutLast(m, among, last, p);
      }
      assert Ranked(m, among, limit) == Ranked(m, rest, limit) + if |rest| < limit then {last} else {};
    }
  }

  /** What the DELETE leaves: the rows whose path is among the first 500. */
  ghost function KeepTop(m: multiset<string>): (kept: multiset<string>)
  {
    Restrict(m, Ranked(m, Names(m), MAX_PATHS_PER_BUCKET))
  }

  ghost function Restrict(m: multiset<string>, names: set<string>): (part: multiset<string>)
    ensures forall p :: part[p] == if p in names then m[p] else 0
    decreases |m|
  {
    if forall p | p in m :: p in names then m
    else
      var p :| p in m && p !in names;
      Restrict(m[p := 0], names)
  }

  /** `p` was requested more often than `q`, or as often and comes first by text. */
  ghost predicate Outranks(m: multiset<string>, p: string, q: string)
  {
    m[p] > m[q] || (m[p] == m[q] && InTextOrder(p, q))
  }

  ghost predicate KeepsBusiest(m: multiset<string>, kept: multiset<string>)
  {
    forall p, q | p in kept && q in m && q !in kept :: Outranks(m, p, q)
  }

  lemma RankedOutranks(m: multiset<string>, among: set<string>, limit: nat, p: string, q: string)
    requires p in Ranked(m, among, limit) && q in among && q !in Ranked(m, among, limit)
    ensures Outranks(m, p, q)
  {
    LessIsTextOrder(p, q);
    BeforeIsStrictAndTotal(m, p, q);
    if Before(m, q, p) {
      forall r | r in Ahead(m, among, q) ensures r in Ahead(m, among, p) {
        BeforeIsTransitive(m, r, q, p);
      }
      SubsetSize(Ahead(m, among, q), Ahead(m, among, p));
    }
  }

  /** The rows that stay are the best 500, with their counts unchanged: no dropped path was requested more often than a
      kept one, and among those requested as often the kept ones come first in the text order. */
  lemma TopIsKept(m: multiset<string>)
    ensures KeepTop(m) <= m
    ensures |Names(KeepTop(m))| == if |Names(m)| < 500 then |Names(m)| else 500
    ensures forall p | p in KeepTop(m) :: KeepTop(m)[p] == m[p]
    ensures KeepsBusiest(m, KeepTop(m))
  {
    var kept := Ranked(m, Names(m), MAX_PATHS_PER_BUCKET);
    RankedCount(m, Names(m), MAX_PATHS_PER_BUCKET);
    assert Names(KeepTop(m)) == kept;
    forall p, q | p in KeepTop(m) && q in m && q !in KeepTop(m) ensures Outranks(m, p, q) {
      assert p in kept && q !in kept && q in Names(m);
      RankedOutranks(m, Names(m), MAX_PATHS_PER_BUCKET, p, q);
    }
  }

  lemma SubsetSize<T>(a: set<T>, b: set<T>)
    requires a <= b
    ensures |a| <= |b|
  {
    assert b == a + (b - a);
  }

  /** A bucket with few paths loses nothing. */
  lemma SmallTableIsKept(m: multiset<string>)
    requires |Names(m)| <= 500
    ensures KeepTop(m) == m
  {
    forall p | p in m ensures p in Ranked(m, Names(m), MAX_PATHS_PER_BUCKET) {
      BeforeIsStrictAndTotal(m, p, p);
      assert Ahead(m, Names(m), p) <= Names(m) - {p};
      SubsetSize(Ahead(m, Names(m), p), Names(m) - {p});
    }
  }

  lemma FewerNames(a: multiset<string>, b: multiset<string>)
    requires a <= b
    ensures |Names(a)| <= |Names(b)|
  {
    SubsetSize(Names(a), Names(b));
  }

  /** The DELETE statement, row by row. */
  method DeleteOutranked(m: multiset<string>) returns (left: multiset<string>)
    ensures left == KeepTop(m) && KeepsBusiest(m, left)
  {
    var kept := Ranked(m, Names(m), MAX_PATHS_PER_BUCKET);
    left := m;
    var doomed := Names(m) - kept;
    while doomed != {}
      invariant doomed <= Names(m) - kept
      invariant forall p :: left[p] == if p in Names(m) - kept && p !in doomed then 0 else m[p]
      decreases |doomed|
    {
      var p :| p in doomed;
      left := left[p := 0];
      doomed := doomed - {p};
    }
    assert forall p :: left[p] == KeepTop(m)[p];
    assert left == KeepTop(m);
    TopIsKept(m);
  }
}
