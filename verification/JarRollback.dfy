/** Replacing JAR files, and undoing it (src/api.rs:3535-3702, 3788-3885, 3935-3940). */
module JarRollback {
  import opened Text
  import opened LogLines
  import opened Trees
  import opened ContentsFirst
  import opened Removal
  import opened CopySnapshots

  type Content = seq<Byte>

  /** The part of the file system the operations touch; destinations are taken to be no links. */
  datatype Disk = Disk(files: map<Path, Content>, dirs: set<Path>)

  ghost predicate Sound(d: Disk)
  {
    && [] in d.dirs
    && (forall p | p in d.files :: p !in d.dirs)
    && (forall p, n | (p in d.files || p in d.dirs) && 0 <= n < |p| :: p[..n] in d.dirs)
  }

  datatype HostPath = Absolute(path: Path) | Relative(path: Path)
  datatype JarMount = JarMount(service: string, host: HostPath, basename: string)
  datatype Jar = Jar(name: string, content: Content)
  datatype Saved = Saved(file: string, dest: Path, backupFile: string)
  type Store = map<string, Content>

  function Resolve(live: Path, host: HostPath): Path
  {
    match host
    case Absolute(path) => path
    case Relative(path) => live + path
  }

  function Matches(name: string, mounts: seq<JarMount>): seq<JarMount>
  {
    if mounts == [] then []
    else Matches(name, Init(mounts)) + if Last(mounts).basename == name then [Last(mounts)] else []
  }

  /** Where a JAR goes: to every mount of that file name, or else to "jars" if that is a directory, or else to the top. */
  function JarTargets(d: Disk, live: Path, name: string, mounts: seq<JarMount>): (dests: seq<Path>)
  {
    var matches := Matches(name, mounts);
    if matches == [] then [if live + ["jars"] in d.dirs then live + ["jars", name] else live + [name]]
    else seq(|matches|, i requires 0 <= i < |matches| => Resolve(live, matches[i].host))
  }

  lemma {:induction false} MatchesHas(name: string, mounts: seq<JarMount>)
    ensures forall m :: m in Matches(name, mounts) <==> m in mounts && m.basename == name
  {
    if mounts != [] {
      MatchesHas(name, Init(mounts));
      assert mounts == Init(mounts) + [Last(mounts)];
    }
  }

  /** `dest` is where some mount of that file name puts it: an absolute host path as it is, another below the project. */
  ghost predicate MountedAt(live: Path, name: string, mounts: seq<JarMount>, dest: Path)
  {
    exists m | m in mounts && m.basename == name ::
      (m.host.Absolute? && dest == m.host.path) || (m.host.Relative? && dest == live + m.host.path)
  }

  ghost predicate IsMounted(name: string, mounts: seq<JarMount>)
  {
    exists m | m in mounts :: m.basename == name
  }

  /** The destinations are those of all mounts of that file name and no others; without a mount there is one: in "jars"
      if that is a directory, else at the top. */
  lemma WhereJarsGo(d: Disk, live: Path, name: string, mounts: seq<JarMount>, dest: Path)
    ensures IsMounted(name, mounts) ==> (dest in JarTargets(d, live, name, mounts) <==> MountedAt(live, name, mounts, dest))
    ensures !IsMounted(name, mounts) ==>
      (dest in JarTargets(d, live, name, mounts) <==> dest == if live + ["jars"] in d.dirs then live + ["jars", name] else live + [name])
  {
    MatchesHas(name, mounts);
    var matches := Matches(name, mounts);
    assert matches != [] ==> matches[0] in matches;
    if IsMounted(name, mounts) {
      var m :| m in mounts && m.basename == name;
      assert m in matches;
      if MountedAt(live, name, mounts, dest) {
        var n :| n in mounts && n.basename == name && ((n.host.Absolute? && dest == n.host.path) || (n.host.Relative? && dest == live + n.host.path));
        var i :| 0 <= i < |matches| && matches[i] == n;
        assert JarTargets(d, live, name, mounts)[i] == dest;
      }
      if dest in JarTargets(d, live, name, mounts) {
        var i :| 0 <= i < |matches| && JarTargets(d, live, name, mounts)[i] == dest;
        assert matches[i] in matches;
      }
    }
  }

  /** A place where one of the JARs may go. */
  ghost predicate Meant(live: Path, jars: seq<Jar>, mounts: seq<JarMount>, dest: Path)
  {
    exists jar | jar in jars :: MeantFor(live, jar.name, mounts, dest)
  }

  ghost predicate MeantFor(live: Path, name: string, mounts: seq<JarMount>, dest: Path)
  {
    MountedAt(live, name, mounts, dest) || (!IsMounted(name, mounts) && (dest == live + ["jars", name] || dest == live + [name]))
  }

  // ----- names of backup files

  function Decimal(n: nat): (s: string)
    ensures s != "" && forall c | c in s :: '0' <= c <= '9'
  {
    var digit := [(n % 10 + 48) as char];
    if n < 10 then digit else Decimal(n / 10) + digit
  }

  function Pad4(n: nat): (s: string)
    ensures s != "" && forall c | c in s :: '0' <= c <= '9'
  {
    var s := Decimal(n);
    if |s| == 1 then "000" + s else if |s| == 2 then "00" + s else if |s| == 3 then "0" + s else s
  }

  function Value(s: string): int
  {
    if s == "" then 0 else 10 * Value(Init(s)) + (Last(s) as int - 48)
  }

  lemma {:induction false} ValueOfDecimal(n: nat)
    ensures Value(Decimal(n)) == n
  {
    var digit := [(n % 10 + 48) as char];
    if n >= 10 {
      ValueOfDecimal(n / 10);
      assert Init(Decimal(n / 10) + digit) == Decimal(n / 10);
    }
  }

  lemma {:induction false} LeadingZero(s: string)
    ensures Value("0" + s) == Value(s)
  {
    if s != "" {
      LeadingZero(Init(s));
      assert Init("0" + s) == "0" + Init(s);
    }
  }

  lemma ValueOfPad4(n: nat)
    ensures Value(Pad4(n)) == n
  {
    var s := Decimal(n);
    ValueOfDecimal(n);
    LeadingZero(s);
    LeadingZero("0" + s);
    LeadingZero("00" + s);
    assert "0" + ("0" + s) == "00" + s && "0" + ("00" + s) == "000" + s;
  }

  lemma {:induction false} CutAtDash(a: string, b: string, c: string, d: string)
    requires '-' !in a && '-' !in c && a + "-" + b == c + "-" + d
    ensures a == c && b == d
  {
    var s := a + "-" + b;
    assert s[|a|] == '-' && s[|c|] == '-';
    assert forall i | 0 <= i < |a| :: s[i] == a[i] && a[i] in a;
    assert forall i | 0 <= i < |c| :: s[i] == c[i] && c[i] in c;
    assert |a| == |c|;
    assert a == s[..|a|] && c == s[..|c|] && b == s[|a| + 1..] && d == s[|c| + 1..];
  }

  /** "{jar:04}-{dest:04}-{name}" */
  function BackupName(i: nat, j: nat, name: string): string
  {
    Pad4(i) + "-" + (Pad4(j) + "-" + name)
  }

  lemma BackupNamesDiffer(i: nat, j: nat, name: string, k: nat, l: nat, other: string)
    requires BackupName(i, j, name) == BackupName(k, l, other)
    ensures i == k && j == l && name == other
  {
    CutAtDash(Pad4(i), Pad4(j) + "-" + name, Pad4(k), Pad4(l) + "-" + other);
    CutAtDash(Pad4(j), name, Pad4(l), other);
    ValueOfPad4(i);
    ValueOfPad4(k);
    ValueOfPad4(j);
    ValueOfPad4(l);
  }

  /** What safe_filename accepts unchanged: no separators or NUL, no outer white space, no dot names. */
  predicate SafeName(name: string)
  {
    && name != "" && name != "." && name != ".."
    && '/' !in name && '\\' !in name && '\0' !in name
    && !IsSpace(name[0]) && !IsSpace(name[|name| - 1])
  }

  lemma BackupNameIsSafe(i: nat, j: nat, name: string)
    requires SafeName(name)
    ensures SafeName(BackupName(i, j, name))
  {
    var s := BackupName(i, j, name);
    assert s[0] == Pad4(i)[0] && s[0] in Pad4(i);
    assert s[|s| - 1] == name[|name| - 1];
    assert '-' in s;
  }

  // ----- saving, deploying, restoring

  /** Every saved entry has its own name and holds what its destination held. */
  ghost predicate Faithful(d: Disk, saved: seq<Saved>, store: Store)
  {
    && (forall s | s in saved :: s.backupFile in store && s.dest in d.files && store[s.backupFile] == d.files[s.dest])
    && (forall a, b | 0 <= a < b < |saved| :: saved[a].backupFile != saved[b].backupFile)
  }

  /** The restore accepts every name. */
  ghost predicate SafelyNamed(saved: seq<Saved>)
  {
    forall s | s in saved :: SafeName(s.backupFile)
  }

  /** Every one of the first `n` destinations that is a file was saved. */
  ghost predicate Covers(d: Disk, saved: seq<Saved>, dests: seq<Path>, n: nat)
  {
    n <= |dests| && forall j | 0 <= j < n && dests[j] in d.files :: Holds(saved, dests[j])
  }

  ghost predicate Holds(saved: seq<Saved>, dest: Path)
  {
    exists s | s in saved :: s.dest == dest
  }

  lemma HoldsAppend(saved: seq<Saved>, s: Saved)
    ensures forall dest | Holds(saved, dest) :: Holds(saved + [s], dest)
    ensures Holds(saved + [s], s.dest)
  {
    forall dest | Holds(saved, dest) ensures Holds(saved + [s], dest) {
      var old' :| old' in saved && old'.dest == dest;
      assert old' in saved + [s];
    }
    assert s in saved + [s];
  }

  /** One file put aside under a name not used before. */
  lemma SaveOne(d: Disk, saved: seq<Saved>, store: Store, s: Saved)
    requires Faithful(d, saved, store) && s.dest in d.files
    requires forall old' | old' in saved :: old'.backupFile != s.backupFile
    ensures Faithful(d, saved + [s], store[s.backupFile := d.files[s.dest]])
  {
  }

  /** A name given out for an earlier pair of loop counters. */
  ghost predicate Early(file: string, i: nat, j: nat)
  {
    exists k: nat, l: nat, name :: (k < i || (k == i && l < j)) && file == BackupName(k, l, name)
  }

  ghost predicate NamedBefore(saved: seq<Saved>, i: nat, j: nat)
  {
    forall s | s in saved :: Early(s.backupFile, i, j)
  }

  lemma EarlyNameDiffers(file: string, i: nat, j: nat, name: string)
    requires Early(file, i, j)
    ensures file != BackupName(i, j, name)
  {
    var k: nat, l: nat, other :| (k < i || (k == i && l < j)) && file == BackupName(k, l, other);
    if file == BackupName(i, j, name) {
      BackupNamesDiffer(i, j, name, k, l, other);
    }
  }

  lemma EarlierIsEarly(file: string, i: nat, j: nat, i': nat, j': nat)
    requires Early(file, i, j) && (i < i' || (i == i' && j <= j'))
    ensures Early(file, i', j')
  {
    var k: nat, l: nat, other :| (k < i || (k == i && l < j)) && file == BackupName(k, l, other);
  }

  lemma NamedLater(saved: seq<Saved>, i: nat, j: nat, i': nat, j': nat)
    requires NamedBefore(saved, i, j) && (i < i' || (i == i' && j <= j'))
    ensures NamedBefore(saved, i', j')
  {
    forall s | s in saved ensures Early(s.backupFile, i', j') {
      EarlierIsEarly(s.backupFile, i, j, i', j');
    }
  }

  lemma SaveNext(d: Disk, saved: seq<Saved>, store: Store, i: nat, j: nat, s: Saved, name: string)
    requires SafeName(name) && Faithful(d, saved, store) && SafelyNamed(saved) && NamedBefore(saved, i, j)
    requires s.dest in d.files && s.backupFile == BackupName(i, j, name)
    ensures Faithful(d, saved + [s], store[s.backupFile := d.files[s.dest]]) && SafelyNamed(saved + [s]) && NamedBefore(saved + [s], i, j + 1)
    ensures Holds(saved + [s], s.dest) && forall dest | Holds(saved, dest) :: Holds(saved + [s], dest)
  {
    forall old' | old' in saved ensures old'.backupFile != s.backupFile {
      EarlyNameDiffers(old'.backupFile, i, j, name);
    }
    BackupNameIsSafe(i, j, name);
    SaveOne(d, saved, store, s);
    HoldsAppend(saved, s);
    NamedLater(saved, i, j, i, j + 1);
    assert Early(s.backupFile, i, j + 1);
  }

  /** The loop over the destinations of JAR number `i`, after the first `j`. */
  ghost predicate Saving(d: Disk, dests: seq<Path>, i: nat, j: nat, before: seq<Saved>, saved: seq<Saved>, store: Store)
  {
    && Faithful(d, saved, store) && SafelyNamed(saved) && NamedBefore(saved, i, j)
    && (forall dest | Holds(before, dest) :: Holds(saved, dest))
    && Covers(d, saved, dests, j)
    && (forall s | s in saved :: s in before || s.dest in dests)
  }

  lemma SavingSkips(d: Disk, dests: seq<Path>, i: nat, j: nat, before: seq<Saved>, saved: seq<Saved>, store: Store)
    requires Saving(d, dests, i, j, before, saved, store) && j < |dests| && dests[j] !in d.files
    ensures Saving(d, dests, i, j + 1, before, saved, store)
  {
    NamedLater(saved, i, j, i, j + 1);
  }

  lemma SavingSaves(d: Disk, dests: seq<Path>, i: nat, j: nat, before: seq<Saved>, saved: seq<Saved>, store: Store, s: Saved, name: string)
    requires Saving(d, dests, i, j, before, saved, store) && j < |dests| && s.dest == dests[j] && s.dest in d.files
    requires SafeName(name) && s.backupFile == BackupName(i, j, name)
    ensures Saving(d, dests, i, j + 1, before, saved + [s], store[s.backupFile := d.files[s.dest]])
  {
    SaveNext(d, saved, store, i, j, s, name);
  }

  /** The destinations of one JAR. */
  method BackupJar(d: Disk, dests: seq<Path>, i: nat, name: string, before: seq<Saved>, kept: Store) returns (saved: seq<Saved>, store: Store)
    requires SafeName(name) && Faithful(d, before, kept) && SafelyNamed(before) && NamedBefore(before, i, 0)
    ensures Saving(d, dests, i, |dests|, before, saved, store)
  {
    saved, store := before, kept;
    for j := 0 to |dests|
      invariant Saving(d, dests, i, j, before, saved, store)
    {
      var dest := dests[j];
      if dest in d.files {
        var s := Saved(name, dest, BackupName(i, j, name));
        SavingSaves(d, dests, i, j, before, saved, store, s, name);
        saved, store := saved + [s], store[s.backupFile := d.files[dest]];
      } else {
        SavingSkips(d, dests, i, j, before, saved, store);
      }
    }
  }

  ghost predicate Targeted(d: Disk, live: Path, jars: seq<Jar>, mounts: seq<JarMount>, dest: Path)
  {
    exists jar | jar in jars :: dest in JarTargets(d, live, jar.name, mounts)
  }

  /** Before a replacement: every existing file that is about to be overwritten is copied away. */
  method BackupReplaced(d: Disk, live: Path, jars: seq<Jar>, mounts: seq<JarMount>) returns (saved: seq<Saved>, store: Store)
    requires forall jar | jar in jars :: SafeName(jar.name)
    ensures Faithful(d, saved, store) && SafelyNamed(saved)
    ensures forall i | 0 <= i < |jars| ::
              var dests := JarTargets(d, live, jars[i].name, mounts); Covers(d, saved, dests, |dests|)
    ensures forall s | s in saved :: Targeted(d, live, jars, mounts, s.dest)
  {
    saved, store := [], map[];
    for i := 0 to |jars|
      invariant Faithful(d, saved, store) && SafelyNamed(saved) && NamedBefore(saved, i, 0)
      invariant forall k | 0 <= k < i ::
                  var dests := JarTargets(d, live, jars[k].name, mounts); Covers(d, saved, dests, |dests|)
      invariant forall s | s in saved :: Targeted(d, live, jars, mounts, s.dest)
    {
      assert jars[i] in jars;
      var dests := JarTargets(d, live, jars[i].name, mounts);
      saved, store := BackupJar(d, dests, i, jars[i].name, saved, store);
      NamedLater(saved, i, |dests|, i + 1, 0);
    }
  }

  /** "create_dir_all" of the parent, then the copy. */
  function Write(d: Disk, dest: Path, content: Content): Option<Disk>
  {
    if dest in d.dirs || exists n | 0 <= n < |dest| :: dest[..n] in d.files then None
    else Some(Disk(d.files[dest := content], d.dirs + set n | 0 <= n < |dest| :: dest[..n]))
  }

  lemma WriteIsSound(d: Disk, dest: Path, content: Content)
    requires Sound(d)
    ensures Write(d, dest, content).Some? ==> Sound(Write(d, dest, content).value)
    ensures dest in d.files ==> Write(d, dest, content).Some?
  {
    if Write(d, dest, content).Some? {
      var after := Write(d, dest, content).value;
      forall p, n | (p in after.files || p in after.dirs) && 0 <= n < |p| ensures p[..n] in after.dirs {
        if p in after.dirs && p !in d.dirs {
          var m :| 0 <= m < |dest| && dest[..m] == p;
          assert dest[..m][..n] == dest[..n];
        }
      }
    }
  }

  /** The parent directories a deployment creates can turn "jars" into a directory, and later files then go there:
      but never over a file that was not among the destinations before. */
  lemma TargetsDrift(d: Disk, now: Disk, live: Path, name: string, mounts: seq<JarMount>)
    requires Sound(d) && d.dirs <= now.dirs
    ensures forall dest | dest in JarTargets(now, live, name, mounts) && dest in d.files :: dest in JarTargets(d, live, name, mounts)
  {
    var inJars := live + ["jars", name];
    if Matches(name, mounts) == [] && inJars in d.files {
      assert inJars[..|live| + 1] == live + ["jars"];
    }
  }

  /** Existing files are only overwritten where they were destinations, and new ones are only where a JAR may go. */
  ghost predicate Deployed(d: Disk, live: Path, jars: seq<Jar>, mounts: seq<JarMount>, now: Disk)
  {
    && (forall p | p in d.files :: p in now.files &&
          (now.files[p] == d.files[p] || exists jar | jar in jars :: p in JarTargets(d, live, jar.name, mounts)))
    && (forall p | p in now.files && p !in d.files :: Meant(live, jars, mounts, p))
  }

  lemma DeployedByWrite(d: Disk, before: Disk, now: Disk, live: Path, jars: seq<Jar>, mounts: seq<JarMount>, jar: Jar, dest: Path, content: Content)
    requires Sound(d) && d.dirs <= before.dirs && Deployed(d, live, jars, mounts, now) && jar in jars
    requires dest in JarTargets(before, live, jar.name, mounts) && Write(now, dest, content).Some?
    ensures Deployed(d, live, jars, mounts, Write(now, dest, content).value)
  {
    WhereJarsGo(before, live, jar.name, mounts, dest);
    TargetsDrift(d, before, live, jar.name, mounts);
    assert MeantFor(live, jar.name, mounts, dest);
  }

  /** A destination of JAR number `i` holds that JAR, or one of those up to `n` that came after it. */
  ghost predicate Placed(now: Disk, jars: seq<Jar>, i: nat, n: nat, dest: Path)
  {
    dest in now.files && exists k | i <= k < n <= |jars| :: now.files[dest] == jars[k].content
  }

  ghost predicate Written(d: Disk, now: Disk, live: Path, jars: seq<Jar>, mounts: seq<JarMount>, i: nat, n: nat)
    requires i < |jars|
  {
    var name := jars[i].name;
    if Matches(name, mounts) == [] then
      Placed(now, jars, i, n, live + ["jars", name]) || (live + ["jars"] !in d.dirs && Placed(now, jars, i, n, live + [name]))
    else forall dest | dest in JarTargets(now, live, name, mounts) :: Placed(now, jars, i, n, dest)
  }

  lemma StillPlaced(now: Disk, jars: seq<Jar>, i: nat, n: nat, m: nat, dest: Path, written: Path)
    requires Placed(now, jars, i, n, dest) && i <= m < |jars| && n <= m + 1
    requires Write(now, written, jars[m].content).Some?
    ensures Placed(Write(now, written, jars[m].content).value, jars, i, m + 1, dest)
  {
    var k :| i <= k < n && now.files[dest] == jars[k].content;
    if dest == written {
      assert Write(now, written, jars[m].content).value.files[dest] == jars[m].content;
    } else {
      assert Write(now, written, jars[m].content).value.files[dest] == jars[k].content;
    }
  }

  lemma StillWritten(d: Disk, now: Disk, live: Path, jars: seq<Jar>, mounts: seq<JarMount>, i: nat, n: nat, m: nat, dest: Path)
    requires i < m < |jars| && n <= m + 1 && Written(d, now, live, jars, mounts, i, n)
    requires Write(now, dest, jars[m].content).Some?
    ensures Written(d, Write(now, dest, jars[m].content).value, live, jars, mounts, i, m + 1)
  {
    var after, name := Write(now, dest, jars[m].content).value, jars[i].name;
    forall p | Placed(now, jars, i, n, p) ensures Placed(after, jars, i, m + 1, p) {
      StillPlaced(now, jars, i, n, m, p, dest);
    }
    if Matches(name, mounts) != [] {
      assert JarTargets(after, live, name, mounts) == JarTargets(now, live, name, mounts);
      forall p | p in JarTargets(after, live, name, mounts) ensures Placed(after, jars, i, m + 1, p) {
        assert Placed(now, jars, i, n, p);
      }
    }
  }

  /** Writing the new files, one destination after the other; a failure stops it anywhere, even inside a copy. */
  method DeployJars(d: Disk, live: Path, jars: seq<Jar>, mounts: seq<JarMount>) returns (now: Disk, ok: bool)
    requires Sound(d)
    ensures Sound(now) && d.dirs <= now.dirs
    ensures Deployed(d, live, jars, mounts, now)
    ensures ok ==> forall i | 0 <= i < |jars| :: Written(d, now, live, jars, mounts, i, |jars|)
  {
    now := d;
    for i := 0 to |jars|
      invariant Sound(now) && d.dirs <= now.dirs && Deployed(d, live, jars, mounts, now)
      invariant forall k | 0 <= k < i :: Written(d, now, live, jars, mounts, k, i)
    {
      now, ok := DeployJar(d, now, live, jars, mounts, i, i + 1);
      if !ok {
        return;
      }
    }
    ok := true;
  }

  /** All destinations of one JAR. */
  method DeployJar(ghost d: Disk, before: Disk, live: Path, jars: seq<Jar>, mounts: seq<JarMount>, i: nat, ghost n: nat)
    returns (now: Disk, ok: bool)
    requires Sound(d) && Sound(before) && d.dirs <= before.dirs && i < n == i + 1 <= |jars| && Deployed(d, live, jars, mounts, before)
    requires forall k | 0 <= k < i :: Written(d, before, live, jars, mounts, k, i)
    ensures Sound(now) && d.dirs <= now.dirs && Deployed(d, live, jars, mounts, now)
    ensures ok ==> forall k | 0 <= k < n :: Written(d, now, live, jars, mounts, k, n)
  {
    var jar := jars[i];
    var dests := JarTargets(before, live, jar.name, mounts);
    now := before;
    ghost var bound := i;
    for j := 0 to |dests|
      invariant Sound(now) && d.dirs <= now.dirs && Deployed(d, live, jars, mounts, now)
      invariant i <= bound <= n && (j > 0 ==> bound == n)
      invariant forall k | 0 <= k < i :: Written(d, now, live, jars, mounts, k, bound)
      invariant forall l | 0 <= l < j :: Placed(now, jars, i, n, dests[l])
    {
      WriteIsSound(now, dests[j], jar.content);
      assert dests[j] in dests && jar in jars;
      var written := Write(now, dests[j], jar.content);
      if written.None? {
        return now, false;
      }
      if * {
        // the copy breaks off and leaves anything in the destination
        var broken: Content := *;
        WriteIsSound(now, dests[j], broken);
        DeployedByWrite(d, before, now, live, jars, mounts, jar, dests[j], broken);
        return Write(now, dests[j], broken).value, false;
      }
      DeployedByWrite(d, before, now, live, jars, mounts, jar, dests[j], jar.content);
      forall k | 0 <= k < i ensures Written(d, written.value, live, jars, mounts, k, n) {
        StillWritten(d, now, live, jars, mounts, k, bound, i, dests[j]);
      }
      forall l | 0 <= l < j ensures Placed(written.value, jars, i, n, dests[l]) {
        StillPlaced(now, jars, i, n, i, dests[l], dests[j]);
      }
      assert written.value.files[dests[j]] == jars[i].content;
      now, bound := written.value, n;
    }
    assert |dests| > 0 && Placed(now, jars, i, n, dests[0]);
    ok := true;
  }

  /** Before a rollback: the same for the destinations recorded in the version to be restored. */
  method BackupDestinations(d: Disk, targets: seq<Saved>) returns (saved: seq<Saved>, store: Store)
    requires forall s | s in targets :: s.dest != []
    ensures Faithful(d, saved, store)
    ensures forall s | s in targets && s.dest in d.files :: Holds(saved, s.dest)
    ensures forall s | s in saved :: Holds(targets, s.dest)
    ensures saved == [] <==> forall s | s in targets :: s.dest !in d.files
    ensures SafelyNamed(saved) <==> forall s | s in targets && s.dest in d.files :: Restorable(Last(s.dest))
    ensures forall s | s in saved :: s.backupFile != ""
  {
    saved, store := [], map[];
    for i := 0 to |targets|
      invariant Faithful(d, saved, store) && NamedShort(saved, i)
      invariant forall s | s in targets[..i] && s.dest in d.files :: Holds(saved, s.dest)
      invariant forall s | s in saved :: Holds(targets, s.dest)
      invariant saved == [] <==> forall s | s in targets[..i] :: s.dest !in d.files
      invariant SafelyNamed(saved) <==> forall s | s in targets[..i] && s.dest in d.files :: Restorable(Last(s.dest))
    {
      var target := targets[i];
      assert target in targets && targets[..i + 1] == targets[..i] + [target];
      if target.dest in d.files {
        var name := Last(target.dest);
        var s := Saved(target.file, target.dest, ShortName(i, name));
        ShortNameIsNew(saved, i, s, name);
        ShortNameIsSafe(i, name);
        SaveOne(d, saved, store, s);
        HoldsAppend(saved, s);
        assert SafelyNamed(saved + [s]) <==> SafelyNamed(saved) && SafeName(s.backupFile) by {
          assert s in saved + [s];
        }
        saved, store := saved + [s], store[s.backupFile := d.files[target.dest]];
      }
    }
    assert targets[..|targets|] == targets;
    ShortNamesAreNames(saved, |targets|);
  }

  ghost predicate NamedShort(saved: seq<Saved>, i: nat)
  {
    forall s | s in saved :: ShortBefore(s.backupFile, i)
  }

  ghost predicate ShortBefore(file: string, i: nat)
  {
    exists k: nat, name :: k < i && file == ShortName(k, name)
  }

  lemma ShortNamesAreNames(saved: seq<Saved>, i: nat)
    requires NamedShort(saved, i)
    ensures forall s | s in saved :: s.backupFile != ""
  {
  }

  lemma ShortNameIsNew(saved: seq<Saved>, i: nat, s: Saved, name: string)
    requires NamedShort(saved, i) && s.backupFile == ShortName(i, name)
    ensures forall old' | old' in saved :: old'.backupFile != s.backupFile
    ensures NamedShort(saved + [s], i + 1)
  {
    forall old' | old' in saved ensures old'.backupFile != s.backupFile && ShortBefore(old'.backupFile, i + 1) {
      var k: nat, other :| k < i && old'.backupFile == ShortName(k, other);
      if old'.backupFile == s.backupFile {
        ShortNamesDiffer(i, name, k, other);
      }
    }
    assert ShortBefore(s.backupFile, i + 1);
  }

  /** "{index:04}-{name}" */
  function ShortName(i: nat, name: string): string
  {
    Pad4(i) + "-" + name
  }

  lemma ShortNamesDiffer(i: nat, name: string, k: nat, other: string)
    requires ShortName(i, name) == ShortName(k, other)
    ensures i == k && name == other
  {
    CutAtDash(Pad4(i), name, Pad4(k), other);
    ValueOfPad4(i);
    ValueOfPad4(k);
  }

  /** A file name whose saved copy the restore finds again. */
  predicate Restorable(name: string)
  {
    '/' !in name && '\\' !in name && '\0' !in name && (name == "" || !IsSpace(Last(name)))
  }

  lemma ShortNameIsSafe(i: nat, name: string)
    ensures SafeName(ShortName(i, name)) <==> Restorable(name)
  {
    var s, digits := ShortName(i, name), Pad4(i);
    assert s[0] == digits[0] && s[0] in digits && '-' in s;
    assert s[|s| - 1] == if name == "" then '-' else Last(name);
    forall c | c == '/' || c == '\\' || c == '\0' ensures c in s <==> c in name {
      assert c !in digits;
    }
  }

  /** What copying saved files back does: every destination holds what was saved for it, nothing else changes. */
  ghost predicate Restored(before: Disk, saved: seq<Saved>, store: Store, after: Disk)
  {
    && (forall p | p in before.files && !Holds(saved, p) :: p in after.files && after.files[p] == before.files[p])
    && (forall s | s in saved :: s.dest in after.files && s.backupFile in store && after.files[s.dest] == store[s.backupFile])
    && (forall p | p in after.files :: p in before.files || Holds(saved, p))
  }

  /** How far a restore can have come when it fails: saved destinations may hold anything, all else is as before. */
  ghost predicate Touched(before: Disk, saved: seq<Saved>, after: Disk)
  {
    && (forall p | p in before.files :: p in after.files && (!Holds(saved, p) ==> after.files[p] == before.files[p]))
    && (forall p | p in after.files :: p in before.files || Holds(saved, p))
  }

  lemma TouchedByWrite(before: Disk, saved: seq<Saved>, after: Disk, s: Saved, content: Content)
    requires Touched(before, saved, after) && s in saved && Write(after, s.dest, content).Some?
    ensures Touched(before, saved, Write(after, s.dest, content).value)
  {
  }

  /** The restore loop. It cannot be refused where all destinations still exist; a copy may still break off. */
  method RestoreJarBackup(before: Disk, saved: seq<Saved>, store: Store, ghost origin: Disk) returns (after: Disk, ok: bool, broken: bool)
    requires Sound(before) && Faithful(origin, saved, store)
    ensures Sound(after) && Touched(before, saved, after)
    ensures ok ==> Restored(before, saved, store, after)
    ensures ok ==> !broken && SafelyNamed(saved)
    ensures (forall s | s in saved :: s.dest in before.files) && SafelyNamed(saved) ==> ok || broken
  {
    after, ok, broken := before, true, false;
    for i := 0 to |saved|
      invariant !broken && Sound(after) && Touched(before, saved, after)
      invariant Restored(before, saved[..i], store, after) && SafelyNamed(saved[..i])
    {
      var s := saved[i];
      SafelyNamedStep(saved, i);
      if !SafeName(s.backupFile) || s.backupFile !in store {
        return after, false, false;
      }
      broken := *;
      var content := store[s.backupFile];
      if broken {
        content := *;
      }
      RestoreStep(before, saved, store, after, origin, i, content);
      var written := Write(after, s.dest, content);
      if written.None? {
        return after, false, false;
      }
      if broken {
        return written.value, false, true;
      }
      after := written.value;
    }
    assert saved[..|saved|] == saved;
  }

  lemma SafelyNamedStep(saved: seq<Saved>, i: nat)
    requires i < |saved| && SafelyNamed(saved[..i])
    ensures SafelyNamed(saved[..i + 1]) <==> SafeName(saved[i].backupFile)
    ensures SafelyNamed(saved) ==> SafeName(saved[i].backupFile)
  {
    assert saved[..i + 1] == saved[..i] + [saved[i]];
    assert saved[i] in saved && saved[i] in saved[..i + 1];
  }

  /** One turn of the restore, with what was saved or with anything. */
  lemma RestoreStep(before: Disk, saved: seq<Saved>, store: Store, after: Disk, origin: Disk, i: nat, content: Content)
    requires i < |saved| && Faithful(origin, saved, store)
    requires Sound(after) && Touched(before, saved, after) && Restored(before, saved[..i], store, after)
    ensures var written := Write(after, saved[i].dest, content);
      && (written.Some? ==> Sound(written.value) && Touched(before, saved, written.value))
      && (written.Some? && content == store[saved[i].backupFile] ==> Restored(before, saved[..i + 1], store, written.value))
      && (saved[i].dest in before.files ==> written.Some?)
  {
    var s := saved[i];
    assert s in saved && saved[..i + 1] == saved[..i] + [s];
    WriteIsSound(after, s.dest, content);
    if Write(after, s.dest, content).Some? {
      TouchedByWrite(before, saved, after, s, content);
      if content == store[s.backupFile] {
        RestoreOneMore(before, saved[..i], store, after, s, origin);
      }
    }
  }

  lemma RestoreOneMore(before: Disk, done: seq<Saved>, store: Store, after: Disk, s: Saved, origin: Disk)
    requires Restored(before, done, store, after)
    requires forall other | other in done + [s] ::
               other.backupFile in store && other.dest in origin.files && store[other.backupFile] == origin.files[other.dest]
    requires Write(after, s.dest, store[s.backupFile]).Some?
    ensures Restored(before, done + [s], store, Write(after, s.dest, store[s.backupFile]).value)
  {
    HoldsAppend(done, s);
    assert s in done + [s];
    assert forall other | other in done :: other in done + [s];
    assert forall p :: Holds(done + [s], p) ==> Holds(done, p) || p == s.dest;
  }

  /** Replace, then roll back: whatever the deployment did, and however far it got, every file that existed
      before has its old content again; only files it newly created remain. */
  lemma ReplaceIsUndone(d: Disk, live: Path, jars: seq<Jar>, mounts: seq<JarMount>, saved: seq<Saved>, store: Store, deployed: Disk, undone: Disk)
    requires Faithful(d, saved, store)
    requires forall i | 0 <= i < |jars| :: var dests := JarTargets(d, live, jars[i].name, mounts); Covers(d, saved, dests, |dests|)
    requires Deployed(d, live, jars, mounts, deployed) && Restored(deployed, saved, store, undone)
    ensures forall p | p in d.files :: p in undone.files && undone.files[p] == d.files[p]
    ensures undone.files.Keys == deployed.files.Keys
    ensures forall p | p in undone.files && p !in d.files :: undone.files[p] == deployed.files[p]
  {
    forall jar, p | jar in jars && p in JarTargets(d, live, jar.name, mounts) && p in d.files ensures Holds(saved, p) {
      var i :| 0 <= i < |jars| && jars[i] == jar;
      var dests := JarTargets(d, live, jars[i].name, mounts);
      assert Covers(d, saved, dests, |dests|);
    }
    assert forall p | Holds(saved, p) :: p in d.files;
  }

  /** Roll back to a saved version, then roll back to the safety version made on the way: every file that existed
      before the first rollback has its content back, even if that rollback failed half-way. */
  lemma RollbackIsUndone(d: Disk, target: seq<Saved>, safety: seq<Saved>, safetyStore: Store, rolledBack: Disk, undone: Disk)
    requires Faithful(d, safety, safetyStore)
    requires forall s | s in target && s.dest in d.files :: Holds(safety, s.dest)
    requires Touched(d, target, rolledBack) && Restored(rolledBack, safety, safetyStore, undone)
    ensures forall p | p in d.files :: p in undone.files && undone.files[p] == d.files[p]
    ensures forall p | p in undone.files :: p in d.files || Holds(target, p)
  {
    assert forall p | p in d.files && Holds(target, p) :: Holds(safety, p);
    assert forall p | Holds(safety, p) :: p in d.files;
  }

  /** The whole of a replacement and the rollback to the version it saved. The rollback is never refused, and unless
      one of its own copies breaks off, every file that existed before has its old content, whatever became of the
      deployment. */
  method ReplaceAndRollBack(d: Disk, live: Path, jars: seq<Jar>, mounts: seq<JarMount>) returns (deployed: Disk, undone: Disk, broken: bool)
    requires Sound(d) && forall jar | jar in jars :: SafeName(jar.name)
    ensures Deployed(d, live, jars, mounts, deployed)
    ensures !broken ==> forall p | p in d.files :: p in undone.files && undone.files[p] == d.files[p]
    ensures !broken ==> forall p | p in undone.files && p !in d.files :: p in deployed.files && undone.files[p] == deployed.files[p]
  {
    var saved, store := BackupReplaced(d, live, jars, mounts);
    var done;
    deployed, done := DeployJars(d, live, jars, mounts);
    var ok;
    undone, ok, broken := RestoreJarBackup(deployed, saved, store, d);
    if ok {
      ReplaceIsUndone(d, live, jars, mounts, saved, store, deployed, undone);
    }
  }

  /** The whole of a rollback to saved JARs and of the rollback of that rollback. Unless one of its copies breaks off,
      the second is refused exactly if the name of an existing destination contains a backslash, which the restore
      does not accept, or ends in white space, which it trims; otherwise every file is as it was. */
  method RollBackTwice(d: Disk, target: seq<Saved>, targetStore: Store, ghost origin: Disk)
    returns (rolledBack: Disk, undone: Disk, done: bool, broken: bool)
    requires Sound(d) && Faithful(origin, target, targetStore)
    requires forall s | s in target :: s.dest != []
    ensures !broken ==> (done <==> forall s | s in target && s.dest in d.files :: Restorable(Last(s.dest)))
    ensures done ==> forall p | p in d.files :: p in undone.files && undone.files[p] == d.files[p]
  {
    var safety, safetyStore := BackupDestinations(d, target);
    var ok, half;
    rolledBack, ok, half := RestoreJarBackup(d, target, targetStore, origin);
    undone, done, broken := RestoreJarBackup(rolledBack, safety, safetyStore, d);
    if done {
      RollbackIsUndone(d, target, safety, safetyStore, rolledBack, undone);
    }
  }

  // ----- which way a rollback goes

  datatype Version = Version(kind: string, jars: seq<Saved>)

  /** The dispatch of a rollback request: back-copied JARs, or the whole directory. */
  predicate TakesJarPath(v: Version)
  {
    v.kind == "pre-replace" && v.jars != [] && forall s | s in v.jars :: s.backupFile != ""
  }

  /** The safety version of a JAR rollback can itself be rolled back to as JARs only if one of the destinations
      existed when it was made. */
  lemma SafetyVersionPath(d: Disk, target: seq<Saved>, safety: seq<Saved>, store: Store)
    requires Faithful(d, safety, store) && forall s | s in safety :: s.backupFile != ""
    requires safety == [] <==> forall s | s in target :: s.dest !in d.files
    ensures TakesJarPath(Version("pre-replace", safety)) <==> exists s | s in target :: s.dest in d.files
  {
  }

  lemma NothingToCopy(live: Tree)
    ensures Fits(map[], live) && CopyOver(map[], live) == live
  {
    assert Copied(map[]) == map[];
  }

  /** If none existed, its backup directory is empty and restored as a directory: nothing of the project is left
      but what backups skip and what is listed behind it. */
  lemma EmptySafetyVersionErasesProject(live: Tree, listing: Listing)
    requires WellFormed(live) && Lists(live, listing)
    ensures Fits(map[], live) && CopyOver(map[], live) == live
    ensures forall p | p in Visible(live) :: p in WithoutExtras(live, {}, listing) <==> !Reached(live, listing, p[..1])
    ensures Visible(WithoutExtras(live, {}, listing)) == map[] <==> AllFound(live, {}, listing)
    ensures NoneSkipped(live) ==> Visible(WithoutExtras(live, {}, listing)) == map[]
  {
    NothingToCopy(live);
    ClosedKeepsExactly(live, {}, listing);
    assert AsKept(live, {}) == map[];
    forall p | p in Visible(live) ensures p in WithoutExtras(live, {}, listing) <==> !Reached(live, listing, p[..1]) {
      NoDirectoriesKept(live, {}, listing, p);
    }
    if NoneSkipped(live) {
      NothingIsLate(live, {}, listing);
    }
  }
}
