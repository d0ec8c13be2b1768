/** The table of loaded libraries and the recursive loading of their dependencies. */
module Libraries {
  import opened Words

  const NUM_LIBS: nat := 256

  // -------------------------------------------------------------------- names

  /** A path without its trailing slashes. */
  function TrimSlashes(p: string): (r: string)
    ensures r != "" ==> r[|r| - 1] != '/'
  {
    if p != "" && p[|p| - 1] == '/' then TrimSlashes(p[..|p| - 1]) else p
  }

  /** What follows the last slash. */
  function AfterSlash(p: string): (r: string)
    ensures '/' !in r
    ensures p != "" && p[|p| - 1] != '/' ==> r != ""
    ensures '/' !in p ==> r == p
  {
    if p == "" || p[|p| - 1] == '/' then "" else AfterSlash(p[..|p| - 1]) + [p[|p| - 1]]
  }

  /** The last component of a path, as POSIX `basename` gives it. */
  function Basename(p: string): (r: string)
    ensures r != "" && ('/' !in r || r == "/")
  {
    if p == "" then "."
    else
      var t := TrimSlashes(p);
      if t == "" then "/" else AfterSlash(t)
  }

  /** `n` slashes. */
  function Slashes(n: nat): (s: string)
    ensures |s| == n
  {
    seq(n, _ => '/')
  }

  lemma {:induction false} TrimsSlashes(p: string, n: nat)
    requires p == "" || p[|p| - 1] != '/'
    ensures TrimSlashes(p + Slashes(n)) == p
  {
    if n == 0 {
      assert p + Slashes(0) == p;
    } else {
      assert (p + Slashes(n))[..|p| + n - 1] == p + Slashes(n - 1);
      TrimsSlashes(p, n - 1);
    }
  }

  lemma {:induction false} AfterLastSlash(d: string, f: string)
    requires '/' !in f && (d == "" || d[|d| - 1] == '/')
    ensures AfterSlash(d + f) == f
    decreases |f|
  {
    if f == "" {
      assert d + f == d;
    } else {
      var init := f[..|f| - 1];
      assert f == init + [f[|f| - 1]];
      assert (d + f)[..|d + f| - 1] == d + init;
      assert f[|f| - 1] in f;
      AfterLastSlash(d, init);
    }
  }

  /** The name of a path is its last component, whatever directories stand before it and however many
      slashes behind it.  A path of slashes alone is called by one, and no path at all by a dot. */
  lemma LastComponent(d: string, f: string, n: nat)
    ensures f != "" && '/' !in f && (d == "" || d[|d| - 1] == '/') ==> Basename(d + f + Slashes(n)) == f
    ensures Basename(Slashes(n)) == if n == 0 then "." else "/"
  {
    if f != "" && '/' !in f && (d == "" || d[|d| - 1] == '/') {
      assert f[|f| - 1] in f;
      assert (d + f)[|d + f| - 1] == f[|f| - 1];
      TrimsSlashes(d + f, n);
      AfterLastSlash(d, f);
    }
    TrimsSlashes("", n);
    assert "" + Slashes(n) == Slashes(n);
  }

  function Lower(c: char): char {
    if 'A' <= c <= 'Z' then c - 'A' + 'a' else c
  }

  /** `strcasecmp(a, b) == 0`. */
  predicate CaseEqual(a: string, b: string) {
    |a| == |b| && forall i :: 0 <= i < |a| ==> Lower(a[i]) == Lower(b[i])
  }

  /** Upper and lower case of one ASCII letter. */
  predicate CasePair(a: char, b: char) {
    'A' <= a <= 'Z' && b as int == a as int + 32
  }

  /** Names are equal up to case when they differ in the case of ASCII letters only. */
  lemma CaseEqualMeans(a: string, b: string)
    ensures CaseEqual(a, b) <==>
      |a| == |b| && forall i :: 0 <= i < |a| ==> a[i] == b[i] || CasePair(a[i], b[i]) || CasePair(b[i], a[i])
  {
    forall i | 0 <= i < |a| && i < |b|
      ensures Lower(a[i]) == Lower(b[i]) <==> a[i] == b[i] || CasePair(a[i], b[i]) || CasePair(b[i], a[i])
    {
      LowerMeans(a[i], b[i]);
    }
  }

  lemma LowerMeans(a: char, b: char)
    ensures Lower(a) == Lower(b) <==> a == b || CasePair(a, b) || CasePair(b, a)
  {}

  /** A file name that is a path of its own. */
  lemma BasenameOfName(d: string)
    requires d != "" && ('/' !in d || d == "/")
    ensures Basename(d) == d
  {
    if d == "/" {
      assert d[..0] == "";
      assert TrimSlashes("") == "";
    } else {
      assert d[|d| - 1] in d;
    }
  }

  lemma CaseEqualName(d: string, p: string)
    requires CaseEqual(d, Basename(p))
    ensures Basename(d) == d
  {
    var b := Basename(p);
    if '/' in d {
      var i :| 0 <= i < |d| && d[i] == '/';
      assert Lower(b[i]) == '/';
      assert b[i] == '/';
      assert b == "/";
      assert d == "/";
    }
    BasenameOfName(d);
  }

  // ------------------------------------------------------------------ entries

  /** `depends` stays empty for a library on which the loading gave up early. */
  datatype Library = Library(isPrimary: bool, name: string, path: string, depends: seq<string>)

  /** What opening and reading the file at a path comes to: its list of needed libraries, a missing
      link map (the loader then returns early), or the end of the process. */
  datatype Load = Loaded(depends: seq<string>) | NoLinkMap | Exits

  type Loader = string -> Load

  function DependsOf(load: Loader, path: string): seq<string> {
    if load(path).Loaded? then load(path).depends else []
  }

  /** The first non-primary entry from `k` on with the name, up to case. */
  function FindFrom(entries: seq<Library>, k: nat, name: string): (r: Option<nat>)
    ensures r.Some? ==>
      k <= r.value < |entries| && !entries[r.value].isPrimary && CaseEqual(name, entries[r.value].name)
    ensures r.None? ==> forall l :: k <= l < |entries| && !entries[l].isPrimary ==> !CaseEqual(name, entries[l].name)
    decreases |entries| - k
  {
    if k >= |entries| then None
    else if !entries[k].isPrimary && CaseEqual(name, entries[k].name) then Some(k)
    else FindFrom(entries, k + 1, name)
  }

  /** A dependency is covered by a non-primary entry that has its file name, up to case. */
  predicate CoveredBy(entries: seq<Library>, d: string) {
    exists k :: 0 <= k < |entries| && !entries[k].isPrimary && CaseEqual(Basename(d), entries[k].name)
  }

  /** Every dependency of every entry from `from` on is covered. */
  predicate ClosedFrom(entries: seq<Library>, from: nat) {
    forall k :: from <= k < |entries| ==> AllCovered(entries, entries[k].depends)
  }

  predicate AllCovered(entries: seq<Library>, deps: seq<string>) {
    forall i :: 0 <= i < |deps| ==> CoveredBy(entries, deps[i])
  }

  /** No two non-primary entries have the same name up to case. */
  predicate UniqueNames(entries: seq<Library>) {
    forall k, l :: 0 <= k < l < |entries| && !entries[k].isPrimary && !entries[l].isPrimary ==>
      !CaseEqual(entries[k].name, entries[l].name)
  }

  /** Every entry after `from` was loaded as a dependency of an earlier one. */
  predicate ParentsFrom(entries: seq<Library>, from: nat) {
    forall k :: from < k < |entries| ==> !entries[k].isPrimary && HasParent(entries, from, k)
  }

  predicate HasParent(entries: seq<Library>, from: nat, k: nat)
    requires k < |entries|
  {
    exists j :: from <= j < k && entries[k].path in entries[j].depends
  }

  predicate BaseNames(entries: seq<Library>) {
    forall k :: 0 <= k < |entries| ==> entries[k].name == Basename(entries[k].path)
  }

  /** The entries from `from` on could be loaded and hold the dependencies that their files list. */
  predicate FaithfulFrom(load: Loader, entries: seq<Library>, from: nat) {
    forall k :: from <= k < |entries| ==> Faithful(load, entries[k])
  }

  predicate Faithful(load: Loader, lib: Library) {
    !load(lib.path).Exits? && lib.depends == DependsOf(load, lib.path)
  }

  predicate PlainDeps(deps: seq<string>) {
    forall i :: 0 <= i < |deps| ==> Basename(deps[i]) == deps[i]
  }

  /** The entries from `from` on list their dependencies by bare file names. */
  predicate PlainFrom(entries: seq<Library>, from: nat) {
    forall k :: from <= k < |entries| ==> PlainDeps(entries[k].depends)
  }

  // -------------------------------------------------------------------- table

  /** What loading a path does to the table: `None` when the process ends, because a file cannot be
      loaded or the table is full. */
  function LoadOne(load: Loader, entries: seq<Library>, primary: bool, path: string): (r: Option<seq<Library>>)
    ensures r.Some? ==> |entries| < |r.value| <= NUM_LIBS
    decreases NUM_LIBS - |entries|, 0, 0
  {
    if |entries| >= NUM_LIBS || load(path).Exits? then None
    else LoadAll(load, entries + [Library(primary, Basename(path), path, DependsOf(load, path))], DependsOf(load, path))
  }

  /** The dependencies in turn, each only if no entry has its name. */
  function LoadAll(load: Loader, entries: seq<Library>, deps: seq<string>): (r: Option<seq<Library>>)
    requires |entries| <= NUM_LIBS
    ensures r.Some? ==> |entries| <= |r.value| <= NUM_LIBS
    decreases NUM_LIBS - |entries|, 1, |deps|
  {
    if deps == [] then Some(entries)
    else if FindFrom(entries, 0, deps[0]).Some? then LoadAll(load, entries, deps[1..])
    else
      match LoadOne(load, entries, false, deps[0])
      case None => None
      case Some(more) => LoadAll(load, more, deps[1..])
  }

  function Values(s: seq<Option<Library>>): seq<Library>
    requires forall i :: 0 <= i < |s| ==> s[i].Some?
  {
    seq(|s|, i requires 0 <= i < |s| => s[i].value)
  }

  class LibraryTable {
    const libs: array<Option<Library>>
    ghost var count: nat

    /** The occupied slots form a prefix of the table. */
    ghost predicate Valid()
      reads this, libs
    {
      && libs.Length == NUM_LIBS && count <= NUM_LIBS
      && (forall i :: 0 <= i < NUM_LIBS ==> (libs[i].Some? <==> i < count))
      && BaseNames(Entries())
    }

    /** The loaded libraries, in slot order. */
    ghost function Entries(): (s: seq<Library>)
      reads this, libs
      requires libs.Length == NUM_LIBS && count <= NUM_LIBS
      requires forall i :: 0 <= i < NUM_LIBS ==> (libs[i].Some? <==> i < count)
      ensures |s| == count && forall i :: 0 <= i < count ==> s[i] == libs[i].value
    {
      Values(libs[..count])
    }

    constructor ()
      ensures Valid() && Entries() == [] && fresh(libs)
    {
      libs := new Option<Library>[NUM_LIBS](_ => None);
      count := 0;
    }

    method LibFind(name: string) returns (r: Option<nat>)
      requires Valid()
      ensures r == FindFrom(Entries(), 0, name)
    {
      for i := 0 to NUM_LIBS
        invariant FindFrom(Entries(), i, name) == FindFrom(Entries(), 0, name)
      {
        if libs[i].Some? && !libs[i].value.isPrimary && CaseEqual(name, libs[i].value.name) {
          return Some(i);
        }
      }
      return None;
    }

    /** The entry goes into the first free slot; `None` when the table is full. */
    method TakeSlot(lib: Library) returns (slot: Option<nat>)
      requires Valid() && lib.name == Basename(lib.path)
      modifies this`count, libs
      ensures Valid()
      ensures slot.None? <==> |old(Entries())| == NUM_LIBS
      ensures slot.None? ==> Entries() == old(Entries())
      ensures slot.Some? ==> slot.value == |old(Entries())| && Entries() == old(Entries()) + [lib]
    {
      var i := 0;
      while i < NUM_LIBS && libs[i].Some?
        invariant i <= count
      {
        i := i + 1;
      }
      if i == NUM_LIBS {
        return None;
      }
      ghost var before := Entries();
      libs[i] := Some(lib);
      count := count + 1;
      assert Entries() == before + [lib];
      return Some(i);
    }

    /** The slot after `i`, if it is occupied. */
    method LibNext(i: nat) returns (next: Option<nat>)
      requires Valid() && i < NUM_LIBS
      ensures next == if i + 1 < count then Some(i + 1) else None
    {
      if i + 1 < NUM_LIBS && libs[i + 1].Some? {
        return Some(i + 1);
      }
      return None;
    }

    /** The walk from the first slot along the next ones, as over all symbols: it visits every
        library once, in the order of loading. */
    method ForEach() returns (visited: seq<Library>)
      requires Valid() && count > 0
      ensures visited == Entries()
    {
      var lib := 0;
      visited := [libs[0].value];
      var next := LibNext(lib);
      while next.Some?
        invariant lib < count && visited == Entries()[..lib + 1]
        invariant next == if lib + 1 < count then Some(lib + 1) else None
        decreases count - lib
      {
        lib := next.value;
        visited := visited + [libs[lib].value];
        next := LibNext(lib);
      }
    }

    /** Loads the library at `path` and, recursively, whatever it needs that is not there yet. */
    method LibInit(primary: bool, path: string, load: Loader) returns (ok: bool)
      requires Valid()
      modifies this`count, libs
      ensures Valid()
      ensures ok <==> LoadOne(load, old(Entries()), primary, path).Some?
      ensures ok ==> LoadOne(load, old(Entries()), primary, path) == Some(Entries())
      decreases NUM_LIBS - count
    {
      var root := Library(primary, Basename(path), path, DependsOf(load, path));
      var slot := TakeSlot(root);
      if slot == None || load(path).Exits? {
        return false;
      }
      var depends := DependsOf(load, path);
      ghost var whole := LoadAll(load, Entries(), depends);
      ghost var before := count;
      for i := 0 to |depends|
        invariant Valid() && count >= before
        invariant LoadAll(load, Entries(), depends[i..]) == whole
      {
        assert depends[i..][1..] == depends[i + 1..];
        var found := LibFind(depends[i]);
        if found == None {
          ok := LibInit(false, depends[i], load);
          if !ok {
            return;
          }
        }
      }
      ok := true;
    }
  }

  /** What a completed load adds to the table: the library itself first, then only dependencies of
      what was added, until every dependency of everything added is covered. */
  ghost predicate Grown(load: Loader, before: seq<Library>, after: seq<Library>, primary: bool, path: string) {
    && |before| < |after| && before == after[..|before|] && BaseNames(after)
    && after[|before|] == Library(primary, Basename(path), path, DependsOf(load, path))
    && FaithfulFrom(load, after, |before|)
    && ClosedFrom(after, |before|)
    && ParentsFrom(after, |before|)
  }

  /** The same while the first `i` dependencies of `root` have been dealt with. */
  ghost predicate Partial(load: Loader, before: seq<Library>, now: seq<Library>, root: Library, i: nat) {
    && |before| < |now| && before == now[..|before|] && now[|before|] == root
    && BaseNames(now) && FaithfulFrom(load, now, |before|)
    && ClosedFrom(now, |before| + 1)
    && ParentsFrom(now, |before|)
    && i <= |root.depends| && AllCovered(now, root.depends[..i])
  }

  lemma StartLoad(load: Loader, before: seq<Library>, root: Library)
    requires root.name == Basename(root.path) && root.depends == DependsOf(load, root.path)
    requires BaseNames(before) && !load(root.path).Exits?
    ensures Partial(load, before, before + [root], root, 0)
  {}

  lemma OneMoreCovered(entries: seq<Library>, deps: seq<string>, i: nat)
    requires i < |deps| && AllCovered(entries, deps[..i]) && CoveredBy(entries, deps[i])
    ensures AllCovered(entries, deps[..i + 1])
  {}

  lemma FoundOne(load: Loader, before: seq<Library>, now: seq<Library>, root: Library, i: nat)
    requires Partial(load, before, now, root, i) && i < |root.depends|
    requires FindFrom(now, 0, root.depends[i]).Some?
    ensures Partial(load, before, now, root, i + 1)
  {
    FoundCovers(now, root.depends[i]);
    OneMoreCovered(now, root.depends, i);
  }

  lemma FinishLoad(load: Loader, before: seq<Library>, now: seq<Library>, root: Library)
    requires Partial(load, before, now, root, |root.depends|)
    requires root == Library(root.isPrimary, Basename(root.path), root.path, DependsOf(load, root.path))
    ensures Grown(load, before, now, root.isPrimary, root.path)
  {
    assert root.depends[..|root.depends|] == root.depends;
  }

  lemma AllCoveredStays(now: seq<Library>, after: seq<Library>, deps: seq<string>)
    requires now <= after && AllCovered(now, deps)
    ensures AllCovered(after, deps)
  {}

  lemma FoundCovers(now: seq<Library>, d: string)
    requires BaseNames(now) && FindFrom(now, 0, d).Some?
    ensures CoveredBy(now, d)
  {
    var k := FindFrom(now, 0, d).value;
    CaseEqualName(d, now[k].path);
  }

  /** A recursive load of dependency `i` takes the loop one step further. */
  lemma LoadedOne(load: Loader, before: seq<Library>, now: seq<Library>, after: seq<Library>, root: Library, i: nat)
    requires Partial(load, before, now, root, i) && i < |root.depends|
    requires Grown(load, now, after, false, root.depends[i])
    ensures Partial(load, before, after, root, i + 1)
  {
    assert now <= after;
    var d := root.depends[i];
    assert CoveredBy(after, d) by {
      assert CaseEqual(Basename(d), after[|now|].name);
    }
    AllCoveredStays(now, after, root.depends[..i]);
    OneMoreCovered(after, root.depends, i);
    forall k | |before| + 1 <= k < |after|
      ensures AllCovered(after, after[k].depends)
    {
      if k < |now| {
        AllCoveredStays(now, after, now[k].depends);
      }
    }
    forall k | |before| < k < |after|
      ensures !after[k].isPrimary && HasParent(after, |before|, k)
    {
      ParentAfter(before, now, after, root, i, k);
    }
  }

  lemma ParentAfter(before: seq<Library>, now: seq<Library>, after: seq<Library>, root: Library, i: nat, k: nat)
    requires |before| < |now| <= |after| && now == after[..|now|] && now[|before|] == root && i < |root.depends|
    requires ParentsFrom(now, |before|) && ParentsFrom(after, |now|)
    requires |now| < |after| && after[|now|].path == root.depends[i] && !after[|now|].isPrimary
    requires |before| < k < |after|
    ensures !after[k].isPrimary && HasParent(after, |before|, k)
  {}

  /** A completed load grows the table as it should. */
  lemma {:induction false} LoadOneGrows(load: Loader, entries: seq<Library>, primary: bool, path: string)
    requires BaseNames(entries) && LoadOne(load, entries, primary, path).Some?
    ensures Grown(load, entries, LoadOne(load, entries, primary, path).value, primary, path)
    decreases NUM_LIBS - |entries|, 0, 0
  {
    var root := Library(primary, Basename(path), path, DependsOf(load, path));
    StartLoad(load, entries, root);
    assert root.depends[0..] == root.depends;
    LoadAllGrows(load, entries, entries + [root], root, 0);
    FinishLoad(load, entries, LoadOne(load, entries, primary, path).value, root);
  }

  lemma {:induction false} LoadAllGrows(load: Loader, before: seq<Library>, now: seq<Library>, root: Library, i: nat)
    requires Partial(load, before, now, root, i) && |now| <= NUM_LIBS
    requires root.depends == DependsOf(load, root.path) && LoadAll(load, now, root.depends[i..]).Some?
    ensures Partial(load, before, LoadAll(load, now, root.depends[i..]).value, root, |root.depends|)
    decreases NUM_LIBS - |now|, 1, |root.depends| - i
  {
    if i < |root.depends| {
      assert root.depends[i..][1..] == root.depends[i + 1..];
      if FindFrom(now, 0, root.depends[i]).Some? {
        FoundOne(load, before, now, root, i);
        LoadAllGrows(load, before, now, root, i + 1);
      } else {
        LoadOneGrows(load, now, false, root.depends[i]);
        var after := LoadOne(load, now, false, root.depends[i]).value;
        LoadedOne(load, before, now, after, root, i);
        LoadAllGrows(load, before, after, root, i + 1);
      }
    }
  }

  /** Loading only appends to the table. */
  lemma {:induction false} LoadAllExtends(load: Loader, now: seq<Library>, deps: seq<string>)
    requires BaseNames(now) && |now| <= NUM_LIBS && LoadAll(load, now, deps).Some?
    ensures now <= LoadAll(load, now, deps).value
    decreases |deps|
  {
    if deps != [] {
      if FindFrom(now, 0, deps[0]).Some? {
        LoadAllExtends(load, now, deps[1..]);
      } else {
        LoadOneGrows(load, now, false, deps[0]);
        LoadAllExtends(load, LoadOne(load, now, false, deps[0]).value, deps[1..]);
      }
    }
  }

  // ------------------------------------------------------------------ unique names

  lemma CaseEqualSymmetric(a: string, b: string)
    ensures CaseEqual(a, b) <==> CaseEqual(b, a)
  {}

  /** Adding an entry keeps the names unique exactly when it is primary or no entry has its name. */
  lemma UniqueAppend(before: seq<Library>, root: Library)
    ensures UniqueNames(before + [root]) <==>
      UniqueNames(before) && (root.isPrimary || FindFrom(before, 0, root.name) == None)
  {
    var after := before + [root];
    var found := FindFrom(before, 0, root.name);
    assert after[|before|] == root && forall k :: 0 <= k < |before| ==> after[k] == before[k];
    if !root.isPrimary && found.Some? {
      CaseEqualSymmetric(root.name, before[found.value].name);
    }
    if UniqueNames(before) && (root.isPrimary || found == None) {
      forall k, l | 0 <= k < l < |after| && !after[k].isPrimary && !after[l].isPrimary
        ensures !CaseEqual(after[k].name, after[l].name)
      {
        CaseEqualSymmetric(after[k].name, after[l].name);
      }
    }
  }

  /** A load keeps names unique when what it adds lists bare names. */
  lemma {:induction false} LoadOneUnique(load: Loader, entries: seq<Library>, primary: bool, path: string)
    requires BaseNames(entries) && UniqueNames(entries) && LoadOne(load, entries, primary, path).Some?
    requires primary || FindFrom(entries, 0, Basename(path)) == None
    requires PlainFrom(LoadOne(load, entries, primary, path).value, |entries|)
    ensures UniqueNames(LoadOne(load, entries, primary, path).value)
    decreases NUM_LIBS - |entries|, 0, 0
  {
    var root := Library(primary, Basename(path), path, DependsOf(load, path));
    var all := LoadOne(load, entries, primary, path).value;
    LoadAllExtends(load, entries + [root], root.depends);
    assert all[|entries|] == root;
    UniqueAppend(entries, root);
    LoadAllUnique(load, entries + [root], root.depends);
  }

  lemma {:induction false} LoadAllUnique(load: Loader, now: seq<Library>, deps: seq<string>)
    requires BaseNames(now) && UniqueNames(now) && |now| <= NUM_LIBS && LoadAll(load, now, deps).Some?
    requires PlainDeps(deps) && PlainFrom(LoadAll(load, now, deps).value, |now|)
    ensures UniqueNames(LoadAll(load, now, deps).value)
    decreases NUM_LIBS - |now|, 1, |deps|
  {
    hide UniqueNames, BaseNames, ClosedFrom, ParentsFrom, FaithfulFrom, Basename, DependsOf;
    if deps != [] {
      if FindFrom(now, 0, deps[0]).Some? {
        LoadAllUnique(load, now, deps[1..]);
      } else {
        var after := LoadOne(load, now, false, deps[0]).value;
        LoadOneGrows(load, now, false, deps[0]);
        LoadAllExtends(load, after, deps[1..]);
        LoadOneUnique(load, now, false, deps[0]);
        LoadAllUnique(load, after, deps[1..]);
      }
    }
  }

  // -------------------------------------------------------------- whole tables

  /** The table that loading a primary library into an empty one leaves. */
  predicate LoadedFrom(load: Loader, entries: seq<Library>, path: string) {
    LoadOne(load, [], true, path) == Some(entries)
  }

  /** A run that meets only bare dependency names loads no library twice. */
  lemma LoadedOnce(load: Loader, entries: seq<Library>, path: string)
    requires LoadedFrom(load, entries, path) && PlainFrom(entries, 0)
    ensures UniqueNames(entries)
  {
    LoadOneUnique(load, [], true, path);
  }

  /** Exactly the first entry is primary, and every dependency of every library in the table has a
      non-primary entry with its file name up to case, the primary's own name included. */
  lemma DependencyClosure(load: Loader, entries: seq<Library>, path: string, k: nat, i: nat)
    requires LoadedFrom(load, entries, path)
    requires k < |entries| && i < |DependsOf(load, entries[k].path)|
    ensures entries[k].isPrimary <==> k == 0
    ensures CoveredBy(entries, DependsOf(load, entries[k].path)[i])
    ensures match load(entries[k].path)
      case Loaded(deps) => i < |deps| && CoveredBy(entries, deps[i])
      case _ => false
  {
    LoadOneGrows(load, [], true, path);
    assert AllCovered(entries, entries[k].depends);
  }

  /** A set of paths that contains, with a path, all its dependencies. */
  ghost predicate Inherited(load: Loader, needed: iset<string>) {
    forall p :: p in needed ==> AllIn(DependsOf(load, p), needed)
  }

  ghost predicate AllIn(deps: seq<string>, needed: iset<string>) {
    forall i :: 0 <= i < |deps| ==> deps[i] in needed
  }

  lemma ParentOf(load: Loader, entries: seq<Library>, path: string, k: nat) returns (j: nat)
    requires LoadedFrom(load, entries, path) && 0 < k < |entries|
    ensures j < k && entries[k].path in DependsOf(load, entries[j].path)
    ensures j == 0 ==> entries[j].path == path
  {
    LoadOneGrows(load, [], true, path);
    assert HasParent(entries, 0, k);
    j :| 0 <= j < k && entries[k].path in entries[j].depends;
    assert entries[j].depends == DependsOf(load, entries[j].path);
  }

  /** Nothing is loaded without need: every library but the primary lies in every set of paths that
      holds the primary's dependencies and, with a path, all of that path's dependencies. */
  lemma {:induction false} NothingSuperfluous(load: Loader, entries: seq<Library>, path: string,
                                              needed: iset<string>, k: nat)
    requires LoadedFrom(load, entries, path) && 0 < k < |entries|
    requires AllIn(DependsOf(load, path), needed) && Inherited(load, needed)
    ensures entries[k].path in needed
    decreases k
  {
    var j := ParentOf(load, entries, path, k);
    if j > 0 {
      NothingSuperfluous(load, entries, path, needed, j);
    }
    assert AllIn(DependsOf(load, entries[j].path), needed);
  }
}
