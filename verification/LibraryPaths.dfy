/** Dependencies listed with a directory: `lib_find` compares them with bare file names. */
module LibraryPaths {
  import opened Words
  import opened Libraries

  /** A dependency listed with a directory is never found by the name it is listed under. */
  lemma NeverFound(entries: seq<Library>, d: string)
    requires BaseNames(entries) && Basename(d) != d
    ensures FindFrom(entries, 0, d) == None
  {
    var found := FindFrom(entries, 0, d);
    if found.Some? {
      CaseEqualName(d, entries[found.value].path);
    }
  }

  function Occurrences(deps: seq<string>, d: string): nat {
    if deps == [] then 0 else (if deps[0] == d then 1 else 0) + Occurrences(deps[1..], d)
  }

  /** How often `d` was loaded as a dependency. */
  function Loads(entries: seq<Library>, d: string): nat {
    if entries == [] then 0
    else
      var last := entries[|entries| - 1];
      Loads(entries[..|entries| - 1], d) + if !last.isPrimary && last.path == d then 1 else 0
  }

  /** How often the entries list `d`. */
  function Listings(entries: seq<Library>, d: string): nat {
    if entries == [] then 0
    else Listings(entries[..|entries| - 1], d) + Occurrences(entries[|entries| - 1].depends, d)
  }

  lemma BalanceAppend(entries: seq<Library>, lib: Library, d: string)
    ensures Loads(entries + [lib], d) == Loads(entries, d) + if !lib.isPrimary && lib.path == d then 1 else 0
    ensures Listings(entries + [lib], d) == Listings(entries, d) + Occurrences(lib.depends, d)
  {
    assert (entries + [lib])[..|entries|] == entries;
  }

  lemma {:induction false} BalanceOne(load: Loader, entries: seq<Library>, primary: bool, path: string, d: string)
    requires Basename(d) != d && BaseNames(entries) && LoadOne(load, entries, primary, path).Some?
    ensures var all := LoadOne(load, entries, primary, path).value;
      Loads(all, d) - Listings(all, d) ==
      Loads(entries, d) - Listings(entries, d) + if !primary && path == d then 1 else 0
    decreases NUM_LIBS - |entries|, 0, 0
  {
    var root := Library(primary, Basename(path), path, DependsOf(load, path));
    BalanceAppend(entries, root, d);
    BalanceAll(load, entries + [root], root.depends, d);
  }

  lemma {:induction false} BalanceAll(load: Loader, now: seq<Library>, deps: seq<string>, d: string)
    requires Basename(d) != d && BaseNames(now) && |now| <= NUM_LIBS && LoadAll(load, now, deps).Some?
    ensures var all := LoadAll(load, now, deps).value;
      Loads(all, d) - Listings(all, d) == Loads(now, d) - Listings(now, d) + Occurrences(deps, d)
    decreases NUM_LIBS - |now|, 1, |deps|
  {
    if deps != [] {
      NeverFound(now, d);
      if FindFrom(now, 0, deps[0]).Some? {
        BalanceAll(load, now, deps[1..], d);
      } else {
        BalanceOne(load, now, false, deps[0], d);
        LoadOneGrows(load, now, false, deps[0]);
        BalanceAll(load, LoadOne(load, now, false, deps[0]).value, deps[1..], d);
      }
    }
  }

  /** A dependency with a directory in its name is loaded exactly as often as it is listed. */
  lemma LoadedAsOftenAsListed(load: Loader, entries: seq<Library>, path: string, d: string)
    requires LoadedFrom(load, entries, path) && Basename(d) != d
    ensures Loads(entries, d) == Listings(entries, d)
  {
    BalanceOne(load, [], true, path, d);
  }

  /** Every name that the entries list is bare or `d`. */
  predicate PlainBut(entries: seq<Library>, d: string) {
    forall k, i :: 0 <= k < |entries| && 0 <= i < |entries[k].depends| ==>
      entries[k].depends[i] == d || Basename(entries[k].depends[i]) == entries[k].depends[i]
  }

  /** No completed run that lists only bare names and `d` loads a library twice. */
  ghost predicate SafeDependency(d: string) {
    forall load: Loader, path: string, entries: seq<Library> ::
      LoadedFrom(load, entries, path) && PlainBut(entries, d) ==> UniqueNames(entries)
  }

  lemma LoadLeaf(load: Loader, entries: seq<Library>, d: string)
    requires |entries| < NUM_LIBS && load(d) == Loaded([])
    ensures LoadOne(load, entries, false, d) == Some(entries + [Library(false, Basename(d), d, [])])
  {}

  lemma LoadLeafFirst(load: Loader, entries: seq<Library>, d: string, deps: seq<string>)
    requires BaseNames(entries) && |entries| < NUM_LIBS && Basename(d) != d && load(d) == Loaded([])
    ensures LoadAll(load, entries, [d] + deps) == LoadAll(load, entries + [Library(false, Basename(d), d, [])], deps)
  {
    NeverFound(entries, d);
    LoadLeaf(load, entries, d);
    assert ([d] + deps)[1..] == deps;
  }

  lemma NothingToLoad(load: Loader, entries: seq<Library>)
    requires |entries| <= NUM_LIBS
    ensures LoadAll(load, entries, []) == Some(entries)
  {}

  /** A primary that lists a library twice, with its directory, loads it twice. */
  lemma LoadsTwice(load: Loader, path: string, d: string, root: Library, leaf: Library)
    requires Basename(d) != d && load(path) == Loaded([d, d]) && load(d) == Loaded([])
    requires root == Library(true, Basename(path), path, [d, d]) && leaf == Library(false, Basename(d), d, [])
    ensures LoadedFrom(load, [root, leaf, leaf], path)
  {
    hide LoadAll, Basename, CaseEqual;
    NothingToLoad(load, [root, leaf, leaf]);
    assert [] + [root] == [root] && [root] + [leaf] == [root, leaf] && [root, leaf] + [leaf] == [root, leaf, leaf];
    assert [d] + [d] == [d, d] && [d] + [] == [d];
    LoadLeafFirst(load, [root], d, [d]);
    LoadLeafFirst(load, [root, leaf], d, []);
  }

  lemma TwiceIsNotUnique(root: Library, leaf: Library)
    requires !leaf.isPrimary
    ensures !UniqueNames([root, leaf, leaf])
  {
    assert [root, leaf, leaf][1] == leaf && [root, leaf, leaf][2] == leaf && CaseEqual(leaf.name, leaf.name);
  }

  /** Exactly the dependencies listed by a bare file name are safe. */
  lemma SafeExactlyWhenPlain(d: string)
    ensures SafeDependency(d) <==> Basename(d) == d
  {
    if Basename(d) == d {
      forall load: Loader, path: string, entries: seq<Library> | LoadedFrom(load, entries, path) && PlainBut(entries, d)
        ensures UniqueNames(entries)
      {
        LoadOneGrows(load, [], true, path);
        LoadedOnce(load, entries, path);
      }
    } else {
      BasenameOfName("p");
      var load: Loader := p => if p == "p" then Loaded([d, d]) else Loaded([]);
      var root, leaf := Library(true, Basename("p"), "p", [d, d]), Library(false, Basename(d), d, []);
      LoadsTwice(load, "p", d, root, leaf);
      TwiceIsNotUnique(root, leaf);
      assert PlainBut([root, leaf, leaf], d);
    }
  }

  /** A dependency listed with a directory that leads back into the set. */
  ghost predicate LeadsBack(paths: iset<string>, d: string) {
    d in paths && Basename(d) != d
  }

  /** Every path of the set lists one of the set with its directory: a cycle of such dependencies, or
      an endless chain of them. */
  ghost predicate Endless(load: Loader, paths: iset<string>) {
    forall p {:trigger HasWayBack(load, paths, p)} :: p in paths ==> HasWayBack(load, paths, p)
  }

  ghost predicate HasWayBack(load: Loader, paths: iset<string>, p: string) {
    exists i :: 0 <= i < |DependsOf(load, p)| && LeadsBack(paths, DependsOf(load, p)[i])
  }

  /** Loading a path of such a set never completes: the table fills up, unless the process ends
      before. */
  lemma {:induction false} EndlessFills(load: Loader, paths: iset<string>, entries: seq<Library>,
                                        primary: bool, path: string)
    requires Endless(load, paths) && path in paths && BaseNames(entries)
    ensures LoadOne(load, entries, primary, path) == None
    decreases NUM_LIBS - |entries|, 0, 0
  {
    if |entries| < NUM_LIBS {
      var deps := DependsOf(load, path);
      assert HasWayBack(load, paths, path);
      var i :| 0 <= i < |deps| && LeadsBack(paths, deps[i]);
      EndlessAll(load, paths, entries + [Library(primary, Basename(path), path, deps)], deps, i);
    }
  }

  lemma {:induction false} EndlessAll(load: Loader, paths: iset<string>, now: seq<Library>, deps: seq<string>, i: nat)
    requires Endless(load, paths) && BaseNames(now) && |now| <= NUM_LIBS
    requires i < |deps| && LeadsBack(paths, deps[i])
    ensures LoadAll(load, now, deps) == None
    decreases NUM_LIBS - |now|, 1, i
  {
    hide Endless, Basename, BaseNames, ClosedFrom, ParentsFrom, FaithfulFrom, DependsOf;
    if i == 0 {
      NeverFound(now, deps[0]);
      EndlessFills(load, paths, now, false, deps[0]);
    } else if FindFrom(now, 0, deps[0]).Some? {
      EndlessAll(load, paths, now, deps[1..], i - 1);
    } else if LoadOne(load, now, false, deps[0]).Some? {
      LoadOneGrows(load, now, false, deps[0]);
      EndlessAll(load, paths, LoadOne(load, now, false, deps[0]).value, deps[1..], i - 1);
    }
  }

  /** In particular a file that lists itself with its directory always ends the process. */
  lemma SelfListed(load: Loader, entries: seq<Library>, primary: bool, d: string)
    requires BaseNames(entries) && Basename(d) != d && d in DependsOf(load, d)
    ensures LoadOne(load, entries, primary, d) == None
  {
    assert HasWayBack(load, iset{d}, d);
    EndlessFills(load, iset{d}, entries, primary, d);
  }
}
