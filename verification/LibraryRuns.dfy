/** Which loads complete: the closure of dependencies must fit the table. */
module LibraryRuns {
  import opened Words
  import opened Libraries

  /** The paths that loading `path` can come to: its dependencies, and theirs. */
  ghost predicate Closed(load: Loader, path: string, needed: set<string>) {
    AllIn(DependsOf(load, path), Paths(needed)) && Inherited(load, Paths(needed))
  }

  ghost function Paths(needed: set<string>): iset<string> {
    iset d | d in needed
  }

  predicate PlainSet(needed: set<string>) {
    forall d :: d in needed ==> Basename(d) == d
  }

  predicate AllLoadable(load: Loader, path: string, needed: set<string>) {
    !load(path).Exits? && forall d :: d in needed ==> !load(d).Exits?
  }

  /** A name up to case. */
  function Fold(name: string): string {
    seq(|name|, i requires 0 <= i < |name| => Lower(name[i]))
  }

  lemma FoldDecides(a: string, b: string)
    ensures CaseEqual(a, b) <==> Fold(a) == Fold(b)
  {
    if Fold(a) == Fold(b) {
      assert forall i :: 0 <= i < |a| ==> Fold(a)[i] == Lower(a[i]) && Fold(b)[i] == Lower(b[i]);
    }
  }

  function Folds(names: set<string>): set<string> {
    set d | d in names :: Fold(d)
  }

  /** The names of the entries behind the first, up to case. */
  function NamesOf(entries: seq<Library>): set<string>
    requires entries != []
  {
    if |entries| == 1 then {} else NamesOf(entries[..|entries| - 1]) + {Fold(entries[|entries| - 1].name)}
  }

  /** A table that holds the primary and, once each, libraries from `needed`. */
  predicate Settled(entries: seq<Library>, needed: set<string>) {
    && entries != [] && entries[0].isPrimary && BaseNames(entries) && UniqueNames(entries)
    && forall k :: 0 < k < |entries| ==> !entries[k].isPrimary && entries[k].path in needed
  }

  lemma SettledInit(entries: seq<Library>, needed: set<string>)
    requires Settled(entries, needed) && |entries| > 1
    ensures Settled(entries[..|entries| - 1], needed)
    ensures FindFrom(entries[..|entries| - 1], 0, entries[|entries| - 1].name) == None
  {
    var init, last := entries[..|entries| - 1], entries[|entries| - 1];
    assert entries == init + [last];
    UniqueAppend(init, last);
  }

  lemma {:induction false} NameAbsent(entries: seq<Library>, needed: set<string>, name: string)
    requires Settled(entries, needed) && FindFrom(entries, 0, name) == None
    ensures Fold(name) !in NamesOf(entries)
    decreases |entries|
  {
    if |entries| > 1 {
      var init := entries[..|entries| - 1];
      SettledInit(entries, needed);
      FoldDecides(name, entries[|entries| - 1].name);
      assert FindFrom(init, 0, name) == None;
      NameAbsent(init, needed, name);
    }
  }

  /** Settled entries have as many names as there are entries, all of them needed. */
  lemma {:induction false} NamesCounted(entries: seq<Library>, needed: set<string>)
    requires Settled(entries, needed) && PlainSet(needed)
    ensures |NamesOf(entries)| == |entries| - 1 && NamesOf(entries) <= Folds(needed)
    decreases |entries|
  {
    hide Basename, UniqueNames, FindFrom, Fold;
    if |entries| > 1 {
      var init, last := entries[..|entries| - 1], entries[|entries| - 1];
      SettledInit(entries, needed);
      NamesCounted(init, needed);
      NameAbsent(init, needed, last.name);
      assert last.name == last.path;
      assert Fold(last.name) in Folds(needed);
    }
  }

  lemma SmallerSet(a: set<string>, b: set<string>)
    requires a <= b
    ensures |a| <= |b|
  {
    var rest := b - a;
    assert b == a + rest;
    assert |b| == |a| + |rest|;
  }

  /** While a needed library is missing there is room for it. */
  lemma RoomForMissing(entries: seq<Library>, needed: set<string>, d: string)
    requires Settled(entries, needed) && PlainSet(needed) && d in needed && FindFrom(entries, 0, d) == None
    ensures |entries| <= |Folds(needed)|
  {
    NamesCounted(entries, needed);
    NameAbsent(entries, needed, d);
    var names := NamesOf(entries) + {Fold(d)};
    assert Fold(d) in Folds(needed);
    SmallerSet(names, Folds(needed));
  }

  lemma SettledAppend(load: Loader, entries: seq<Library>, needed: set<string>, d: string)
    requires Settled(entries, needed) && PlainSet(needed) && d in needed && FindFrom(entries, 0, d) == None
    ensures Settled(entries + [Library(false, Basename(d), d, DependsOf(load, d))], needed)
  {
    UniqueAppend(entries, Library(false, Basename(d), d, DependsOf(load, d)));
  }

  lemma {:induction false} CompletesOne(load: Loader, path: string, needed: set<string>,
                                        entries: seq<Library>, d: string)
    requires Closed(load, path, needed) && PlainSet(needed) && AllLoadable(load, path, needed)
    requires |Folds(needed)| < NUM_LIBS
    requires Settled(entries, needed) && d in needed && FindFrom(entries, 0, d) == None
    ensures LoadOne(load, entries, false, d).Some? && Settled(LoadOne(load, entries, false, d).value, needed)
    decreases NUM_LIBS - |entries|, 0, 0
  {
    RoomForMissing(entries, needed, d);
    SettledAppend(load, entries, needed, d);
    assert d in Paths(needed);
    var lib := Library(false, Basename(d), d, DependsOf(load, d));
    CompletesAll(load, path, needed, entries + [lib], lib.depends);
  }

  lemma {:induction false} CompletesAll(load: Loader, path: string, needed: set<string>,
                                        now: seq<Library>, deps: seq<string>)
    requires Closed(load, path, needed) && PlainSet(needed) && AllLoadable(load, path, needed)
    requires |Folds(needed)| < NUM_LIBS && |now| <= NUM_LIBS
    requires Settled(now, needed) && AllIn(deps, Paths(needed))
    ensures LoadAll(load, now, deps).Some? && Settled(LoadAll(load, now, deps).value, needed)
    decreases NUM_LIBS - |now|, 1, |deps|
  {
    if deps != [] {
      assert AllIn(deps[1..], Paths(needed));
      if FindFrom(now, 0, deps[0]).Some? {
        CompletesAll(load, path, needed, now, deps[1..]);
      } else {
        CompletesOne(load, path, needed, now, deps[0]);
        CompletesAll(load, path, needed, LoadOne(load, now, false, deps[0]).value, deps[1..]);
      }
    }
  }

  /** Loading completes, cycles or not, when what the primary needs has bare names, can be loaded and,
      counted up to case, leaves a slot for the primary. */
  lemma FitsCompletes(load: Loader, path: string, needed: set<string>)
    requires Closed(load, path, needed) && PlainSet(needed) && AllLoadable(load, path, needed)
    requires |Folds(needed)| <= 255
    ensures LoadOne(load, [], true, path).Some? && Settled(LoadOne(load, [], true, path).value, needed)
  {
    var root := Library(true, Basename(path), path, DependsOf(load, path));
    assert [] + [root] == [root];
    CompletesAll(load, path, needed, [root], root.depends);
  }

  /** No two of the paths are the same name up to case. */
  predicate CaseDistinct(needed: set<string>) {
    forall a, b :: a in needed && b in needed && CaseEqual(a, b) ==> a == b
  }

  /** The closed set has no smaller closed one in it: it is what the primary reaches. */
  ghost predicate Reached(load: Loader, path: string, needed: set<string>) {
    Closed(load, path, needed) && forall s: set<string> :: s <= needed && Closed(load, path, s) ==> s == needed
  }

  /** The paths of the entries behind the first. */
  function PathsOf(entries: seq<Library>): set<string> {
    set k | 0 < k < |entries| :: entries[k].path
  }

  lemma {:induction false} PathsCounted(entries: seq<Library>)
    requires entries != []
    ensures |PathsOf(entries)| < |entries|
    decreases |entries|
  {
    if |entries| == 1 {
      assert PathsOf(entries) == {};
    } else {
      var init, last := entries[..|entries| - 1], entries[|entries| - 1];
      PathsCounted(init);
      assert PathsOf(entries) == PathsOf(init) + {last.path};
    }
  }

  lemma EntryListed(entries: seq<Library>, k: nat)
    requires 0 < k < |entries|
    ensures entries[k].path in PathsOf(entries)
  {}

  /** In a completed run a needed path that is listed is the path of an entry. */
  lemma ListedIsLoaded(load: Loader, entries: seq<Library>, path: string, needed: set<string>, k: nat, i: nat)
    requires LoadedFrom(load, entries, path) && Closed(load, path, needed) && PlainSet(needed) && CaseDistinct(needed)
    requires k < |entries| && i < |DependsOf(load, entries[k].path)|
    requires DependsOf(load, entries[k].path)[i] in needed
    ensures DependsOf(load, entries[k].path)[i] in PathsOf(entries)
  {
    hide Inherited, AllIn, LoadOne, ClosedFrom, ParentsFrom, FaithfulFrom, Basename, DependsOf, CaseEqual, PathsOf;
    var d := DependsOf(load, entries[k].path)[i];
    DependencyClosure(load, entries, path, k, i);
    var l :| 0 <= l < |entries| && !entries[l].isPrimary && CaseEqual(Basename(d), entries[l].name);
    LoadOneGrows(load, [], true, path);
    NothingSuperfluous(load, entries, path, Paths(needed), l);
    assert entries[l].name == Basename(entries[l].path) == entries[l].path;
    EntryListed(entries, l);
  }

  /** A completed run has loaded everything that the primary reaches. */
  lemma ReachedIsLoaded(load: Loader, entries: seq<Library>, path: string, needed: set<string>)
    requires LoadedFrom(load, entries, path) && PlainSet(needed) && CaseDistinct(needed) && Reached(load, path, needed)
    ensures PathsOf(entries) == needed
  {
    var loaded := PathsOf(entries);
    LoadOneGrows(load, [], true, path);
    forall d | d in loaded
      ensures d in needed
    {
      var k :| 0 < k < |entries| && entries[k].path == d;
      NothingSuperfluous(load, entries, path, Paths(needed), k);
    }
    assert AllIn(DependsOf(load, path), Paths(loaded)) by {
      forall i | 0 <= i < |DependsOf(load, path)|
        ensures DependsOf(load, path)[i] in loaded
      {
        ListedIsLoaded(load, entries, path, needed, 0, i);
      }
    }
    forall p | p in loaded
      ensures AllIn(DependsOf(load, p), Paths(loaded))
    {
      var k :| 0 < k < |entries| && entries[k].path == p;
      forall i | 0 <= i < |DependsOf(load, p)|
        ensures DependsOf(load, p)[i] in loaded
      {
        assert AllIn(DependsOf(load, p), Paths(needed));
        ListedIsLoaded(load, entries, path, needed, k, i);
      }
    }
    assert Closed(load, path, loaded);
  }

  lemma LoadedAreLoadable(load: Loader, entries: seq<Library>, path: string)
    requires LoadedFrom(load, entries, path)
    ensures AllLoadable(load, path, PathsOf(entries))
  {
    LoadOneGrows(load, [], true, path);
    assert Faithful(load, entries[0]);
    forall d | d in PathsOf(entries)
      ensures !load(d).Exits?
    {
      var k :| 0 < k < |entries| && entries[k].path == d;
      assert Faithful(load, entries[k]);
    }
  }

  lemma FoldsSmaller(needed: set<string>)
    ensures |Folds(needed)| <= |needed|
  {
    if needed != {} {
      var d :| d in needed;
      FoldsSmaller(needed - {d});
      assert Folds(needed) == Folds(needed - {d}) + {Fold(d)};
    }
  }

  /** Exactly when loading completes: what the primary reaches, given that it consists of bare names
      that differ up to case, fits the table next to the primary, and all of it can be loaded. */
  lemma CompletesExactly(load: Loader, path: string, needed: set<string>)
    requires Reached(load, path, needed) && PlainSet(needed) && CaseDistinct(needed)
    ensures LoadOne(load, [], true, path).Some? <==> |needed| <= 255 && AllLoadable(load, path, needed)
  {
    var all := LoadOne(load, [], true, path);
    if all.Some? {
      ReachedIsLoaded(load, all.value, path, needed);
      PathsCounted(all.value);
      LoadedAreLoadable(load, all.value, path);
    } else if |needed| < NUM_LIBS && AllLoadable(load, path, needed) {
      FoldsSmaller(needed);
      FitsCompletes(load, path, needed);
    }
  }
}
