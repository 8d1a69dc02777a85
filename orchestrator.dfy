/**
  `RegistryCleaner.__call__` and the argument guard of `main`. The registry
  container is stopped, every target is cleaned in order, the garbage
  collector runs once, and the container is started again; the Docker calls
  and the collector are events in a ghost trace, and the collector's exit
  status is an integer input.
*/
module Cleaner {
  import opened Wrappers
  import opened Layout
  import opened Selection
  import opened Names
  import opened Storage

  /** What the cleaner does to the outside world, in order. */
  datatype Event = Stop | Clean(image: string, ok: bool) | Collect(ok: bool) | Start

  /** The result of the loop over the targets: every step succeeded, the store after it, and one event per step. */
  datatype Batch = Batch(ok: bool, dirs: map<Path, Dir>, events: seq<Event>)

  /** `clean_repo` on the first `n` targets in turn, each on the store the previous ones left. */
  function CleanPrefix(dirs: map<Path, Dir>, images: seq<string>, n: nat, remove: bool): (b: Batch)
    requires n <= |images|
    ensures |b.events| == n
    decreases n
  {
    if n == 0 then Batch(true, dirs, [])
    else
      var prev := CleanPrefix(dirs, images, n - 1, remove);
      var last := CleanRepoResult(prev.dirs, images[n - 1], remove);
      Batch(prev.ok && last.ok, last.dirs, prev.events + [Clean(images[n - 1], last.ok)])
  }

  /** `clean_repo` on every target in turn. */
  function CleanAll(dirs: map<Path, Dir>, images: seq<string>, remove: bool): Batch {
    CleanPrefix(dirs, images, |images|, remove)
  }

  /** The arguments if any were given, otherwise the listing of the repositories root. */
  function Targets(images: seq<string>, listing: seq<Path>): seq<string> {
    if images != [] then images else listing
  }

  // ---------------------------------------------------------------------------
  // Default targets

  /** A directory holding `_manifests`: a repository, as opposed to a directory that only groups repositories. */
  predicate IsRepository(d: Dir) {
    d.tags.Some? || d.revisions.Some?
  }

  /**
    `os.listdir(".")` in the repositories root, as written: the top-level
    directories, namespaces among them.
  */
  function TopLevelDirs(dirs: map<Path, Dir>): (r: set<Path>)
    ensures forall p :: p in r ==> p in dirs
  {
    set p | p in dirs && '/' !in p
  }

  /** `listing` is what `os.listdir(".")` returns in the repositories root: each top-level directory once. */
  predicate ListsRoot(listing: seq<Path>, dirs: map<Path, Dir>) {
    && (forall i :: 0 <= i < |listing| ==> listing[i] in TopLevelDirs(dirs))
    && (forall p :: p in TopLevelDirs(dirs) ==> p in listing)
    && (forall i, j :: 0 <= i < j < |listing| ==> listing[i] != listing[j])
  }

  /** The default targets the cleaner needs: every repository directory, at any depth. */
  function RepositoryDirs(dirs: map<Path, Dir>): (r: set<Path>)
    ensures forall p :: p in r ==> p in dirs && IsRepository(dirs[p])
  {
    set p | p in dirs && IsRepository(dirs[p])
  }

  /**
    With a namespaced repository `myorg/app` the as-written default targets
    hold `myorg`, for which `clean_revisions` finds no revisions directory and
    raises, and miss `myorg/app`, which is never cleaned.
  */
  lemma NamespaceDirIsTargeted()
    ensures var dirs := map["myorg" := Dir(None, None), "myorg/app" := Dir(Some(map[]), Some({}))];
            && WellFormed(dirs)
            && "myorg" in TopLevelDirs(dirs) && !DirsPresent(dirs, "myorg", false)
            && "myorg/app" !in TopLevelDirs(dirs) && IsRepository(dirs["myorg/app"])
  {
    var dirs := map["myorg" := Dir(None, None), "myorg/app" := Dir(Some(map[]), Some({}))];
    assert forall i :: 0 <= i < 5 ==> "myorg"[i] != '/' && "myorg"[i] != ':';
    assert forall i :: 0 <= i < 9 && i != 5 ==> "myorg/app"[i] != '/';
    assert forall i :: 0 <= i < 9 ==> "myorg/app"[i] != ':';
    assert "myorg/app"[..5] == "myorg";
    assert WellFormed(dirs);
    assert "myorg" in TopLevelDirs(dirs) && "myorg/app" !in TopLevelDirs(dirs);
    assert Target("myorg") == ("myorg", "");
  }

  /** In a store with no namespaces, where every directory is a top-level repository, both choices agree. */
  lemma DefaultTargetsAgreeWhenFlat(dirs: map<Path, Dir>)
    requires forall p :: p in dirs ==> '/' !in p && IsRepository(dirs[p])
    ensures TopLevelDirs(dirs) == RepositoryDirs(dirs)
  {
  }

  /**
    When every repository has its `revisions/sha256` directory, cleaning a
    default target finds every directory it lists.
  */
  lemma DefaultTargetsPresent(dirs: map<Path, Dir>, p: Path)
    requires WellFormed(dirs)
    requires forall q :: q in dirs && IsRepository(dirs[q]) ==> dirs[q].revisions.Some?
    requires p in RepositoryDirs(dirs)
    ensures DirsPresent(dirs, p, false)
  {
    assert PathOk(p);
    assert Target(p) == (p, "");
  }

  // ---------------------------------------------------------------------------
  // The loop over the targets

  /** A run records one `Clean` event per target, in the order of the targets. */
  lemma {:induction false} CleanPrefixEvents(dirs: map<Path, Dir>, images: seq<string>, n: nat, remove: bool)
    requires n <= |images|
    ensures var b := CleanPrefix(dirs, images, n, remove);
            forall i :: 0 <= i < n ==> b.events[i].Clean? && b.events[i].image == images[i]
    decreases n
  {
    if n > 0 {
      var prev := CleanPrefix(dirs, images, n - 1, remove);
      CleanPrefixEvents(dirs, images, n - 1, remove);
      var last := CleanRepoResult(prev.dirs, images[n - 1], remove);
      AppendEvent(prev.events, images, n, last.ok, CleanPrefix(dirs, images, n, remove).events);
    }
  }

  lemma AppendEvent(prev: seq<Event>, images: seq<string>, n: nat, ok: bool, events: seq<Event>)
    requires 0 < n <= |images| && |prev| == n - 1
    requires forall i :: 0 <= i < n - 1 ==> prev[i].Clean? && prev[i].image == images[i]
    requires events == prev + [Clean(images[n - 1], ok)]
    ensures forall i :: 0 <= i < n ==> events[i].Clean? && events[i].image == images[i]
  {
  }

  /** A run succeeds exactly when every event records its target as cleaned. */
  lemma {:induction false} CleanPrefixOk(dirs: map<Path, Dir>, images: seq<string>, n: nat, remove: bool)
    requires n <= |images|
    ensures var b := CleanPrefix(dirs, images, n, remove);
            b.ok <==> forall i :: 0 <= i < n ==> b.events[i] == Clean(images[i], true)
    decreases n
  {
    if n > 0 {
      var prev := CleanPrefix(dirs, images, n - 1, remove);
      var b := CleanPrefix(dirs, images, n, remove);
      CleanPrefixOk(dirs, images, n - 1, remove);
      var last := CleanRepoResult(prev.dirs, images[n - 1], remove);
      AppendOk(prev.ok, prev.events, images, n, last.ok, b.ok, b.events);
    }
  }

  lemma AppendOk(prevOk: bool, prev: seq<Event>, images: seq<string>, n: nat, last: bool, ok: bool, events: seq<Event>)
    requires 0 < n <= |images| && |prev| == n - 1
    requires prevOk <==> forall i :: 0 <= i < n - 1 ==> prev[i] == Clean(images[i], true)
    requires ok == (prevOk && last) && events == prev + [Clean(images[n - 1], last)]
    ensures ok <==> forall i :: 0 <= i < n ==> events[i] == Clean(images[i], true)
  {
    assert events[n - 1] == Clean(images[n - 1], last);
  }

  lemma ShrinksTransitive(a: map<Path, Dir>, b: map<Path, Dir>, c: map<Path, Dir>)
    requires Shrinks(a, b) && Shrinks(b, c)
    ensures Shrinks(a, c)
  {
  }

  lemma SameLinksTransitive(a: map<Path, Dir>, b: map<Path, Dir>, c: map<Path, Dir>)
    requires SameLinks(a, b) && SameLinks(b, c)
    ensures SameLinks(a, c)
  {
  }

  /** A run keeps the store well formed. */
  lemma {:induction false} CleanPrefixWellFormed(dirs: map<Path, Dir>, images: seq<string>, n: nat, remove: bool)
    requires n <= |images| && WellFormed(dirs)
    ensures WellFormed(CleanPrefix(dirs, images, n, remove).dirs)
    decreases n
  {
    if n > 0 {
      CleanPrefixWellFormed(dirs, images, n - 1, remove);
      CleanRepoWellFormed(CleanPrefix(dirs, images, n - 1, remove).dirs, images[n - 1], remove);
    }
  }

  /** A run only deletes. */
  lemma {:induction false} CleanPrefixShrinks(dirs: map<Path, Dir>, images: seq<string>, n: nat, remove: bool)
    requires n <= |images|
    ensures Shrinks(dirs, CleanPrefix(dirs, images, n, remove).dirs)
    decreases n
  {
    if n > 0 {
      var prev := CleanPrefix(dirs, images, n - 1, remove);
      CleanPrefixShrinks(dirs, images, n - 1, remove);
      CleanRepoShrinks(prev.dirs, images[n - 1], remove);
      ShrinksTransitive(dirs, prev.dirs, CleanPrefix(dirs, images, n, remove).dirs);
    }
  }

  /** Without `-x` a run deletes no directory, no tag and no current link. */
  lemma {:induction false} CleanPrefixKeepsLinks(dirs: map<Path, Dir>, images: seq<string>, n: nat)
    requires n <= |images|
    ensures SameLinks(dirs, CleanPrefix(dirs, images, n, false).dirs)
    decreases n
  {
    if n > 0 {
      var prev := CleanPrefix(dirs, images, n - 1, false);
      CleanPrefixKeepsLinks(dirs, images, n - 1);
      PruneKeepsLinks(prev.dirs, images[n - 1]);
      SameLinksTransitive(dirs, prev.dirs, CleanPrefix(dirs, images, n, false).dirs);
    }
  }

  /**
    The state the loop of `__call__` reaches after the first `i` targets:
    the store and the success flag of that prefix of the run from `d0`.
  */
  ghost predicate CleanedUpTo(d0: map<Path, Dir>, targets: seq<string>, i: nat, remove: bool,
                              dirs: map<Path, Dir>, allOk: bool)
    requires i <= |targets|
  {
    var b := CleanPrefix(d0, targets, i, remove);
    dirs == b.dirs && allOk == b.ok
  }

  /**
    Every directory each `clean_repo` of the run lists is present when that
    step runs, on the store the earlier steps left: the run raises no
    `FileNotFoundError`.
  */
  predicate StepsPresent(dirs: map<Path, Dir>, targets: seq<string>, remove: bool) {
    forall i :: 0 <= i < |targets| ==> DirsPresent(CleanPrefix(dirs, targets, i, remove).dirs, targets[i], remove)
  }

  /** Directories present before the run are present at every step, since a run only deletes. */
  lemma PresentBeforeRun(dirs: map<Path, Dir>, targets: seq<string>, remove: bool)
    requires forall j :: 0 <= j < |targets| ==> DirsPresent(dirs, targets[j], remove)
    ensures StepsPresent(dirs, targets, remove)
  {
    forall i | 0 <= i < |targets|
      ensures DirsPresent(CleanPrefix(dirs, targets, i, remove).dirs, targets[i], remove)
    {
      CleanPrefixShrinks(dirs, targets, i, remove);
      DirsPresentAfterShrink(dirs, CleanPrefix(dirs, targets, i, remove).dirs, targets[i], remove);
    }
  }

  /**
    Under `-x`, a repository deleted with the tree of an earlier target needs
    no `_manifests/tags`: `clean_repo` finds it missing and returns false.
  */
  lemma RemovedNestedRepositoryNeedsNothing()
    ensures var dirs := map["lib" := Dir(Some(map[]), Some({})), "lib/app" := Dir(None, None)];
            && WellFormed(dirs)
            && !DirsPresent(dirs, "lib/app", true)
            && StepsPresent(dirs, ["lib", "lib/app"], true)
  {
    var dirs := map["lib" := Dir(Some(map[]), Some({})), "lib/app" := Dir(None, None)];
    NestedNames();
    assert WellFormed(dirs);
    var targets := ["lib", "lib/app"];
    assert CleanPrefix(dirs, targets, 1, true).dirs == WithoutTree(dirs, "lib");
  }

  /** The names of the nested example: plain repository names, `lib/app` below `lib`. */
  lemma NestedNames()
    ensures forall i :: 0 <= i < 3 ==> "lib"[i] != '/' && "lib"[i] != ':'
    ensures forall i :: 0 <= i < 7 && i != 3 ==> "lib/app"[i] != '/'
    ensures "lib/app"[..3] == "lib" && InTree("lib/app", "lib")
    ensures Target("lib") == ("lib", "") && Target("lib/app") == ("lib/app", "")
  {
    assert forall i :: 0 <= i < 7 ==> "lib/app"[i] != ':';
  }

  /**
    The corrected default targets, every repository of a store in which each
    repository has its revisions directory, make a run that raises nothing.
  */
  lemma CorrectedDefaultRunPresent(dirs: map<Path, Dir>, listing: seq<Path>)
    requires WellFormed(dirs)
    requires forall q :: q in dirs && IsRepository(dirs[q]) ==> dirs[q].revisions.Some?
    requires forall i :: 0 <= i < |listing| ==> listing[i] in RepositoryDirs(dirs)
    ensures StepsPresent(dirs, listing, false)
  {
    forall j | 0 <= j < |listing| ensures DirsPresent(dirs, listing[j], false) {
      DefaultTargetsPresent(dirs, listing[j]);
    }
    PresentBeforeRun(dirs, listing, false);
  }

  /**
    In a store without namespaces, where every directory is a repository with
    its revisions directory, the listing of the repositories root, as
    written, makes a run that raises nothing.
  */
  lemma FlatListingRunPresent(dirs: map<Path, Dir>, listing: seq<Path>)
    requires WellFormed(dirs) && ListsRoot(listing, dirs)
    requires forall q :: q in dirs ==> '/' !in q && IsRepository(dirs[q]) && dirs[q].revisions.Some?
    ensures StepsPresent(dirs, listing, false)
  {
    DefaultTargetsAgreeWhenFlat(dirs);
    assert forall i :: 0 <= i < |listing| ==> listing[i] in RepositoryDirs(dirs);
    CorrectedDefaultRunPresent(dirs, listing);
  }

  /**
    With the namespaced repository `myorg/app`, the listing of the
    repositories root is `myorg` alone, and its first step lists a missing
    revisions directory: `__call__` without arguments raises.
  */
  lemma NamespacedDefaultRunRaises(listing: seq<Path>)
    requires ListsRoot(listing, map["myorg" := Dir(None, None), "myorg/app" := Dir(Some(map[]), Some({}))])
    ensures !StepsPresent(map["myorg" := Dir(None, None), "myorg/app" := Dir(Some(map[]), Some({}))], listing, false)
  {
    var dirs := map["myorg" := Dir(None, None), "myorg/app" := Dir(Some(map[]), Some({}))];
    NamespaceDirIsTargeted();
    assert "myorg" in listing;
    assert TopLevelDirs(dirs) == {"myorg"} by {
      assert "myorg/app"[5] == '/';
    }
    assert listing[0] == "myorg";
    assert CleanPrefix(dirs, listing, 0, false).dirs == dirs;
  }

  /** The store with every directory named in `images` pruned and swept. */
  function PrunedAt(dirs: map<Path, Dir>, images: seq<Path>): (r: map<Path, Dir>)
    ensures r.Keys == dirs.Keys
    ensures forall p :: p in dirs && p !in images ==> r[p] == dirs[p]
  {
    map p | p in dirs :: if p in images then Swept(Pruned(dirs[p])) else dirs[p]
  }

  /** Pruning one more directory of a pruned store. */
  lemma PrunedAtStep(dirs: map<Path, Dir>, init: seq<Path>, p: Path)
    requires p in dirs
    ensures var mid := PrunedAt(dirs, init);
            mid[p := Swept(Pruned(mid[p]))] == PrunedAt(dirs, init + [p])
  {
    var mid := PrunedAt(dirs, init);
    if p in init {
      PruneIdempotent(dirs[p]);
    }
    forall q | q in dirs ensures mid[p := Swept(Pruned(mid[p]))][q] == PrunedAt(dirs, init + [p])[q] {
      assert q in init + [p] <==> q in init || q == p;
    }
  }

  /** A prefix of a sequence is the shorter prefix and its last element. */
  lemma PrefixSnoc<T>(s: seq<T>, n: nat)
    requires 0 < n <= |s|
    ensures s[..n - 1] + [s[n - 1]] == s[..n]
  {
    assert (s[..n - 1] + [s[n - 1]])[n - 1] == s[n - 1];
  }

  /** `clean_repo` of a repository name without a tag and without `-x`. */
  lemma DefaultStep(dirs: map<Path, Dir>, p: Path)
    requires p in dirs && ':' !in p
    ensures CleanRepoResult(dirs, p, false) == Outcome(true, dirs[p := Swept(Pruned(dirs[p]))])
  {
    assert Target(p) == (p, "");
  }

  /**
    A default run (names of repositories that have their revisions
    directory, without a tag, no `-x`) succeeds and
    leaves exactly each named repository pruned and swept, however often a
    name is repeated.
  */
  lemma {:induction false} DefaultRunClosedForm(dirs: map<Path, Dir>, images: seq<Path>, n: nat)
    requires n <= |images|
    requires forall i :: 0 <= i < |images| ==> images[i] in dirs && ':' !in images[i] && dirs[images[i]].revisions.Some?
    ensures CleanPrefix(dirs, images, n, false).ok
    ensures CleanPrefix(dirs, images, n, false).dirs == PrunedAt(dirs, images[..n])
    decreases n
  {
    if n == 0 {
      assert PrunedAt(dirs, images[..0]) == dirs;
    } else {
      DefaultRunClosedForm(dirs, images, n - 1);
      DefaultStep(CleanPrefix(dirs, images, n - 1, false).dirs, images[n - 1]);
      PrunedAtStep(dirs, images[..n - 1], images[n - 1]);
      PrefixSnoc(images, n);
    }
  }

  /**
    Running the default cleaning a second time over the same targets changes
    nothing and succeeds again.
  */
  lemma DefaultRunIdempotent(dirs: map<Path, Dir>, images: seq<Path>)
    requires forall i :: 0 <= i < |images| ==> images[i] in dirs && ':' !in images[i] && dirs[images[i]].revisions.Some?
    ensures var once := CleanAll(dirs, images, false);
            CleanAll(once.dirs, images, false).dirs == once.dirs && CleanAll(once.dirs, images, false).ok
  {
    DefaultRunClosedForm(dirs, images, |images|);
    assert images[..|images|] == images;
    var once := PrunedAt(dirs, images);
    DefaultRunClosedForm(once, images, |images|);
    forall p | p in dirs && p in images ensures Swept(Pruned(once[p])) == once[p] {
      PruneIdempotent(dirs[p]);
    }
    assert PrunedAt(once, images) == once;
  }

  // ---------------------------------------------------------------------------
  // The collector's status

  /**
    What `garbage_collect` returns for the collector's exit status, as
    written, read as `__call__`'s `if not self.garbage_collect()` reads it:
    in the container it returns the exit status itself, which is truthy when
    the status is not 0; otherwise it returns whether the status is 0.
  */
  function CollectResultAsWritten(dockerized: bool, exitCode: int): bool {
    if dockerized then exitCode != 0 else exitCode == 0
  }

  /** The collector's success as intended: its exit status is 0. */
  function CollectSucceeded(exitCode: int): bool {
    exitCode == 0
  }

  /**
    As written, in the container a collector that succeeds counts as failed
    and one that fails counts as succeeded, so `__call__` returns 1 after a
    clean run with a successful collection.
  */
  lemma DockerizedCollectInverted(exitCode: int)
    ensures CollectResultAsWritten(true, exitCode) <==> !CollectSucceeded(exitCode)
    ensures CollectResultAsWritten(true, 0) == false
  {
  }

  /** Outside the container the written result is the intended one. */
  lemma HostCollectAgrees(exitCode: int)
    ensures CollectResultAsWritten(false, exitCode) == CollectSucceeded(exitCode)
  {
  }

  // ---------------------------------------------------------------------------
  // The cleaner

  class RegistryCleaner {
    /** The repositories tree of the registry the cleaner works on. */
    const store: Store
    /** The Docker calls and cleaning steps so far. */
    ghost var trace: seq<Event>

    ghost predicate Valid()
      reads this, store
    {
      store.Valid()
    }

    constructor (registry: Store)
      requires registry.Valid()
      ensures store == registry && trace == [] && Valid()
    {
      store := registry;
      trace := [];
    }

    /** `self.docker.api.stop(self.container)`. */
    method StopRegistry()
      modifies this
      ensures trace == old(trace) + [Stop]
    {
      trace := trace + [Stop];
    }

    /**
      `self.garbage_collect()`, which runs the collector: true exactly when
      the collector exits with status 0, whose exit status `exitCode` is an
      input.
    */
    method GarbageCollect(exitCode: int) returns (ok: bool)
      modifies this
      ensures ok == CollectSucceeded(exitCode) && trace == old(trace) + [Collect(ok)]
    {
      ok := CollectSucceeded(exitCode);
      trace := trace + [Collect(ok)];
    }

    /** `self.docker.api.start(self.container)`. */
    method StartRegistry()
      modifies this
      ensures trace == old(trace) + [Start]
    {
      trace := trace + [Start];
    }

    /** One turn of the loop of `__call__`: `clean_repo(targets[i])`. */
    method CleanNext(ghost d0: map<Path, Dir>, targets: seq<string>, i: nat, remove: bool, allOk: bool)
      returns (allOk': bool)
      requires i < |targets| && WellFormed(d0) && CleanedUpTo(d0, targets, i, remove, store.dirs, allOk)
      requires DirsPresent(store.dirs, targets[i], remove)
      modifies store
      ensures CleanedUpTo(d0, targets, i + 1, remove, store.dirs, allOk')
    {
      CleanPrefixWellFormed(d0, targets, i, remove);
      var ok := store.CleanRepo(targets[i], remove);
      allOk' := allOk && ok;
    }

    /**
      The loop of `__call__`: `clean_repo` on each target in order, on the
      store the earlier ones left; true exactly when every step succeeded.
      The trace records one `Clean` event per target, appended as the run's
      block of events once the loop is done.
    */
    method CleanEach(targets: seq<string>, remove: bool) returns (allOk: bool)
      requires Valid() && StepsPresent(store.dirs, targets, remove)
      modifies this, store
      ensures Valid()
      ensures var b := CleanAll(old(store.dirs), targets, remove);
              store.dirs == b.dirs && trace == old(trace) + b.events && allOk == b.ok
    {
      ghost var d0 := store.dirs;
      allOk := true;
      var i := 0;
      while i < |targets|
        invariant 0 <= i <= |targets|
        invariant CleanedUpTo(d0, targets, i, remove, store.dirs, allOk)
        modifies store
      {
        allOk := CleanNext(d0, targets, i, remove, allOk);
        i := i + 1;
      }
      CleanPrefixWellFormed(d0, targets, |targets|, remove);
      trace := trace + CleanAll(d0, targets, remove).events;
    }

    /**
      `__call__`: stops the registry, cleans the targets (the arguments, or
      when there are none `listing`, the top-level directories of the
      store), runs the garbage collector even when a step failed,
      starts the registry, and returns 0 exactly when every step succeeded and
      the collector exited with status 0, 1 otherwise.
    */
    method Call(images: seq<string>, remove: bool, listing: seq<Path>, exitCode: int) returns (rc: int)
      requires Valid() && (images == [] ==> ListsRoot(listing, store.dirs))
      requires StepsPresent(store.dirs, Targets(images, listing), remove)
      modifies this, store
      ensures Valid()
      ensures var b := CleanAll(old(store.dirs), Targets(images, listing), remove);
              && store.dirs == b.dirs
              && trace == old(trace) + [Stop] + b.events + [Collect(exitCode == 0), Start]
              && (rc == 0 <==> exitCode == 0 && forall i :: 0 <= i < |b.events| ==> b.events[i] == Clean(Targets(images, listing)[i], true))
              && rc == (if b.ok && exitCode == 0 then 0 else 1)
    {
      StopRegistry();
      var targets := if images != [] then images else listing;
      assert targets == Targets(images, listing);
      var allOk := CleanEach(targets, remove);
      rc := if allOk then 0 else 1;
      CleanPrefixEvents(old(store.dirs), targets, |targets|, remove);
      CleanPrefixOk(old(store.dirs), targets, |targets|, remove);
      var gc := GarbageCollect(exitCode);
      if !gc {
        rc := 1;
      }
      StartRegistry();
    }
  }

  // ---------------------------------------------------------------------------
  // main

  /** The checks `main` makes before it touches the registry: every name is valid, and `-x` names something. */
  predicate Guard(images: seq<string>, remove: bool) {
    (forall i :: 0 <= i < |images| ==> CheckName(images[i])) && !(remove && images == [])
  }

  /** The loop of `main` over the arguments: true exactly when every name passes the check. */
  method ValidImages(images: seq<string>) returns (ok: bool)
    ensures ok <==> forall i :: 0 <= i < |images| ==> CheckName(images[i])
  {
    var i := 0;
    while i < |images|
      invariant 0 <= i <= |images|
      invariant forall j :: 0 <= j < i ==> CheckName(images[j])
    {
      if !CheckName(images[i]) {
        return false;
      }
      i := i + 1;
    }
    return true;
  }

  /**
    `main` from the argument checks on: exit status 1, with the registry not
    touched, when a name is invalid or `-x` is given without names; otherwise
    the exit status of the cleaner.
  */
  method CleanRegistry(cleaner: RegistryCleaner, images: seq<string>, remove: bool, listing: seq<Path>, exitCode: int)
    returns (rc: int)
    requires cleaner.Valid() && (images == [] ==> ListsRoot(listing, cleaner.store.dirs))
    requires Guard(images, remove) ==> StepsPresent(cleaner.store.dirs, Targets(images, listing), remove)
    modifies cleaner, cleaner.store
    ensures cleaner.Valid()
    ensures !Guard(images, remove) ==>
              rc == 1 && cleaner.trace == old(cleaner.trace) && cleaner.store.dirs == old(cleaner.store.dirs)
    ensures Guard(images, remove) ==>
              var b := CleanAll(old(cleaner.store.dirs), Targets(images, listing), remove);
              && cleaner.store.dirs == b.dirs
              && cleaner.trace == old(cleaner.trace) + [Stop] + b.events + [Collect(exitCode == 0), Start]
              && rc == (if b.ok && exitCode == 0 then 0 else 1)
  {
    var valid := ValidImages(images);
    if !valid || (remove && images == []) {
      return 1;
    }
    rc := cleaner.Call(images, remove, listing, exitCode);
  }
}
