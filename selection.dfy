/**
  What `clean_tag` and `clean_repo` do to the whole store, as functions from
  the directories before to the result and the directories after. The store
  is a map from each directory below the repositories root to what the
  cleaner sees in it (`Layout.Dir`); `rmtree` of a repository also deletes
  every directory below it.
*/
module Selection {
  import opened Wrappers
  import opened Layout
  import Names

  /** `p` is `root` or lies below it. */
  predicate InTree(p: Path, root: Path) {
    p == root || (|root| < |p| && p[..|root|] == root && p[|root|] == '/')
  }

  /** The store after `rmtree(root)`. */
  function WithoutTree(dirs: map<Path, Dir>, root: Path): (r: map<Path, Dir>)
    ensures forall p :: p in r <==> p in dirs && !InTree(p, root)
    ensures forall p :: p in r ==> r[p] == dirs[p]
  {
    map p | p in dirs && !InTree(p, root) :: dirs[p]
  }

  /** A directory path the store can hold: non-empty, no trailing slash, no colon (the grammar has none). */
  predicate PathOk(p: Path) {
    p != [] && p[|p| - 1] != '/' && ':' !in p
  }

  /** Every path is well formed and every parent directory of a path is itself in the store. */
  ghost predicate WellFormed(dirs: map<Path, Dir>) {
    forall p :: p in dirs ==>
      PathOk(p) && forall i :: 0 <= i < |p| && p[i] == '/' ==> p[..i] in dirs
  }

  /** The result of a step and the store after it. */
  datatype Outcome = Outcome(ok: bool, dirs: map<Path, Dir>)

  /** `clean_tag(repo, tag)`. */
  function CleanTagResult(dirs: map<Path, Dir>, repo: Path, tag: TagName, remove: bool): Outcome {
    if repo !in dirs || !HasCurrent(dirs[repo], tag) then Outcome(false, dirs)
    else if remove then Outcome(true, dirs[repo := WithoutTag(dirs[repo], tag)])
    else Outcome(true, dirs[repo := Swept(TagPruned(dirs[repo], tag))])
  }

  /** The repository and the tag of a `clean_repo` argument; the tag is `""` when none is given. */
  function Target(image: string): (Path, TagName) {
    Names.SplitImage(image, "")
  }

  /** `-x` with no tag, or with the repository's only tag: the whole repository goes. */
  predicate RemovesWholeRepository(d: Dir, tag: TagName) {
    tag == "" || (|Tags(d)| == 1 && tag in Tags(d))
  }

  /** `clean_repo(image)`. */
  function CleanRepoResult(dirs: map<Path, Dir>, image: string, remove: bool): Outcome {
    var (repo, tag) := Target(image);
    if repo !in dirs then Outcome(false, dirs)
    else if remove && RemovesWholeRepository(dirs[repo], tag) then Outcome(true, WithoutTree(dirs, repo))
    else if tag != "" then CleanTagResult(dirs, repo, tag, remove)
    else Outcome(true, dirs[repo := Swept(Pruned(dirs[repo]))])
  }

  /**
    Every directory `clean_repo(image)` lists is present, so that the source
    raises no `FileNotFoundError`: `_manifests/tags` under `-x`, the tag's
    `index/sha256` when it prunes a tag, `revisions/sha256` when it sweeps.
  */
  predicate DirsPresent(dirs: map<Path, Dir>, image: string, remove: bool) {
    var (repo, tag) := Target(image);
    repo in dirs ==>
      && (remove ==> dirs[repo].tags.Some?)
      && (!remove && tag == "" ==> dirs[repo].revisions.Some?)
      && (!remove && tag != "" && HasCurrent(dirs[repo], tag) ==>
            Tags(dirs[repo])[tag].index.Some? && dirs[repo].revisions.Some?)
  }

  // ---------------------------------------------------------------------------
  // The store stays well formed

  /** A path whose prefix up to a slash is `root`, or lies below it, lies below `root`. */
  lemma PrefixInTree(p: Path, i: nat, root: Path)
    requires i < |p| && p[i] == '/' && InTree(p[..i], root)
    ensures InTree(p, root)
  {
    if p[..i] == root {
      assert p[..|root|] == root;
    } else {
      assert p[..i][..|root|] == p[..|root|];
      assert p[..i][|root|] == p[|root|];
    }
  }

  /** `rmtree` keeps the store well formed: the parents of a surviving directory survive. */
  lemma WithoutTreeWellFormed(dirs: map<Path, Dir>, root: Path)
    requires WellFormed(dirs)
    ensures WellFormed(WithoutTree(dirs, root))
  {
    var r := WithoutTree(dirs, root);
    forall p, i | p in r && 0 <= i < |p| && p[i] == '/' ensures p[..i] in r {
      if InTree(p[..i], root) {
        PrefixInTree(p, i, root);
      }
    }
  }

  /** Replacing the contents of a directory keeps the store well formed. */
  lemma UpdateWellFormed(dirs: map<Path, Dir>, repo: Path, d: Dir)
    requires WellFormed(dirs) && repo in dirs
    ensures WellFormed(dirs[repo := d])
  {
    assert dirs[repo := d].Keys == dirs.Keys;
  }

  /** `clean_repo` keeps the store well formed. */
  lemma CleanRepoWellFormed(dirs: map<Path, Dir>, image: string, remove: bool)
    requires WellFormed(dirs)
    ensures WellFormed(CleanRepoResult(dirs, image, remove).dirs)
  {
    var (repo, tag) := Target(image);
    if repo in dirs {
      if remove && RemovesWholeRepository(dirs[repo], tag) {
        WithoutTreeWellFormed(dirs, repo);
      } else if tag != "" {
        if HasCurrent(dirs[repo], tag) {
          if remove {
            UpdateWellFormed(dirs, repo, WithoutTag(dirs[repo], tag));
          } else {
            UpdateWellFormed(dirs, repo, Swept(TagPruned(dirs[repo], tag)));
          }
        }
      } else {
        UpdateWellFormed(dirs, repo, Swept(Pruned(dirs[repo])));
      }
    }
  }

  // ---------------------------------------------------------------------------
  // Selection

  /**
    `clean_repo` reports success exactly when the repository exists and either
    no tag is given, the tag has a current link, or `-x` removes the whole
    repository because the tag is its only one.
  */
  lemma CleanRepoSucceedsIff(dirs: map<Path, Dir>, image: string, remove: bool)
    ensures var (repo, tag) := Target(image);
            CleanRepoResult(dirs, image, remove).ok <==>
              repo in dirs &&
              (tag == "" || HasCurrent(dirs[repo], tag) || (remove && RemovesWholeRepository(dirs[repo], tag)))
  {
  }

  /** A missing repository is an error that changes nothing. */
  lemma CleanRepoMissing(dirs: map<Path, Dir>, image: string, remove: bool)
    requires Target(image).0 !in dirs
    ensures CleanRepoResult(dirs, image, remove) == Outcome(false, dirs)
  {
  }

  /**
    Under `-x` the repository directory, with everything below it, is deleted
    exactly when no tag is given or the given tag is the repository's only tag;
    otherwise the request goes to `clean_tag`, which deletes only that tag.
  */
  lemma RemoveSelection(dirs: map<Path, Dir>, image: string)
    requires Target(image).0 in dirs
    ensures var (repo, tag) := Target(image);
            var r := CleanRepoResult(dirs, image, true);
            && (repo !in r.dirs <==> RemovesWholeRepository(dirs[repo], tag))
            && (RemovesWholeRepository(dirs[repo], tag) ==>
                  r.ok && forall p :: p in r.dirs <==> p in dirs && !InTree(p, repo))
            && (!RemovesWholeRepository(dirs[repo], tag) ==> r == CleanTagResult(dirs, repo, tag, true))
  {
  }

  /** A tag without a `current/link` is an error that changes nothing. */
  lemma CleanTagMissing(dirs: map<Path, Dir>, repo: Path, tag: TagName, remove: bool)
    requires repo !in dirs || !HasCurrent(dirs[repo], tag)
    ensures CleanTagResult(dirs, repo, tag, remove) == Outcome(false, dirs)
  {
  }

  /**
    `clean_tag` under `-x` deletes exactly that tag's directory, current link
    and index with it; the other tags, the revisions and every other directory
    stay.
  */
  lemma CleanTagRemovesOnlyTag(dirs: map<Path, Dir>, repo: Path, tag: TagName)
    requires repo in dirs && HasCurrent(dirs[repo], tag)
    ensures var r := CleanTagResult(dirs, repo, tag, true);
            && r.ok
            && r.dirs.Keys == dirs.Keys
            && (forall p :: p in dirs && p != repo ==> r.dirs[p] == dirs[p])
            && r.dirs[repo].revisions == dirs[repo].revisions
            && Tags(r.dirs[repo]).Keys == Tags(dirs[repo]).Keys - {tag}
            && (forall t :: t in Tags(r.dirs[repo]) ==> Tags(r.dirs[repo])[t] == Tags(dirs[repo])[t])
  {
    var r := CleanTagResult(dirs, repo, tag, true);
    assert r.dirs == dirs[repo := WithoutTag(dirs[repo], tag)];
  }

  /**
    `clean_tag` without `-x` deletes exactly the index entries of that tag
    that differ from its current digest, then the revisions no index entry
    references; links, tags and other directories stay.
  */
  lemma CleanTagPrunes(dirs: map<Path, Dir>, repo: Path, tag: TagName, t: TagName, x: Digest)
    requires repo in dirs && HasCurrent(dirs[repo], tag)
    ensures var r := CleanTagResult(dirs, repo, tag, false);
            var d, e := dirs[repo], r.dirs[repo];
            && r.ok
            && r.dirs.Keys == dirs.Keys
            && (forall p :: p in dirs && p != repo ==> r.dirs[p] == dirs[p])
            && Tags(e).Keys == Tags(d).Keys
            && (t in Tags(d) ==> Tags(e)[t].link == Tags(d)[t].link)
            && (t in Tags(d) ==>
                  (x in Index(Tags(e)[t]) <==> x in Index(Tags(d)[t]) && (t != tag || x == Current(d, tag))))
            && (x in Revisions(e) <==>
                  x in Revisions(d) && exists u :: u in Tags(e) && x in Index(Tags(e)[u]))
  {
    var d := dirs[repo];
    var p := TagPruned(d, tag);
    TagPrunedSurvivors(d, tag, t, x);
    SweptSurvivors(p, x);
  }

  /**
    `clean_repo` with no tag and no `-x`: an index entry survives exactly when
    its digest is some tag's current digest, no link or tag is deleted, and a
    revision survives exactly when a surviving index entry references it.
  */
  lemma CleanRepoPrunes(dirs: map<Path, Dir>, repo: Path, t: TagName, x: Digest)
    requires PathOk(repo) && repo in dirs
    ensures var r := CleanRepoResult(dirs, repo, false);
            var d, e := dirs[repo], r.dirs[repo];
            && r.ok
            && r.dirs.Keys == dirs.Keys
            && (forall p :: p in dirs && p != repo ==> r.dirs[p] == dirs[p])
            && Tags(e).Keys == Tags(d).Keys
            && (t in Tags(d) ==> Tags(e)[t].link == Tags(d)[t].link)
            && (t in Tags(d) ==> (x in Index(Tags(e)[t]) <==> x in Index(Tags(d)[t]) && x in Currents(d)))
            && (x in Revisions(e) <==>
                  x in Revisions(d) && exists u :: u in Tags(e) && x in Index(Tags(e)[u]))
  {
    assert Target(repo) == (repo, "");
    var d := dirs[repo];
    var p := Pruned(d);
    PrunedSurvivors(d, t, x);
    SweptSurvivors(p, x);
  }

  // ---------------------------------------------------------------------------
  // What an ordinary prune never removes

  /** Both stores have the same directories, the same tags and the same current links. */
  ghost predicate SameLinks(a: map<Path, Dir>, b: map<Path, Dir>) {
    && a.Keys == b.Keys
    && forall p :: p in a ==>
         && a[p].tags.Some? == b[p].tags.Some?
         && Tags(a[p]).Keys == Tags(b[p]).Keys
         && forall t :: t in Tags(a[p]) ==> Tags(a[p])[t].link == Tags(b[p])[t].link
  }

  /**
    Without `-x`, `clean_repo` deletes no directory, no tag and no current
    link: those go only on an explicit delete request.
  */
  lemma PruneKeepsLinks(dirs: map<Path, Dir>, image: string)
    ensures SameLinks(dirs, CleanRepoResult(dirs, image, false).dirs)
  {
    var (repo, tag) := Target(image);
    var r := CleanRepoResult(dirs, image, false);
    if repo in dirs {
      var d := dirs[repo];
      if tag != "" {
        if HasCurrent(d, tag) {
          forall t | t in Tags(d) ensures Tags(r.dirs[repo])[t].link == Tags(d)[t].link {
            TagPrunedSurvivors(d, tag, t, "");
          }
        }
      } else {
        forall t | t in Tags(d) ensures Tags(r.dirs[repo])[t].link == Tags(d)[t].link {
          PrunedSurvivors(d, t, "");
        }
      }
    }
  }

  /**
    Without `-x`, running `clean_repo` a second time on the same argument
    changes nothing and reports the same result.
  */
  lemma CleanRepoIdempotent(dirs: map<Path, Dir>, image: string)
    ensures var once := CleanRepoResult(dirs, image, false);
            CleanRepoResult(once.dirs, image, false) == once
  {
    var (repo, tag) := Target(image);
    var once := CleanRepoResult(dirs, image, false);
    if repo in dirs {
      var d := dirs[repo];
      if tag != "" {
        if HasCurrent(d, tag) {
          TagPruneIdempotent(d, tag);
          assert once.dirs[repo := Swept(TagPruned(once.dirs[repo], tag))] == once.dirs;
        }
      } else {
        PruneIdempotent(d);
        assert once.dirs[repo := Swept(Pruned(once.dirs[repo]))] == once.dirs;
      }
    }
  }

  // ---------------------------------------------------------------------------
  // Later arguments still find their directories

  /** Every directory of `after` was in `before` with a narrower content: the steps only delete. */
  ghost predicate Shrinks(before: map<Path, Dir>, after: map<Path, Dir>) {
    forall p :: p in after ==>
      && p in before
      && after[p].tags.Some? == before[p].tags.Some?
      && after[p].revisions.Some? == before[p].revisions.Some?
      && Revisions(after[p]) <= Revisions(before[p])
      && forall t :: t in Tags(after[p]) ==>
           && t in Tags(before[p])
           && Tags(after[p])[t].link == Tags(before[p])[t].link
           && Tags(after[p])[t].index.Some? == Tags(before[p])[t].index.Some?
           && Index(Tags(after[p])[t]) <= Index(Tags(before[p])[t])
  }

  /** `clean_repo` only deletes. */
  lemma CleanRepoShrinks(dirs: map<Path, Dir>, image: string, remove: bool)
    ensures Shrinks(dirs, CleanRepoResult(dirs, image, remove).dirs)
  {
    var (repo, tag) := Target(image);
    var r := CleanRepoResult(dirs, image, remove);
    if repo in dirs && !(remove && RemovesWholeRepository(dirs[repo], tag)) {
      var d := dirs[repo];
      if tag != "" {
        if HasCurrent(d, tag) && !remove {
          forall t | t in Tags(d) ensures Tags(r.dirs[repo])[t].link == Tags(d)[t].link {
            TagPrunedSurvivors(d, tag, t, "");
          }
        }
      } else {
        forall t | t in Tags(d) ensures Tags(r.dirs[repo])[t].link == Tags(d)[t].link {
          PrunedSurvivors(d, t, "");
        }
      }
    }
  }

  /** What a later argument needs is still present after earlier steps only deleted. */
  lemma DirsPresentAfterShrink(before: map<Path, Dir>, after: map<Path, Dir>, image: string, remove: bool)
    requires Shrinks(before, after) && DirsPresent(before, image, remove)
    ensures DirsPresent(after, image, remove)
  {
    var (repo, tag) := Target(image);
    if repo in after && !remove && tag != "" && HasCurrent(after[repo], tag) {
      assert HasCurrent(before[repo], tag);
    }
  }
}
