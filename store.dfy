/**
  The registry's repositories tree as a mutable object, and the cleaning
  functions of the source as methods on it. Each `remove(path)` of the source
  is one of the `Remove` methods: it deletes one directory and everything in
  it. The methods loop the way the source does and are proved against the
  functions of `Layout` and `Selection`.
*/
module Storage {
  import opened Wrappers
  import opened Layout
  import opened Selection

  class Store {
    /** Every directory below the repositories root and what the cleaner sees in it. */
    var dirs: map<Path, Dir>

    ghost predicate Valid()
      reads this
    {
      WellFormed(dirs)
    }

    constructor (initial: map<Path, Dir>)
      requires WellFormed(initial)
      ensures Valid() && dirs == initial
    {
      dirs := initial;
    }

    // -------------------------------------------------------------------------
    // remove(path)

    /** `remove(repo)`: the repository directory and every directory below it. */
    method RemoveTree(root: Path)
      requires Valid()
      modifies this
      ensures Valid()
      ensures dirs == WithoutTree(old(dirs), root)
    {
      WithoutTreeWellFormed(dirs, root);
      dirs := WithoutTree(dirs, root);
    }

    /** `remove(repo + "/_manifests/tags/" + tag)`. */
    method RemoveTagDir(repo: Path, tag: TagName)
      requires Valid() && repo in dirs
      modifies this
      ensures Valid()
      ensures dirs == old(dirs)[repo := WithoutTag(old(dirs)[repo], tag)]
    {
      UpdateWellFormed(dirs, repo, WithoutTag(dirs[repo], tag));
      dirs := dirs[repo := WithoutTag(dirs[repo], tag)];
    }

    /** `remove(.../tags/<tag>/index/sha256/<x>)`. */
    method RemoveIndexEntry(repo: Path, tag: TagName, x: Digest)
      requires Valid() && repo in dirs
      modifies this
      ensures Valid()
      ensures dirs == old(dirs)[repo := WithoutEntries(old(dirs)[repo], {(tag, x)})]
    {
      UpdateWellFormed(dirs, repo, WithoutEntries(dirs[repo], {(tag, x)}));
      dirs := dirs[repo := WithoutEntries(dirs[repo], {(tag, x)})];
    }

    /** `remove(repo + "/_manifests/revisions/sha256/" + x)`. */
    method RemoveRevision(repo: Path, x: Digest)
      requires Valid() && repo in dirs
      modifies this
      ensures Valid()
      ensures dirs == old(dirs)[repo := WithoutRevision(old(dirs)[repo], x)]
    {
      UpdateWellFormed(dirs, repo, WithoutRevision(dirs[repo], x));
      dirs := dirs[repo := WithoutRevision(dirs[repo], x)];
    }

    // -------------------------------------------------------------------------
    // clean_revisions, clean_tag, clean_repo

    /**
      `clean_revisions(repo)`: deletes every revision no index entry of the
      repository references; the revision set becomes its intersection with
      the referenced digests, and nothing else changes.
    */
    method CleanRevisions(repo: Path)
      requires Valid() && repo in dirs && dirs[repo].revisions.Some?
      modifies this
      ensures Valid()
      ensures dirs == old(dirs)[repo := Swept(old(dirs)[repo])]
    {
      ghost var d := dirs[repo];
      var revisions := dirs[repo].revisions.value;
      var manifests := Referenced(dirs[repo]);
      var stale := revisions - manifests;
      var pending := stale;
      assert revisions - (stale - pending) == revisions;
      assert d.(revisions := Some(revisions)) == d;
      assert old(dirs)[repo := d] == old(dirs);
      while pending != {}
        invariant pending <= stale && Valid()
        invariant dirs == old(dirs)[repo := d.(revisions := Some(revisions - (stale - pending)))]
        decreases pending
      {
        var x :| x in pending;
        ghost var kept := revisions - (stale - pending);
        RemoveRevision(repo, x);
        assert kept - {x} == revisions - (stale - (pending - {x}));
        pending := pending - {x};
      }
      assert revisions - (stale - {}) == revisions * manifests;
    }

    /**
      The index loop of `clean_tag`: deletes every index entry of `tag` whose
      digest is not `current`.
    */
    method PruneTagIndex(repo: Path, tag: TagName, current: Digest)
      requires Valid() && repo in dirs && tag in Tags(dirs[repo]) && Tags(dirs[repo])[tag].index.Some?
      modifies this
      ensures Valid()
      ensures dirs == old(dirs)[repo := WithoutEntries(old(dirs)[repo], set x | x in Index(Tags(old(dirs)[repo])[tag]) && x != current :: (tag, x))]
    {
      ghost var d := dirs[repo];
      var entries := Tags(dirs[repo])[tag].index.value;
      var pending := entries;
      ghost var gone: set<(TagName, Digest)> := {};
      WithoutAbsentEntries(d, {});
      assert old(dirs)[repo := d] == old(dirs);
      while pending != {}
        invariant pending <= entries && Valid()
        invariant forall p :: p in gone <==> p.0 == tag && p.1 in entries && p.1 !in pending && p.1 != current
        invariant dirs == old(dirs)[repo := WithoutEntries(d, gone)]
        decreases pending
      {
        var x :| x in pending;
        if x != current {
          RemoveIndexEntry(repo, tag, x);
          DeleteMore(d, gone, (tag, x));
          gone := gone + {(tag, x)};
        }
        pending := pending - {x};
      }
      assert gone == set x | x in Index(Tags(d)[tag]) && x != current :: (tag, x);
    }

    /**
      `clean_tag(repo, tag)`: false, changing nothing, when the tag has no
      `current/link`; otherwise true, having deleted the tag's directory under
      `-x`, or else the tag's index entries other than its current digest and
      then the unreferenced revisions.
    */
    method CleanTag(repo: Path, tag: TagName, remove: bool) returns (ok: bool)
      requires Valid()
      requires !remove && repo in dirs && HasCurrent(dirs[repo], tag) ==>
                 Tags(dirs[repo])[tag].index.Some? && dirs[repo].revisions.Some?
      modifies this
      ensures Valid()
      ensures ok == (repo in old(dirs) && HasCurrent(old(dirs)[repo], tag))
      ensures Outcome(ok, dirs) == CleanTagResult(old(dirs), repo, tag, remove)
    {
      if repo !in dirs || !HasCurrent(dirs[repo], tag) {
        return false;
      }
      if remove {
        RemoveTagDir(repo, tag);
      } else {
        ghost var d := dirs[repo];
        var current := CurrentDigest(Tags(dirs[repo])[tag].link.value);
        PruneTagIndex(repo, tag, current);
        assert current == Current(d, tag);
        assert StaleOfTag(d, tag) == set x | x in Index(Tags(d)[tag]) && x != current :: (tag, x);
        CleanRevisions(repo);
      }
      ok := true;
    }

    /**
      The index loop of `clean_repo`: deletes every index entry, under any
      tag, whose digest is not in `currents`.
    */
    method PruneIndex(repo: Path, currents: set<Digest>)
      requires Valid() && repo in dirs
      modifies this
      ensures Valid()
      ensures dirs == old(dirs)[repo := WithoutEntries(old(dirs)[repo], set p | p in IndexEntries(old(dirs)[repo]) && p.1 !in currents)]
    {
      ghost var d := dirs[repo];
      var entries := IndexEntries(dirs[repo]);
      var pending := entries;
      ghost var gone: set<(TagName, Digest)> := {};
      WithoutAbsentEntries(d, {});
      assert old(dirs)[repo := d] == old(dirs);
      while pending != {}
        invariant pending <= entries && Valid()
        invariant forall p :: p in gone <==> p in entries && p !in pending && p.1 !in currents
        invariant dirs == old(dirs)[repo := WithoutEntries(d, gone)]
        decreases pending
      {
        var p :| p in pending;
        if p.1 !in currents {
          RemoveIndexEntry(repo, p.0, p.1);
          DeleteMore(d, gone, p);
          gone := gone + {p};
        }
        pending := pending - {p};
      }
      assert gone == set p | p in IndexEntries(d) && p.1 !in currents;
    }

    /**
      `clean_repo(image)`: false, changing nothing, when the repository is not
      a directory; under `-x` with no tag, or with the repository's only tag,
      deletes the repository; with a tag, `clean_tag`; otherwise deletes every
      index entry whose digest is no tag's current digest and then the
      unreferenced revisions.
    */
    method CleanRepo(image: string, remove: bool) returns (ok: bool)
      requires Valid() && DirsPresent(dirs, image, remove)
      modifies this
      ensures Valid()
      ensures Outcome(ok, dirs) == CleanRepoResult(old(dirs), image, remove)
    {
      var (repo, tag) := Target(image);
      if repo !in dirs {
        return false;
      }
      if remove {
        var tags := Tags(dirs[repo]).Keys;
        if tag == "" || (|tags| == 1 && tag in tags) {
          assert |tags| == |Tags(dirs[repo])|;
          RemoveTree(repo);
          return true;
        }
      }
      if tag != "" {
        ok := CleanTag(repo, tag, remove);
        return;
      }
      ghost var d := dirs[repo];
      var currents := CurrentsOf(dirs[repo]);
      PruneIndex(repo, currents);
      assert dirs[repo] == Pruned(d);
      CleanRevisions(repo);
      ok := true;
    }
  }

  /** Deleting one more entry after a set of them is deleting the larger set. */
  lemma DeleteMore(d: Dir, done: set<(TagName, Digest)>, p: (TagName, Digest))
    ensures WithoutEntries(WithoutEntries(d, done), {p}) == WithoutEntries(d, done + {p})
  {
    var a := WithoutEntries(WithoutEntries(d, done), {p});
    var b := WithoutEntries(d, done + {p});
    SameDir(a, b);
  }

  /**
    The loop of `clean_repo` that reads every tag's `current/link`: the set it
    builds holds exactly the current digests of the tags.
  */
  method CurrentsOf(d: Dir) returns (currents: set<Digest>)
    ensures currents == Currents(d)
  {
    var tags := Tags(d);
    currents := {};
    var pending := tags.Keys;
    while pending != {}
      invariant pending <= tags.Keys
      invariant currents == set t | t in tags.Keys - pending && tags[t].link.Some? :: CurrentDigest(tags[t].link.value)
      decreases pending
    {
      var t :| t in pending;
      if tags[t].link.Some? {
        currents := currents + {CurrentDigest(tags[t].link.value)};
      }
      pending := pending - {t};
    }
  }
}
