/**
  The part of the registry's storage tree that the pruner reads and deletes.
  For a repository `R` and a tag `T` the files are

    R/_manifests/tags/T/current/link        content `sha256:<digest>`
    R/_manifests/tags/T/index/sha256/<d>/   one entry per digest T has named
    R/_manifests/revisions/sha256/<d>/      one entry per stored manifest

  Every directory below the repositories root is a `Dir`; one that only groups
  repositories (`library` in `library/app`) has neither a tags directory nor a
  revisions directory. The functions here are what the pruning steps leave
  behind; the lemmas state which entries survive.
*/
module Layout {
  import opened Wrappers

  /** A directory below the repositories root, `/`-separated. */
  type Path = string

  /** A sha256 digest in hex, the name of an index or revision entry. */
  type Digest = string

  type TagName = string

  /** `_manifests/tags/<tag>/`: the content of `current/link`, and the digests of `index/sha256/`, each when present. */
  datatype TagDir = TagDir(link: Option<string>, index: Option<set<Digest>>)

  /** `_manifests/tags/` and `_manifests/revisions/sha256/` of one directory, each when present. */
  datatype Dir = Dir(tags: Option<map<TagName, TagDir>>, revisions: Option<set<Digest>>)

  /** The prefix the registry writes in front of the digest in a `current/link` file. */
  const LinkPrefix: string := "sha256:"

  /**
    The digest a link names: the content with its first seven characters
    dropped, unchecked (Python slicing gives `""` for a shorter content).
  */
  function CurrentDigest(content: string): (d: Digest)
    ensures |content| >= |LinkPrefix| ==> content == content[..|LinkPrefix|] + d
    ensures |content| < |LinkPrefix| ==> d == []
  {
    if |content| < |LinkPrefix| then [] else content[|LinkPrefix|..]
  }

  /** A link written as `sha256:<d>` names `d`. */
  lemma CurrentDigestOfLink(d: Digest)
    ensures CurrentDigest(LinkPrefix + d) == d
  {
    assert (LinkPrefix + d)[|LinkPrefix|..] == d;
  }

  /** The tag directories of `d` (none when `_manifests/tags` is absent). */
  function Tags(d: Dir): map<TagName, TagDir> {
    if d.tags.Some? then d.tags.value else map[]
  }

  /** The index digests of a tag (none when `index/sha256` is absent). */
  function Index(t: TagDir): set<Digest> {
    if t.index.Some? then t.index.value else {}
  }

  /** The revision digests of `d` (none when `revisions/sha256` is absent). */
  function Revisions(d: Dir): set<Digest> {
    if d.revisions.Some? then d.revisions.value else {}
  }

  /** `os.path.isfile(.../tags/<tag>/current/link)`. */
  predicate HasCurrent(d: Dir, tag: TagName) {
    tag in Tags(d) && Tags(d)[tag].link.Some?
  }

  /** The digest the tag's current link names. */
  function Current(d: Dir, tag: TagName): Digest
    requires HasCurrent(d, tag)
  {
    CurrentDigest(Tags(d)[tag].link.value)
  }

  /** The digests named by the current link of some tag. */
  function Currents(d: Dir): set<Digest> {
    set t | t in Tags(d) && Tags(d)[t].link.Some? :: CurrentDigest(Tags(d)[t].link.value)
  }

  /** The index entries of all tags, as (tag, digest) pairs. */
  function IndexEntries(d: Dir): set<(TagName, Digest)> {
    set t, x | t in Tags(d) && x in Index(Tags(d)[t]) :: (t, x)
  }

  /** The digests that have an index entry under some tag: the names matched by the glob `tags/T/K/sha256/D`. */
  function Referenced(d: Dir): set<Digest> {
    set p | p in IndexEntries(d) :: p.1
  }

  /** The layout the registry keeps: a tag's current digest has an index entry under that tag. */
  ghost predicate CurrentsIndexed(d: Dir) {
    forall t :: HasCurrent(d, t) ==> Current(d, t) in Index(Tags(d)[t])
  }

  // ---------------------------------------------------------------------------
  // What the deletions leave

  /** A tag directory without the index digests `xs`. */
  function DropIndex(t: TagDir, xs: set<Digest>): TagDir {
    if t.index.None? then t else t.(index := Some(t.index.value - xs))
  }

  /** `d` after deleting the index entries in `gone`; links, tags and revisions stay. */
  function WithoutEntries(d: Dir, gone: set<(TagName, Digest)>): (r: Dir)
    ensures r.revisions == d.revisions && r.tags.Some? == d.tags.Some?
    ensures Tags(r).Keys == Tags(d).Keys
    ensures forall t :: t in Tags(d) ==>
              Tags(r)[t].link == Tags(d)[t].link && Tags(r)[t].index.Some? == Tags(d)[t].index.Some?
    ensures forall t, x :: t in Tags(d) ==>
              (x in Index(Tags(r)[t]) <==> x in Index(Tags(d)[t]) && (t, x) !in gone)
  {
    if d.tags.None? then d
    else
      var tags := d.tags.value;
      d.(tags := Some(map t | t in tags :: DropIndex(tags[t], set p | p in gone && p.0 == t :: p.1)))
  }

  /** `d` after `rmtree` of one tag directory. */
  function WithoutTag(d: Dir, tag: TagName): Dir {
    if d.tags.None? then d else d.(tags := Some(d.tags.value - {tag}))
  }

  /** `d` after deleting the revision `x`. */
  function WithoutRevision(d: Dir, x: Digest): Dir {
    if d.revisions.None? then d else d.(revisions := Some(d.revisions.value - {x}))
  }

  /** `clean_revisions`: the revisions no index entry references are deleted. */
  function Swept(d: Dir): Dir {
    if d.revisions.None? then d else d.(revisions := Some(d.revisions.value * Referenced(d)))
  }

  /** The index entries of `tag` other than its current digest. */
  function StaleOfTag(d: Dir, tag: TagName): set<(TagName, Digest)>
    requires HasCurrent(d, tag)
  {
    set x | x in Index(Tags(d)[tag]) && x != Current(d, tag) :: (tag, x)
  }

  /** The index loop of `clean_tag`: the stale entries of one tag are deleted. */
  function TagPruned(d: Dir, tag: TagName): Dir
    requires HasCurrent(d, tag)
  {
    WithoutEntries(d, StaleOfTag(d, tag))
  }

  /** The index entries, under any tag, whose digest is no tag's current digest. */
  function StaleEntries(d: Dir): set<(TagName, Digest)> {
    set p | p in IndexEntries(d) && p.1 !in Currents(d)
  }

  /** The index loop of `clean_repo` for a whole repository. */
  function Pruned(d: Dir): Dir {
    WithoutEntries(d, StaleEntries(d))
  }

  // ---------------------------------------------------------------------------
  // Helpers for equality of directories

  /** Two directories with the same tags, links, index sets and revisions are equal. */
  lemma SameDir(a: Dir, b: Dir)
    requires a.tags.Some? == b.tags.Some? && a.revisions == b.revisions
    requires Tags(a).Keys == Tags(b).Keys
    requires forall t :: t in Tags(a) ==>
               Tags(a)[t].link == Tags(b)[t].link && Tags(a)[t].index.Some? == Tags(b)[t].index.Some? &&
               Index(Tags(a)[t]) == Index(Tags(b)[t])
    ensures a == b
  {
    if a.tags.Some? {
      forall t | t in Tags(a) ensures a.tags.value[t] == b.tags.value[t] {
        var x, y := a.tags.value[t], b.tags.value[t];
        assert x.index == y.index by {
          if x.index.Some? { assert x.index.value == Index(x) == Index(y) == y.index.value; }
        }
      }
      assert a.tags.value == b.tags.value;
    }
  }

  /** Deleting entries changes neither the current links nor the set of current digests. */
  lemma CurrentsAfterDeletion(d: Dir, gone: set<(TagName, Digest)>)
    ensures Currents(WithoutEntries(d, gone)) == Currents(d)
    ensures forall t :: HasCurrent(d, t) <==> HasCurrent(WithoutEntries(d, gone), t)
    ensures forall t :: HasCurrent(d, t) ==> Current(WithoutEntries(d, gone), t) == Current(d, t)
  {
    var r := WithoutEntries(d, gone);
    forall x | x in Currents(d) ensures x in Currents(r) {
      var t :| t in Tags(d) && Tags(d)[t].link.Some? && x == CurrentDigest(Tags(d)[t].link.value);
      assert Tags(r)[t].link == Tags(d)[t].link;
    }
    forall x | x in Currents(r) ensures x in Currents(d) {
      var t :| t in Tags(r) && Tags(r)[t].link.Some? && x == CurrentDigest(Tags(r)[t].link.value);
      assert Tags(r)[t].link == Tags(d)[t].link;
    }
  }

  /** An index digest is referenced. */
  lemma ReferencedByEntry(d: Dir, t: TagName, x: Digest)
    requires t in Tags(d) && x in Index(Tags(d)[t])
    ensures x in Referenced(d)
  {
    assert (t, x) in IndexEntries(d);
  }

  /** A referenced digest is some tag's index digest. */
  lemma EntryOfReferenced(d: Dir, x: Digest) returns (t: TagName)
    requires x in Referenced(d)
    ensures t in Tags(d) && x in Index(Tags(d)[t])
  {
    var p :| p in IndexEntries(d) && p.1 == x;
    t := p.0;
  }

  // ---------------------------------------------------------------------------
  // What survives

  /**
    `clean_revisions`: a revision survives exactly when some tag has an index
    entry for its digest; tags, links and index entries are untouched.
  */
  lemma SweptSurvivors(d: Dir, x: Digest)
    ensures Swept(d).tags == d.tags && Swept(d).revisions.Some? == d.revisions.Some?
    ensures x in Revisions(Swept(d)) <==>
              x in Revisions(d) && exists t :: t in Tags(d) && x in Index(Tags(d)[t])
  {
    if x in Revisions(Swept(d)) {
      var t := EntryOfReferenced(d, x);
    }
    if x in Revisions(d) && exists t :: t in Tags(d) && x in Index(Tags(d)[t]) {
      var t :| t in Tags(d) && x in Index(Tags(d)[t]);
      ReferencedByEntry(d, t, x);
    }
  }

  /**
    The index loop of `clean_tag`: an index entry survives exactly when it
    belongs to another tag or names the tag's current digest; links, tags and
    revisions are untouched.
  */
  lemma TagPrunedSurvivors(d: Dir, tag: TagName, t: TagName, x: Digest)
    requires HasCurrent(d, tag)
    ensures TagPruned(d, tag).revisions == d.revisions
    ensures Tags(TagPruned(d, tag)).Keys == Tags(d).Keys
    ensures t in Tags(d) ==> Tags(TagPruned(d, tag))[t].link == Tags(d)[t].link
    ensures t in Tags(d) ==>
              (x in Index(Tags(TagPruned(d, tag))[t]) <==>
                 x in Index(Tags(d)[t]) && (t != tag || x == Current(d, tag)))
  {
    if t == tag && x in Index(Tags(d)[t]) && x != Current(d, tag) {
      assert (t, x) in StaleOfTag(d, tag);
    }
  }

  /**
    The index loop of `clean_repo`: an index entry, under any tag, survives
    exactly when its digest is the current digest of some tag; no link and no
    tag is removed, and the current digests stay the same.
  */
  lemma PrunedSurvivors(d: Dir, t: TagName, x: Digest)
    ensures Pruned(d).revisions == d.revisions
    ensures Tags(Pruned(d)).Keys == Tags(d).Keys
    ensures Currents(Pruned(d)) == Currents(d)
    ensures t in Tags(d) ==> Tags(Pruned(d))[t].link == Tags(d)[t].link
    ensures t in Tags(d) ==>
              (x in Index(Tags(Pruned(d))[t]) <==> x in Index(Tags(d)[t]) && x in Currents(d))
  {
    CurrentsAfterDeletion(d, StaleEntries(d));
    if t in Tags(d) && x in Index(Tags(d)[t]) && x !in Currents(d) {
      assert (t, x) in IndexEntries(d);
      assert (t, x) in StaleEntries(d);
    }
  }

  /**
    After a whole-repository prune no stale entry and no orphaned revision is
    left: every index entry and every revision names a current digest.
  */
  lemma PruneLeavesOnlyCurrents(d: Dir)
    ensures var r := Swept(Pruned(d));
            && (forall t, x :: t in Tags(r) && x in Index(Tags(r)[t]) ==> x in Currents(r))
            && (forall x :: x in Revisions(r) ==> x in Currents(r))
  {
    var p := Pruned(d);
    var r := Swept(p);
    CurrentsAfterDeletion(d, StaleEntries(d));
    assert Tags(r) == Tags(p);
    forall t, x | t in Tags(r) && x in Index(Tags(r)[t]) ensures x in Currents(r) {
      PrunedSurvivors(d, t, x);
    }
    forall x | x in Revisions(r) ensures x in Currents(r) {
      SweptSurvivors(p, x);
      var t :| t in Tags(p) && x in Index(Tags(p)[t]);
      PrunedSurvivors(d, t, x);
    }
  }

  /**
    In the registry's layout (each current digest is indexed under its tag) a
    whole-repository prune deletes no revision that a current link names.
  */
  lemma PruneKeepsLiveRevisions(d: Dir, x: Digest)
    requires CurrentsIndexed(d)
    requires x in Revisions(d) && x in Currents(d)
    ensures x in Revisions(Swept(Pruned(d)))
  {
    var p := Pruned(d);
    var t :| t in Tags(d) && Tags(d)[t].link.Some? && x == CurrentDigest(Tags(d)[t].link.value);
    assert HasCurrent(d, t);
    PrunedSurvivors(d, t, x);
    SweptSurvivors(p, x);
  }

  /**
    In the registry's layout, pruning one tag and sweeping deletes no revision
    that a current link of any tag names.
  */
  lemma TagPruneKeepsLiveRevisions(d: Dir, tag: TagName, x: Digest)
    requires HasCurrent(d, tag) && CurrentsIndexed(d)
    requires x in Revisions(d) && x in Currents(d)
    ensures x in Revisions(Swept(TagPruned(d, tag)))
  {
    var p := TagPruned(d, tag);
    var t :| t in Tags(d) && Tags(d)[t].link.Some? && x == CurrentDigest(Tags(d)[t].link.value);
    assert HasCurrent(d, t);
    TagPrunedSurvivors(d, tag, t, x);
    SweptSurvivors(p, x);
  }

  /** Sweeping a second time deletes nothing. */
  lemma SweptIdempotent(d: Dir)
    ensures Swept(Swept(d)) == Swept(d)
  {
    var s := Swept(d);
    if d.revisions.Some? {
      assert Referenced(s) == Referenced(d);
      assert s.revisions.value * Referenced(s) == s.revisions.value;
    }
  }

  /** Deleting entries that are not there changes nothing. */
  lemma WithoutAbsentEntries(d: Dir, gone: set<(TagName, Digest)>)
    requires forall t, x :: t in Tags(d) && x in Index(Tags(d)[t]) ==> (t, x) !in gone
    ensures WithoutEntries(d, gone) == d
  {
    SameDir(WithoutEntries(d, gone), d);
  }

  /**
    Pruning a whole repository is idempotent: a second prune of the result,
    index entries and revisions alike, changes nothing.
  */
  lemma PruneIdempotent(d: Dir)
    ensures Swept(Pruned(Swept(Pruned(d)))) == Swept(Pruned(d))
  {
    var p := Pruned(d);
    var r := Swept(p);
    CurrentsAfterDeletion(d, StaleEntries(d));
    assert Tags(r) == Tags(p);
    assert Currents(r) == Currents(d);
    forall t, x | t in Tags(r) && x in Index(Tags(r)[t]) ensures (t, x) !in StaleEntries(r) {
      PrunedSurvivors(d, t, x);
    }
    WithoutAbsentEntries(r, StaleEntries(r));
    assert Pruned(r) == r;
    SweptIdempotent(p);
  }

  /** Pruning one tag and sweeping is idempotent. */
  lemma TagPruneIdempotent(d: Dir, tag: TagName)
    requires HasCurrent(d, tag)
    ensures HasCurrent(Swept(TagPruned(d, tag)), tag)
    ensures Swept(TagPruned(Swept(TagPruned(d, tag)), tag)) == Swept(TagPruned(d, tag))
  {
    var p := TagPruned(d, tag);
    var r := Swept(p);
    CurrentsAfterDeletion(d, StaleOfTag(d, tag));
    assert Current(r, tag) == Current(d, tag);
    forall x | x in Index(Tags(r)[tag]) ensures (tag, x) !in StaleOfTag(r, tag) {
      TagPrunedSurvivors(d, tag, tag, x);
    }
    WithoutAbsentEntries(r, StaleOfTag(r, tag));
    SweptIdempotent(p);
  }
}
