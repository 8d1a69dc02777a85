# clean_registry, modelled in Dafny

`clean_registry.py` prunes a Docker Registry (2.4 or later) that uses the
filesystem storage driver. It stops the registry container and works directly
on the `docker/registry/v2/repositories` tree. For each target it does one of
two things:

- For `repo:tag`, it deletes that tag's index entries other than the tag's
  own current digest; for a whole repository, it deletes every index entry
  that no tag's current link names. It then deletes the revision manifests
  that no remaining index entry references.
- With `-x`, it deletes whole repositories or single tags.

It then runs the registry's garbage collector and starts the container again.
Before touching anything, `main` checks every `repository[:tag]` argument
against the Docker reference grammar.

The model has five modules:

- `Names` (`names.dfy`): `check_name`. The two regular expressions are written
  out as character-class predicates. A recognizer with the regex's own
  structure is proved equal to a declarative description: a component starts
  and ends with `[a-z0-9]`, and every maximal non-alphanumeric run inside it
  is `.`, `_`, `__` or one or more `-`. String splitting (`split(":", 1)` and
  `split("/")`) is modelled with its empty pieces.
- `Layout` (`layout.dfy`): what the cleaner sees of one directory. That is the
  tags, with each tag's `current/link` content and `index/sha256` digests, and
  the `revisions/sha256` digests. Each of these may be absent. As pure
  functions, the module states what each pruning step leaves. Its lemmas say
  which entries survive, that nothing a current link names is lost, and that
  pruning is idempotent.
- `Selection` (`selection.dfy`): `clean_tag` and `clean_repo` as functions on
  the whole store. The store is a map from every repository or namespace
  directory below the repositories root to its `Layout.Dir`. This module also
  holds the precondition under which the source raises no
  `FileNotFoundError`, and the selection rules of `-x`.
- `Storage` (`store.dfy`): the store as a class whose `dirs` field the methods
  update. Each `remove(path)` is a method that deletes one directory.
  `clean_revisions`, `clean_tag` and `clean_repo` are methods with the
  source's loops, each proved to leave exactly what `Selection` says.
- `Cleaner` (`orchestrator.dfy`): `RegistryCleaner.__call__` as a method.
  Stopping the container, the garbage collector and starting the container
  are events in a ghost trace. The collector's exit status is an input. The
  module also models the loop over the targets, the choice of
  default targets, and the argument guard of `main`.

The directory reads of `clean_revisions`, `clean_tag` and `clean_repo`
(`os.listdir` at lines 67, 86 and 103, `iglob` at lines 68, 112 and 115,
`isfile` at line 77, `isdir` at line 98) become reads of the map or of a set
in it. The order in which the source sees directory entries plays no part, except for the order of the
targets. When no targets are given they come from `listing`, a parameter
standing for `os.listdir(".")` in the repositories root (line 174). Its
contents are not free: `Cleaner.ListsRoot` requires it to hold each top-level
directory of the store once, as written. Only the order of the entries is
left open. The corrected default, every repository at any depth, is
`Cleaner.RepositoryDirs`, and `Cleaner.CorrectedDefaultRunPresent` shows that
a run over it raises nothing.

## Model

| member | source | states |
|---|---|---|
| Names.SplitImage | clean_registry.py:125 | the repository part and the tag part with the first `:` between them give the image back, and the repository part has no `:`; with no `:` the tag is the default |
| Names.Split | clean_registry.py:142 | `repo.split("/")` yields at least one piece, no piece holds `/`, and joining the pieces with `/` gives the repository back |
| Names.SplitJoin | clean_registry.py:142 | splitting the `/`-join of slash-free pieces gives exactly those pieces back |
| Names.ComponentMatchIffShape | clean_registry.py:142 | a component matches `[a-z0-9]+(?:(?:[._]\|__\|[-]*)[a-z0-9]+)*` exactly when it is non-empty, starts and ends with `[a-z0-9]`, and each maximal non-alphanumeric run in it is `.`, `_`, `__` or one or more `-` |
| Names.TagMatch | clean_registry.py:141 | the tag pattern `[a-zA-Z0-9_][a-zA-Z0-9_.-]*` matched against the whole tag (definition; its properties are in the rows below) |
| Names.ComponentMatch | clean_registry.py:142 | the component pattern as a recognizer with the regex's own structure, matched against the whole component (definition; characterised by `Names.ComponentMatchIffShape`) |
| Names.CheckName | clean_registry.py:123-142 | `check_name` with whole-string matches (definition; characterised by `Names.CheckNameIff`) |
| Names.CheckNameAsWritten | clean_registry.py:123-142 | `check_name` with Python's `$`, which also matches before a final newline (definition; see `Names.TrailingNewlineAccepted`) |
| Names.CheckNameIff | clean_registry.py:125-142 | both directions: a name is accepted exactly when it is shorter than 256 characters; its tag (text after the first `:`, else `latest`) has 1 to 128 characters, starts with `[a-zA-Z0-9_]` and continues with `[a-zA-Z0-9_.-]`; and every `/`-separated component has component shape |
| Names.RejectsBadTagStart | clean_registry.py:141 | `repo:` and every tag starting with `.` or `-` are rejected |
| Names.RejectsEmptyComponent | clean_registry.py:142 | an empty repository, and one with a leading, trailing or doubled `/`, are rejected |
| Names.AcceptedRepositoryCharset | clean_registry.py:142 | the repository part of an accepted name holds only `[a-z0-9]`, `.`, `_`, `-` and `/` |
| Names.TrailingNewlineAccepted | clean_registry.py:141-142 | the check as written accepts `app\n`, and the full match rejects it |
| Names.AsWrittenAgreesWithoutNewline | clean_registry.py:141-142 | on names with no newline, the check as written and the full match agree |
| Layout.CurrentDigest | clean_registry.py:84 | the digest is the link content after its first seven characters, or empty for a shorter content |
| Layout.CurrentDigestOfLink | clean_registry.py:84 | a link written as `sha256:<d>` names `d` |
| Layout.HasCurrent | clean_registry.py:77 | `os.path.isfile(link)`: the tag exists and has its `current/link` file (definition) |
| Layout.Currents | clean_registry.py:111-114 | the digests named by the tags' current links (definition; built by `Storage.CurrentsOf`) |
| Layout.Referenced | clean_registry.py:68 | the digests of every tag's index entries, the basenames of the glob (definition; see `Layout.SweptSurvivors`) |
| Layout.WithoutEntries | clean_registry.py:115-117 | deleting index entries keeps revisions, tags, links and index directories; an index digest survives exactly when its (tag, digest) pair was not deleted |
| Layout.Swept | clean_registry.py:65-71 | `clean_revisions` on one directory (definition; characterised by `Layout.SweptSurvivors`) |
| Layout.TagPruned | clean_registry.py:83-89 | the index loop of `clean_tag` on one directory (definition; characterised by `Layout.TagPrunedSurvivors`) |
| Layout.Pruned | clean_registry.py:111-117 | the two loops of `clean_repo` on one directory (definition; characterised by `Layout.PrunedSurvivors`) |
| Layout.SweptSurvivors | clean_registry.py:65-71 | after `clean_revisions` a revision survives exactly when it was there and some tag has an index entry for it; tags are untouched |
| Layout.TagPrunedSurvivors | clean_registry.py:83-89 | the index loop of `clean_tag` keeps an index entry exactly when it belongs to another tag or names the tag's current digest; tags, links and revisions are untouched |
| Layout.PrunedSurvivors | clean_registry.py:111-117 | the index loop of `clean_repo` keeps an index entry, under any tag, exactly when its digest is some tag's current digest; tags, links, the current digests and revisions are untouched |
| Layout.PruneLeavesOnlyCurrents | clean_registry.py:111-119 | after a whole-repository prune, every index entry and every revision left names a current digest |
| Layout.PruneKeepsLiveRevisions | clean_registry.py:111-119 | when every current digest is indexed under its tag, a whole-repository prune deletes no revision named by a current link |
| Layout.TagPruneKeepsLiveRevisions | clean_registry.py:83-90 | under the same layout, pruning one tag deletes no revision named by any tag's current link |
| Layout.SweptIdempotent | clean_registry.py:65-71 | a second `clean_revisions` deletes nothing |
| Layout.PruneIdempotent | clean_registry.py:111-119 | pruning a whole repository a second time changes nothing |
| Layout.TagPruneIdempotent | clean_registry.py:83-90 | pruning one tag a second time changes nothing, and the tag keeps its current link |
| Selection.CleanTagResult | clean_registry.py:74-91 | `clean_tag` on the store (definition; characterised by `Selection.CleanTagMissing`, `Selection.CleanTagRemovesOnlyTag` and `Selection.CleanTagPrunes`) |
| Selection.CleanRepoResult | clean_registry.py:94-120 | `clean_repo` on the store (definition; characterised by the `Selection.CleanRepo…` rows) |
| Selection.Target | clean_registry.py:96 | the repository and tag of `image.split(":", 1)`, with tag `""` when there is no colon (definition; see `Names.SplitImage`) |
| Selection.RemovesWholeRepository | clean_registry.py:104 | no tag, or the tag is the repository's only one (definition; see `Selection.RemoveSelection`) |
| Selection.DirsPresent | clean_registry.py:103 | the directories one `clean_repo` lists exist: `_manifests/tags` under `-x` (line 103), the tag's `index/sha256` (line 86) and `revisions/sha256` (line 67) when it prunes (definition) |
| Selection.WithoutTree | clean_registry.py:58-60 | `rmtree` of a directory deletes it and exactly the directories below it; the others keep their content |
| Selection.WithoutTreeWellFormed | clean_registry.py:58-60 | after `rmtree` every surviving directory still has its parent directories |
| Selection.CleanRepoWellFormed | clean_registry.py:94-120 | `clean_repo` keeps the store well formed |
| Selection.CleanRepoSucceedsIff | clean_registry.py:96-109 | `clean_repo` returns true exactly when the repository exists and either no tag is given, the tag has a current link, or `-x` removes the whole repository |
| Selection.CleanRepoMissing | clean_registry.py:98-100 | a missing repository gives false and changes nothing |
| Selection.RemoveSelection | clean_registry.py:102-109 | under `-x` the repository, with everything below it, is deleted exactly when no tag is given or the tag is its only tag; otherwise `clean_tag` handles the request |
| Selection.CleanTagMissing | clean_registry.py:76-79 | a tag without `current/link` gives false and changes nothing |
| Selection.CleanTagRemovesOnlyTag | clean_registry.py:80-81 | `clean_tag` under `-x` deletes exactly that tag; other tags, revisions and other directories stay |
| Selection.CleanTagPrunes | clean_registry.py:82-91 | `clean_tag` without `-x` keeps exactly the index entries of other tags and the tag's current one, keeps every link, then keeps exactly the revisions some remaining index entry references, and returns true |
| Selection.CleanRepoPrunes | clean_registry.py:111-120 | `clean_repo` with no tag and no `-x` keeps an index entry exactly when its digest is some tag's current digest, deletes no tag or link, keeps exactly the revisions still referenced, touches no other directory, and returns true |
| Selection.PruneKeepsLinks | clean_registry.py:94-120 | without `-x`, `clean_repo` deletes no directory, no tag and no current link |
| Selection.CleanRepoIdempotent | clean_registry.py:94-120 | without `-x`, a second `clean_repo` of the same argument changes nothing and gives the same result |
| Selection.CleanRepoShrinks | clean_registry.py:94-120 | `clean_repo` only deletes: every directory, tags directory, tag, link and index directory left was there before, and every remaining index entry and revision was there before |
| Selection.DirsPresentAfterShrink | clean_registry.py:177-178 | a directory a later target needs, present at the start, is still present after earlier targets were cleaned |
| Storage.Store.RemoveTree | clean_registry.py:105 | `remove(repo)` leaves the store without the repository and the directories below it |
| Storage.Store.RemoveTagDir | clean_registry.py:81 | `remove` of a tag directory deletes that tag and nothing else |
| Storage.Store.RemoveIndexEntry | clean_registry.py:89 | `remove` of an index entry deletes that entry and nothing else |
| Storage.Store.RemoveRevision | clean_registry.py:71 | `remove` of a revision deletes that revision and nothing else |
| Storage.Store.CleanRevisions | clean_registry.py:65-71 | the loop leaves the repository swept (revisions intersected with the referenced digests) and every other directory as it was |
| Storage.Store.PruneTagIndex | clean_registry.py:85-89 | the loop deletes exactly the tag's index entries that differ from the current digest |
| Storage.Store.CleanTag | clean_registry.py:74-91 | the result is true exactly when the tag has a current link, and result and store are those of `clean_tag` |
| Storage.CurrentsOf | clean_registry.py:111-114 | the loop collects exactly the digests named by the tags' current links |
| Storage.Store.PruneIndex | clean_registry.py:115-117 | the loop deletes exactly the index entries, under any tag, whose digest is not a current one |
| Storage.Store.CleanRepo | clean_registry.py:94-120 | result and store are those of `clean_repo`, and the store stays well formed |
| Cleaner.Targets | clean_registry.py:174 | the arguments if any, else the listing (definition) |
| Cleaner.CleanPrefix | clean_registry.py:176-179 | the first `n` turns of the loop over the targets, each `clean_repo` on the store the earlier ones left; it records exactly `n` events |
| Cleaner.StepsPresent | clean_registry.py:176-179 | every `clean_repo` of the loop finds the directories it lists on the store the earlier steps left (definition of the run's crash-freedom) |
| Cleaner.PresentBeforeRun | clean_registry.py:176-179 | directories present before the loop are present at every step, since the loop only deletes |
| Cleaner.RemovedNestedRepositoryNeedsNothing | clean_registry.py:98-106 | under `-x` with targets `lib` and `lib/app`, where `lib/app` has no `_manifests/tags`, the run raises nothing: removing `lib` deletes `lib/app`, and its `clean_repo` then finds it missing |
| Cleaner.CleanPrefixEvents | clean_registry.py:177-179 | the loop over the targets produces one clean event per target, in order, each naming its target |
| Cleaner.CleanPrefixOk | clean_registry.py:176-179 | the loop's result is success exactly when every event records its target as cleaned, that is when every `clean_repo` returned true |
| Cleaner.CleanPrefixWellFormed | clean_registry.py:177-178 | the loop keeps the store well formed: every surviving directory's parents survive |
| Cleaner.CleanPrefixShrinks | clean_registry.py:177-178 | the loop only deletes: no directory, tag, index entry or revision appears |
| Cleaner.CleanPrefixKeepsLinks | clean_registry.py:177-178 | without `-x` the loop deletes no directory, tag or current link |
| Cleaner.DefaultRunClosedForm | clean_registry.py:174-179 | a run over names of repositories that have their revisions directory, without tags and without `-x`, succeeds and leaves exactly each named repository pruned and swept, whatever the order and repetition |
| Cleaner.DefaultRunIdempotent | clean_registry.py:174-179 | over the same repository names, running the default cleaning a second time changes nothing and succeeds |
| Cleaner.TopLevelDirs | clean_registry.py:174 | the default targets as written are directories of the store (the top-level ones) |
| Cleaner.NamespaceDirIsTargeted | clean_registry.py:174 | with a namespaced repository `myorg/app`, the as-written targets include `myorg`, whose missing revisions directory makes `clean_revisions` raise, and leave out `myorg/app` |
| Cleaner.RepositoryDirs | clean_registry.py:174 | the corrected default targets are repositories of the store |
| Cleaner.DefaultTargetsPresent | clean_registry.py:174 | when every repository has its revisions directory, cleaning any corrected default target finds every directory it lists |
| Cleaner.DefaultTargetsAgreeWhenFlat | clean_registry.py:174 | in a store without namespaces, the as-written and corrected default targets coincide |
| Cleaner.CorrectedDefaultRunPresent | clean_registry.py:174-179 | when every repository has its revisions directory, a run over any listing of corrected default targets raises nothing |
| Cleaner.ListsRoot | clean_registry.py:174 | `os.listdir(".")`: every top-level directory of the store, each once, in some order (definition) |
| Cleaner.FlatListingRunPresent | clean_registry.py:174-179 | in a store without namespaces, where every repository has its revisions directory, the as-written default targets make a run that raises nothing |
| Cleaner.NamespacedDefaultRunRaises | clean_registry.py:174-179 | with the namespaced repository `myorg/app`, every listing of the repositories root makes the run raise at its first step, so `__call__` without arguments cannot meet its precondition |
| Cleaner.CollectResultAsWritten | clean_registry.py:236-252 | what `garbage_collect` returns, read as a truth value: in the container the exit status itself, outside it whether the status is 0 (definition) |
| Cleaner.CollectSucceeded | clean_registry.py:181 | the intended reading: the collector succeeded exactly when its exit status is 0 (definition) |
| Cleaner.DockerizedCollectInverted | clean_registry.py:243 | as written, in the container, `garbage_collect()` is truthy exactly when the collector failed |
| Cleaner.HostCollectAgrees | clean_registry.py:248-251 | outside the container the written result is the intended one |
| Cleaner.RegistryCleaner.StopRegistry | clean_registry.py:172 | records that the container is stopped |
| Cleaner.RegistryCleaner.GarbageCollect | clean_registry.py:181 | records one collector run; its result is true exactly when the exit status, an input, is 0 |
| Cleaner.RegistryCleaner.StartRegistry | clean_registry.py:184 | records that the container is started |
| Cleaner.RegistryCleaner.CleanNext | clean_registry.py:177-179 | one turn of the loop extends the store and the result by one `clean_repo` step |
| Cleaner.RegistryCleaner.CleanEach | clean_registry.py:177-179 | the loop leaves the store, the trace and the result of cleaning every target in order |
| Cleaner.RegistryCleaner.Call | clean_registry.py:171-185 | for the arguments, or else the listing of the store's top-level directories: the trace is stop, one clean per target, exactly one collection, start; the store is the result of the targets in order; the return value is 0 exactly when every clean event records its target as cleaned and the collector's exit status is 0, else 1 (the intended reading of line 181, see Findings) |
| Cleaner.ValidImages | clean_registry.py:281-283 | true exactly when every argument passes `Names.CheckName`, the corrected name check of the line-141 Finding |
| Cleaner.Guard | clean_registry.py:281-286 | every name passes `Names.CheckName` and `-x` comes with names (definition) |
| Cleaner.CleanRegistry | clean_registry.py:281-289 | exit status 1 with the registry untouched when a name fails `Names.CheckName` or `-x` comes without names; otherwise the behaviour of `__call__` |

## Left out

- Docker API calls are not modelled. This covers `inspect_container`, the
  image and version checks, `get_archive`, and the container runs and execs.
  Stopping and starting the container are only trace events, because they
  are foreign calls.
- `get_registry_dir`, `dockerized` and the environment variables are not
  modelled. They discover the environment through external libraries, and the
  model starts from the repositories tree itself.
- `LooseVersion` is not modelled. It is a library heuristic.
- The garbage collector is not modelled: its subprocess, the log streaming
  and the blobs it deletes (`_layers`, `_uploads` and the blob store). It
  runs outside the script, so the model records one run and takes its exit
  status as an input.
- argparse, `-h` and `-V`, `-q`, and all printing in `remove` and `error` are
  not modelled. They are command-line handling and output.
- `remove` is a parameter instead of the global `args`.
- Exceptions are not modelled. The source raises `FileNotFoundError` when
  `os.listdir` meets a missing directory (lines 67, 86, 103). The model
  instead requires those directories, at each step on the store the earlier
  steps left, through `Selection.DirsPresent` and `Cleaner.StepsPresent`.
- `rmtree` and `iglob` are abstracted into deletions of map keys and set
  elements over the modelled layout:
  - Files other than `current/link` are not represented, and neither are
    `_layers` or `_uploads`.
  - Names starting with `.`, which `iglob` skips but `os.listdir` returns,
    are not represented.
  - The glob of line 68 is modelled as matching the `index` directories
    only.
- Names.ComponentMatch: terminates on every input. In the source, `[-]*` at
  line 142 can match the empty string, so `[a-z0-9]+` is nested inside a
  repetition. Python's backtracking `re` can then take exponential time on a
  long alphanumeric component followed by a rejected character (for example
  forty `a` and then `!`). The model does not capture that slowness.
- `Layout.CurrentDigest`: does not check that the link starts with
  `sha256:`, because the source does not check it either.
- Cleaner.RegistryCleaner.CleanEach: the clean events enter the ghost trace
  as one block after the loop rather than one per turn. The trace that
  `__call__` leaves is the same, but the order of the events against the
  individual deletions inside the loop is not stated.
- Cleaner.Guard: uses the corrected name check `Names.CheckName`, so the
  guard assumes arguments without a trailing newline. For an argument such as
  `app\n` the source's `main` goes on: it stops the registry, `clean_repo`
  returns false, the collector runs and the exit status is 1. The model
  instead returns 1 with the registry untouched.
- The collector's exit status is an input of `__call__`. Outside the
  container the model reads `cli.wait()` (line 250) as that exit status.

## Findings

| source | as written | input that shows it | evidently intended | confidence | as-written member | corrected member |
|---|---|---|---|---|---|---|
| clean_registry.py:141-142 | both patterns end in `$`, which in Python also matches just before a final newline, so a name ending in a newline passes the check | `app\n` | the patterns match the whole name, so a newline is rejected | medium; not executed | Names.CheckNameAsWritten (shown by Names.TrailingNewlineAccepted) | Names.CheckName (characterised by Names.CheckNameIff; agrees off newlines by Names.AsWrittenAgreesWithoutNewline) |
| clean_registry.py:174 | with no arguments the targets are `os.listdir(".")`, the top-level directories, so a namespace directory such as `myorg` becomes a target: `clean_revisions("myorg")` lists a missing directory and raises, leaving the registry stopped, and `myorg/app` is never cleaned | a tree holding only `myorg/app` | every repository directory, at any depth, is a default target | medium; not executed | Cleaner.TopLevelDirs (shown by Cleaner.NamespaceDirIsTargeted) | Cleaner.RepositoryDirs (with Cleaner.DefaultTargetsPresent and Cleaner.DefaultTargetsAgreeWhenFlat; Cleaner.CorrectedDefaultRunPresent: a run over it raises nothing; as written, Cleaner.FlatListingRunPresent and Cleaner.NamespacedDefaultRunRaises) |
| clean_registry.py:243 | in the container `garbage_collect` returns `proc.wait()`, the exit status, and line 181 reads it as a truth value, so a collector that succeeds (status 0) sets the return code to 1 and one that fails leaves it 0 | a run in the container, every `clean_repo` true, collector exit status 0: `__call__` returns 1 | `garbage_collect` is true exactly when the exit status is 0, as outside the container (line 250) | medium; not executed | Cleaner.CollectResultAsWritten (shown by Cleaner.DockerizedCollectInverted) | Cleaner.CollectSucceeded (agrees outside the container by Cleaner.HostCollectAgrees), used by Cleaner.RegistryCleaner.GarbageCollect and Cleaner.RegistryCleaner.Call |
