# hyqo/finder in Dafny

A model of the `Finder` class of hyqo/finder (`src/Finder.php`). Finder is a
small filesystem utility with these operations:

- recursive discovery of files, filtered by extension (`find`);
- reading and writing a file, creating missing parent directories first
  (`load`, `save`);
- idempotent creation of directories and symbolic links (`mkdir`, `symlink`);
- recursive clearing and removal of a folder (`isEmpty`, `flushFolder`,
  `removeFolder`);
- the upward-pruning `wipe`. It removes one path below a root, then removes
  each ancestor that has become empty, climbing towards the root (`doWipe` is
  one step of the climb).

The filesystem is a value, `map<Path, Node>`. A `Node` is `File(content)`,
`Dir` or `Link(target)`. `Finder.Finder` holds this map in its field `fs`.
Every operation that changes the disk is a method that reassigns `fs`.
PHP exceptions become an `Outcome`, either `Return(value)` or
`Throw(FinderException)`.

The behaviour of the PHP built-ins the class calls is modelled as follows:

- `realpath`, `is_dir`, `is_file` and `file_exists` follow links, at most
  40 hops (the Linux limit).
- The `*` of `glob` does not match names that start with '.'.
- `rmdir` fails on any directory that still holds an entry, dot-entries
  included.
- `unlink` removes a file or the link itself.
- Recursive `mkdir` fails when an existing entry on the way down is not a
  directory.
- `file_put_contents` writes through links. At a dangling link it creates
  the missing target.
- The directory iterator in leaves-only mode yields every non-directory
  below the folder, dot-names included.
- `strcasecmp` folds ASCII letters only.
- `getExtension` is the text after the last '.' of the basename, or "" when
  there is none.

Modules:

- `Paths`: the string operations. These are `rtrim` of '/', the
  `#/[^/]*$#` strip, `dirname`, `basename`, the extension and the ASCII
  comparison. It also defines canonical paths and ancestry.
- `FileSystem`: the well-formed tree `Wf`, link resolution and the primitive
  updates.
- `FinderSpec`: what `find`, `flushFolder` and `wipe` do, as functions of the
  state before the call, with the lemmas about them.
- `Finder`: the class.

`Wf` requires the following of a tree:

- every key is a canonical absolute path;
- every parent is a directory;
- every link target is canonical and is never a directory.

Links to directories are thereby excluded. `symlink` can only create links
to files.

The model keeps these behaviours of the code as written:

- A failing `unlink` or `rmdir` does not abort anything. Their results are
  ignored (`src/Finder.php:110`, `:112`, `:127`, `:165`, `:170`).
- `mkdir` does not re-check after a failed creation. A directory created
  concurrently still makes it throw.
- `wipe` stops its climb only when `doWipe` says so. It has no test that the
  path is still below the root. "## Findings" records where that loops or
  leaves the root. `Wipe` takes the corrected climb, which also ends once the
  path is no longer strictly below the root. `WrittenClimbIsConfined` proves
  that the correction changes nothing on canonical paths at or below a
  resolved root other than "/" (`WipeBounded`). That is a part of the inputs
  where the loop as written ends, not all of them.

## Model

| member | source | states |
|---|---|---|
| `Paths.TrimTrailingSlashes` | src/Finder.php:140 | `rtrim(s, "/")` is a prefix of `s`. It does not end in '/', and only '/' characters were cut. |
| `Paths.StripLastChunk` | src/Finder.php:145 | `preg_replace('#/[^/]*$#', '', s)` never lengthens the path. `StripLastChunkSpec` states exactly what it removes. |
| `Paths.StripLastChunkSpec` | src/Finder.php:142-145 | The regex strip removes the last '/' and the text after it, which holds no '/'. A string without '/' is returned unchanged. |
| `Paths.Parent` | src/Finder.php:65 | `dirname` of an absolute path is absolute. It is shorter for every path except "/". |
| `Paths.StripIsParentBelow` | src/Finder.php:145 | Below a root other than "/", the regex strip is exactly `dirname`. The result stays at or below the root. |
| `Paths.Basename` | src/Finder.php:40 | `basename`, the name `getExtension` reads: the text after the last '/'. `BasenameSpec` states its properties. |
| `Paths.BasenameSpec` | src/Finder.php:40 | The basename holds no '/'. The path is its strip, then '/', then the basename. |
| `Paths.Extension` | src/Finder.php:40 | `getExtension` is the text after the last '.'. It holds no '.', and it is "" when the name has no '.'. |
| `Paths.AsciiLowerMatches` | src/Finder.php:40 | Two characters compare equal under `strcasecmp` folding exactly when they are equal or differ only in ASCII case. |
| `Paths.SameIgnoringCaseIsEquivalence` | src/Finder.php:40 | The case-insensitive comparison is reflexive, symmetric and transitive. |
| `Paths.HiddenBelowVisibleChild` | src/Finder.php:107-109 | For the recursion into a listed child, "hidden from glob below the folder" and "hidden below the child" coincide. |
| `FileSystem.Realpath` | src/Finder.php:51 | `realpath` yields an existing entry that is not a link, or nothing. |
| `FileSystem.Chase` | src/Finder.php:51 | Following links ends, when it ends within the hop limit, at a name that is missing or is not a link. |
| `FileSystem.Exists` | src/Finder.php:56 | `file_exists` holds only for names present in the tree, and always for a present file or directory. |
| `FileSystem.IsDir` | src/Finder.php:108 | `is_dir` holds only for names that exist, and always for a directory entry. |
| `FileSystem.IsFile` | src/Finder.php:85 | `is_file` holds only for names that exist and are not directories, and always for a file entry. |
| `FileSystem.DirIsLiteral` | src/Finder.php:108 | In a well-formed tree, `is_dir` holds exactly for directory entries. A link never resolves to a directory. |
| `FileSystem.VisibleChildren` | src/Finder.php:102 | The glob of `folder/*`. `ListedEntries` and `NothingListed` state what it lists. |
| `FileSystem.ListedEntries` | src/Finder.php:102-107 | glob lists exactly the entries directly inside the folder whose names do not start with '.'. Each lies strictly inside the folder, and no dot-name hides it. |
| `FileSystem.NothingListed` | src/Finder.php:102 | `glob` lists nothing exactly when every entry directly inside has a dot-name. |
| `FileSystem.Rmdir` | src/Finder.php:110 | `rmdir` removes the named entry exactly when it is a directory other than "/" with no entry left inside. |
| `FileSystem.RmdirKeepsOthers` | src/Finder.php:110 | `rmdir` removes at most the named entry and changes no other. |
| `FileSystem.Unlink` | src/Finder.php:112 | `unlink` removes the named entry exactly when it is a file or a link. |
| `FileSystem.UnlinkKeepsOthers` | src/Finder.php:112 | `unlink` removes at most the named entry and changes no other. |
| `FileSystem.RmdirKeepsWf` | src/Finder.php:110 | `rmdir` keeps the tree well-formed, whether it succeeds or fails. |
| `FileSystem.UnlinkKeepsWf` | src/Finder.php:112 | `unlink` keeps the tree well-formed. |
| `FileSystem.MakeDirs` | src/Finder.php:76 | On success, recursive `mkdir` makes the path a directory and keeps every old entry. Every new entry is a directory on the path's lineage. |
| `FileSystem.MakeDirsSucceeds` | src/Finder.php:76 | Recursive `mkdir` succeeds exactly when every existing entry from "/" down to the path is a directory. It then adds exactly the missing ones. |
| `FileSystem.MakeDirsKeepsWf` | src/Finder.php:76 | Creating the directories keeps the tree well-formed. |
| `FileSystem.MakeDirsTwice` | src/Finder.php:72-80 | After `mkdir`, `is_dir` holds. `mkdir` changes nothing exactly when the path was already a directory. |
| `FileSystem.PutContents` | src/Finder.php:67 | `file_put_contents` fails on a directory. On success it keeps every entry, and every new or changed entry holds the content. A new entry sits in an existing directory. |
| `FileSystem.PutContentsKeepsWf` | src/Finder.php:67 | A successful `file_put_contents` keeps the tree well-formed. |
| `FileSystem.PutContentsReadable` | src/Finder.php:67 | After a successful write, the name resolves to a file holding the written content. |
| `FileSystem.PutContentsSucceeds` | src/Finder.php:67 | `file_put_contents` succeeds exactly when the links from the name end, within the hop limit, at a file or at a missing name inside an existing directory. |
| `FileSystem.ChaseInLarger` | src/Finder.php:66-67 | Adding entries, and changing none, leaves a chain of links that ends at an entry where it was, so `mkdir` does not redirect the write. |
| `FileSystem.WriteAfterMakeDirs` | src/Finder.php:66-67 | Once the parent's directories are made, a write to a name that was missing, or that resolved to a file, succeeds. |
| `FileSystem.AddLinkKeepsWf` | src/Finder.php:97 | A new link to a non-directory, placed in an existing directory, keeps the tree well-formed. |
| `FileSystem.NewLinkReadsThrough` | src/Finder.php:97 | A new link resolves where its target resolves. |
| `FinderSpec.Leaves` | src/Finder.php:18-28 | The recursive iterator yields only entries strictly inside the folder. |
| `FinderSpec.Found` | src/Finder.php:35-44 | `find` yields only iterator results, and only those whose extension matches. |
| `FinderSpec.FoundIsFilteredLeaves` | src/Finder.php:35-44 | Without an extension, `find` yields every non-directory below the folder. With one, it yields exactly those whose extension equals it ignoring ASCII case. |
| `FinderSpec.FoundIgnoresCase` | src/Finder.php:40 | Extensions that differ only in ASCII case select the same files. |
| `FinderSpec.FoundOutsideDirectory` | src/Finder.php:20-22 | `find` on anything but a directory yields nothing. |
| `FinderSpec.Flushed` | src/Finder.php:105-117 | `flushFolder` only removes entries, leaves survivors unchanged, and leaves everything outside the folder in place. |
| `FinderSpec.FlushedKeepsWf` | src/Finder.php:105-117 | The state `flushFolder` leaves is well-formed. |
| `FinderSpec.FlushedListing` | src/Finder.php:100-117 | After `flushFolder`, the folder is still there. `glob` lists in it exactly the child directories that hold a dot-entry somewhere. |
| `FinderSpec.FlushedEmptiesFolder` | src/Finder.php:105-117 | With no dot-entry under the folder, `flushFolder` leaves the folder present with nothing inside, so `isEmpty` holds. |
| `FinderSpec.FlushedKeepsDotEntries` | src/Finder.php:107 | Entries under a dot-name survive `flushFolder` unchanged. |
| `FinderSpec.FlushStart` | src/Finder.php:107 | Before the loop has handled any entry, nothing has changed. |
| `FinderSpec.FlushFinish` | src/Finder.php:107-114 | Once every listed entry is handled, the state is the one `flushFolder` promises. |
| `FinderSpec.FlushStep` | src/Finder.php:108-113 | One loop turn: `is_dir` sees what the entry was at the start. Recursing into a directory is on a strictly smaller subtree. The directory's flush then `rmdir`, or the `unlink`, moves the state to that entry being done, still well-formed. |
| `FinderSpec.FlushStepDirectory` | src/Finder.php:108-110 | The directory's flush followed by its `rmdir` equals handling that entry. |
| `FinderSpec.FlushStepLeaf` | src/Finder.php:111-112 | `unlink` of a file or link equals handling that entry. |
| `FinderSpec.FlushedChildHasEntries` | src/Finder.php:109-110 | After the recursion, the child still holds entries exactly when a dot-entry lies under it, which is when its `rmdir` fails. |
| `FinderSpec.DescendantsShrink` | src/Finder.php:109 | The recursion measure: a child's subtree is strictly smaller than its folder's. |
| `FinderSpec.RemovedFolder` | src/Finder.php:119-130 | `removeFolder` removes the folder and everything in it exactly when no dot-entry lies under it. Entries outside the folder are untouched. |
| `FinderSpec.WipeStep` | src/Finder.php:151-174 | One `doWipe` as written. A stop changes nothing. Nothing but the given path is removed, and surviving entries are unchanged. |
| `FinderSpec.WipeStepKeepsWf` | src/Finder.php:163-171 | One `doWipe` keeps the tree well-formed. |
| `FinderSpec.WrittenClimbStuckAtEmpty` | src/Finder.php:140-146 | As written, at "" `doWipe` asks to climb on and the strip leaves "" unchanged, so the loop repeats forever. The strip of "/x" is "", and `rtrim` turns "/" into "". |
| `FinderSpec.WrittenStepLeavesRoot` | src/Finder.php:140 | As written, "x" under the root "/r" builds "/rx", which is not below the root. `doWipe` unlinks a file there and climbs on. |
| `FinderSpec.WipeStepWithin` | src/Finder.php:144-145 | The corrected step climbs on only from a path strictly below the root. It removes only that path, and only when it is below the root. Survivors are unchanged. |
| `FinderSpec.WipeStepClimbs` | src/Finder.php:145 | A step that climbs on shortens the path to its `dirname`, still at or below the root. The strip reaches "" only under the root "/", and there the climb ends. |
| `FinderSpec.WipeFrom` | src/Finder.php:144-146 | The corrected climb ends on every input. It keeps the tree well-formed, only removes entries, and leaves survivors unchanged. |
| `FinderSpec.WipeRemovesOnlyTheChain` | src/Finder.php:144-146 | `wipe` never removes or changes the root. It removes only the path and its ancestors strictly below the root. |
| `FinderSpec.WipeRemovesTarget` | src/Finder.php:170 | A file or a resolving link at a path below the root is removed. |
| `FinderSpec.WipeStopsAtListedEntries` | src/Finder.php:163-168 | If the path is a directory in which `glob` lists something, `wipe` removes nothing. |
| `FinderSpec.WipeKeepsDanglingLink` | src/Finder.php:153-157 | A dangling link does not resolve. `wipe` climbs past it and leaves it in place. |
| `FinderSpec.WipeLeavesNoEmptyDirectory` | src/Finder.php:144-146 | Every directory left on the way from the path up to the root holds an entry. |
| `FinderSpec.WipeStepBounded` | src/Finder.php:153-161 | For a canonical path at or below a resolved root other than "/", `doWipe` as written equals the corrected step. A step that climbs on stays on such inputs with a shorter path. |
| `FinderSpec.WrittenClimb` | src/Finder.php:144-146 | The loop as written keeps the tree well-formed on canonical paths at or below a resolved root other than "/" (`WipeBounded`). That is a part of the inputs where it ends. |
| `FinderSpec.WrittenClimbIsConfined` | src/Finder.php:144-146 | On canonical paths at or below a resolved root other than "/" (`WipeBounded`), the loop as written gives the corrected climb's result. |
| `Finder.Finder.NormalizePath` | src/Finder.php:49-52 | The resolved name is an existing non-link. For a directory it is the name itself. |
| `Finder.Finder.Find` | src/Finder.php:18-47 | The loop yields exactly the set `find` promises. The count it returns is the number of paths yielded. Every path yielded is a non-directory below the folder. |
| `Finder.Finder.Load` | src/Finder.php:54-61 | `load` returns content exactly when the name resolves to a file, and that content is the file's. |
| `Finder.Finder.IsEmpty` | src/Finder.php:100-103 | `isEmpty` holds exactly when every entry directly inside has a dot-name. |
| `Finder.Finder.Mkdir` | src/Finder.php:70-81 | An existing directory returns true with no change. Otherwise the directories are created, or `DirectoryNotCreated` is thrown with no change. It returns true exactly when no non-directory is in the way, and `is_dir` holds afterwards. |
| `Finder.Finder.Save` | src/Finder.php:63-68 | `save` throws as the `mkdir` of the parent does. Otherwise the new state is the write over the made directories. The parent is a directory afterwards, and a true result means `load` returns the content. When the name was missing or resolved to a file and `mkdir` did not throw, the result is true. |
| `Finder.Finder.Symlink` | src/Finder.php:83-98 | A non-file target throws before any change. An existing name returns true with no change. Otherwise the parent is made and the link added. A name held by a dangling link yields false. A new link resolves as its target. |
| `Finder.Finder.FlushFolder` | src/Finder.php:105-117 | `flushFolder` returns true. The new state is exactly the flushed state. |
| `Finder.Finder.FlushEntry` | src/Finder.php:108-113 | One turn of the loop moves the state to that entry being done. |
| `Finder.Finder.RemoveFolder` | src/Finder.php:119-130 | `removeFolder` returns true. A non-directory is left alone. Otherwise the state is the folder flushed and then passed to `rmdir`. |
| `Finder.Finder.DoWipe` | src/Finder.php:151-174 | The new state and the "continue" answer are those of the step. |
| `Finder.Finder.Wipe` | src/Finder.php:132-149 | An unresolvable root returns false with no change. Otherwise `wipe` returns true, and the state is the corrected climb from `rtrim(root . relativePath, "/")`. |

## Findings

| source | as written | input that shows it | evidently intended | confidence | as-written member | corrected member |
|---|---|---|---|---|---|---|
| src/Finder.php:140-146 | The loop repeats `doWipe` and the strip until `doWipe` says stop. At "" `doWipe` finds nothing and says go on, and the strip leaves "" as it is. | `wipe("/r", "x")` or `wipe("/", "")`, with the working directory other than the root | The climb ends at the root | not executed | `FinderSpec.WrittenClimbStuckAtEmpty` | `FinderSpec.WipeStepWithin` |
| src/Finder.php:140 | The relative path is glued to the root with no separator, and nothing checks that the climb stays below the root. | `wipe("/r", "x")` unlinks the file "/rx" | Only the path and its ancestors below the root are removed. The correction confines canonical paths only: a path with a `..` segment stays out of reach because it is looked up literally (see "## Left out") | not executed | `FinderSpec.WrittenStepLeavesRoot` | `FinderSpec.WipeRemovesOnlyTheChain` |

## Left out

- Names are canonical. Paths given to `Mkdir`, `Save` and `Symlink` must be
  canonical absolute paths. `realpath`'s handling of ".", "..", "//",
  relative names and the working directory is not modelled. `Realpath`
  looks a name up literally, then follows links.
- `Find`, `Load`, `IsEmpty`, `FlushFolder`, `RemoveFolder` and `Wipe`
  accept any string but treat a non-canonical name (a trailing '/', a
  doubled '/', a "." or ".." segment, a relative name) as missing. PHP
  resolves such names; the model, as the line above says, does not. So on
  them the model's `Find` yields nothing, `Load` returns `None`, `IsEmpty`
  holds, and `FlushFolder` and `RemoveFolder` change nothing. `Wipe`
  returns false for such a root and climbs past such a path.
- Link targets are stored as canonical absolute names. A relative target
  (resolved against the link's directory) is not modelled.
- Links to directories are not modelled.
  - `Mkdir`, `Save` and `Symlink` require `DanglingLinksAvoid`: no dangling
    link may point at a directory they would create.
  - Without that precondition, the created directory would become a link to
    a directory.
- `Wipe`: the loop as written does not end on some inputs (see
  "## Findings"), and a loop that may not end cannot be a Dafny function or
  a method proved to terminate. So `Wipe` runs the corrected climb, which
  also stops when the path is no longer strictly below the root.
  `WrittenClimb` models the written loop only on canonical paths at or
  below a resolved root other than "/" (`WipeBounded`), a part of the
  inputs where it ends. There `WrittenClimbIsConfined` proves the two
  equal.
- `WipeRemovesOnlyTheChain`: the confinement rests on canonical paths. The
  corrected climb's guard is the textual "strictly below the root", and
  "/r/../x" passes it. The model removes nothing there only because it looks
  "/r/../x" up literally and finds nothing. PHP resolves it to "/x", so in
  `wipe("/r", "/../x")`, with "/x" a file, a PHP climb with the same guard
  would still unlink "/x". Confining such paths would also need `..`
  resolved before the guard, which the model does not do.
- `WrittenClimb`: not defined on every input where the loop as written
  ends. That loop also ends wherever a directory with listed entries stops
  it, under the root "/" or after it has left the root. Those inputs fall
  outside `WipeBounded`.
- `WrittenClimbIsConfined`: the corrected `Wipe` can differ from the loop as
  written even where that loop ends. Take `wipe("/r", "x/y")`, where
  "/rx/y" is a file and "/rx" also holds "/rx/z". The loop unlinks "/rx/y",
  climbs to "/rx", where glob lists "/rx/z", and stops. The corrected climb
  removes nothing, because "/rx/y" is not below "/r".
- `realpath("")` is the working directory in PHP. The model has no working
  directory, so "" never resolves. The written loop therefore ends at "" only
  when the working directory is the root, and the model does not capture
  that case.
- `Symlink`: a link whose target's own chain already needs all 40 hops does
  not resolve. This is Linux behaviour. The read-through postcondition is
  therefore stated only for targets that resolve within 39 hops.
- I/O failures that the tree does not decide are not modelled:
  - permissions and the `0777` mode;
  - full disks;
  - contention on `LOCK_EX`;
  - a failing `file_get_contents`;
  - PHP warnings and `@` suppression.
- `find` is not lazy here, and its order is not modelled. It returns the
  yielded paths as a set, together with the count the generator returns.
- The exception messages are not modelled. Each `FinderException`
  constructor carries the name the message would show.
- `glob` metacharacters (`*`, `?`, `[`) inside folder names are not
  modelled. Such names are treated as literal text.
- Concurrency is not modelled. Each call runs alone on the tree.
- `FlushFolder`'s loop body is the separate method `FlushEntry`. This
  changes nothing in behaviour. The recursion through it is measured by the
  size of the subtree.
