/**
 * The `Finder` object: every public operation and the protected helpers
 * it is built from, acting on the filesystem it is handed. PHP exceptions
 * become an `Outcome` the caller inspects.
 */
module Finder {
  import opened Wrappers
  import opened Paths
  import opened FileSystem
  import opened FinderSpec

  /** The exception the finder throws, with what its message names. */
  datatype FinderException =
    | DirectoryNotCreated(folder: Path)
    | NotAFile(target: Path)

  /** A call that returns a value or throws. */
  datatype Outcome<T> = Return(value: T) | Throw(exception: FinderException)

  class Finder {
    /** The filesystem every call reads and changes. */
    var fs: Fs

    ghost predicate Valid()
      reads this
    {
      Wf(fs)
    }

    constructor (initial: Fs)
      requires Wf(initial)
      ensures Valid() && fs == initial
    {
      fs := initial;
    }

    /** `normalizePath()`: the resolved name; a directory name is already resolved. */
    function NormalizePath(path: Path): (r: Path)
      reads this
      requires Valid() && Exists(fs, path)
      ensures r in fs && !fs[r].Link?
      ensures IsDir(fs, path) ==> r == path
      ensures IsFile(fs, path) ==> fs[r].File?
    {
      DirIsLiteral(fs, path);
      Realpath(fs, path).value
    }

    /**
     * `find(folder, extension)`: walks every file under `folder`, keeps
     * those whose extension matches, and counts them.
     */
    method Find(folder: Path, extension: Option<string>) returns (files: set<Path>, filesNum: nat)
      requires Valid()
      ensures files == Found(fs, folder, extension)
      ensures filesNum == |files|
      ensures forall p :: p in files ==> p in fs && fs[p] != Dir && IsBelow(folder, p)
    {
      files, filesNum := {}, 0;
      if !IsDir(fs, folder) {
        return;
      }
      var root := NormalizePath(folder);
      var pending := Leaves(fs, root);
      while pending != {}
        invariant pending <= Leaves(fs, root) && files <= Leaves(fs, root)
        invariant forall p :: p in files <==> p in Leaves(fs, root) && p !in pending && ExtensionMatches(p, extension)
        invariant filesNum == |files|
        decreases |pending|
      {
        var file :| file in pending;
        if ExtensionMatches(file, extension) {
          files := files + {file};
          filesNum := filesNum + 1;
        }
        pending := pending - {file};
      }
      assert files == Found(fs, folder, extension);
    }

    /** `load()`: the content of the file `filename` names, following links; None for anything else. */
    function Load(filename: Path): (r: Option<string>)
      reads this
      requires Valid()
      ensures r.Some? <==> IsFile(fs, filename)
      ensures r.Some? ==> File(r.value) == fs[Realpath(fs, filename).value]
    {
      if Exists(fs, filename) && IsFile(fs, filename) then
        Some(fs[NormalizePath(filename)].content)
      else None
    }

    /** `isEmpty()`: glob lists nothing in `folder` (entries starting with '.' are not listed). */
    function IsEmpty(folder: Path): (r: bool)
      reads this
      requires Valid()
      ensures r <==> forall c :: c in fs && c != "/" && Parent(c) == folder ==> IsDotName(Basename(c))
    {
      NothingListed(fs, folder);
      VisibleChildren(fs, folder) == {}
    }

    /**
     * `mkdir()`: an existing directory is fine; otherwise `folder` and its
     * missing ancestors are created, and when that fails the finder throws.
     */
    method Mkdir(folder: Path) returns (r: Outcome<bool>)
      requires Valid() && ValidPath(folder) && DanglingLinksAvoid(fs, folder)
      modifies this
      ensures Valid()
      ensures IsDir(old(fs), folder) ==> r == Return(true) && fs == old(fs)
      ensures !IsDir(old(fs), folder) ==>
        match MakeDirs(old(fs), folder)
        case None => r == Throw(DirectoryNotCreated(folder)) && fs == old(fs)
        case Some(made) => r == Return(true) && fs == made
      ensures r.Return? <==> forall a :: a in old(fs) && IsBelowOrSelf(a, folder) ==> old(fs)[a] == Dir
      ensures r.Return? ==> r.value && IsDir(fs, folder)
    {
      DirIsLiteral(fs, folder);
      MakeDirsSucceeds(fs, folder);
      if IsDir(fs, folder) {
        MakeDirsTwice(fs, folder);
        return Return(true);
      }
      match MakeDirs(fs, folder)
      case None =>
        r := Throw(DirectoryNotCreated(folder));
      case Some(made) =>
        MakeDirsKeepsWf(fs, folder);
        MakeDirsTwice(fs, folder);
        fs := made;
        r := Return(true);
    }

    /**
     * `save()`: makes the parent directory (throwing as `mkdir` does), then
     * writes `content`, following links; reports whether the write
     * happened, after which `load` reads `content` back.
     */
    method Save(filename: Path, content: string) returns (r: Outcome<bool>)
      requires Valid() && ValidPath(filename) && DanglingLinksAvoid(fs, Parent(filename))
      modifies this
      ensures Valid()
      ensures r.Throw? <==> !IsDir(old(fs), Parent(filename)) && MakeDirs(old(fs), Parent(filename)).None?
      ensures r.Throw? ==> r.exception == DirectoryNotCreated(Parent(filename)) && fs == old(fs)
      ensures r.Return? ==>
        var dirs := if IsDir(old(fs), Parent(filename)) then old(fs) else MakeDirs(old(fs), Parent(filename)).value;
        match PutContents(dirs, filename, content)
        case None => r == Return(false) && fs == dirs
        case Some(written) => r == Return(true) && fs == written
      ensures r.Return? ==> IsDir(fs, Parent(filename))
      ensures r == Return(true) ==> Load(filename) == Some(content)
      ensures r.Return? && (filename !in old(fs) || IsFile(old(fs), filename)) ==> r == Return(true)
    {
      ValidPathParent(filename);
      var made := Mkdir(Parent(filename));
      if made.Throw? {
        return Throw(made.exception);
      }
      if filename !in old(fs) || IsFile(old(fs), filename) {
        DirIsLiteral(fs, Parent(filename));
        WriteAfterMakeDirs(old(fs), fs, filename, content);
      }
      match PutContents(fs, filename, content)
      case None =>
        r := Return(false);
      case Some(written) =>
        PutContentsKeepsWf(fs, filename, content);
        PutContentsReadable(fs, filename, content);
        DirIsLiteral(fs, Parent(filename));
        DirIsLiteral(written, Parent(filename));
        fs := written;
        r := Return(true);
    }

    /**
     * `symlink()`: `target` must be a file (else the finder throws); an
     * existing `link` is left as it is; otherwise the parent of `link` is
     * made and the link created, failing when a dangling link already
     * holds the name. A new link reads as its target does.
     */
    method Symlink(target: Path, link: Path) returns (r: Outcome<bool>)
      requires Valid() && ValidPath(target) && ValidPath(link) && DanglingLinksAvoid(fs, Parent(link))
      modifies this
      ensures Valid()
      ensures !IsFile(old(fs), target) ==> r == Throw(NotAFile(target)) && fs == old(fs)
      ensures IsFile(old(fs), target) && Exists(old(fs), link) ==> r == Return(true) && fs == old(fs)
      ensures IsFile(old(fs), target) && !Exists(old(fs), link) ==>
        var parent := Parent(link);
        if !IsDir(old(fs), parent) && MakeDirs(old(fs), parent).None? then
          r == Throw(DirectoryNotCreated(parent)) && fs == old(fs)
        else
          var dirs := if IsDir(old(fs), parent) then old(fs) else MakeDirs(old(fs), parent).value;
          if link in old(fs) then r == Return(false) && fs == dirs
          else r == Return(true) && fs == dirs[link := Link(target)]
      ensures r == Return(true) && !Exists(old(fs), link) && Chase(old(fs), target, MaxSymlinkHops - 1).Some? ==>
        Realpath(fs, link) == Realpath(fs, target) == Realpath(old(fs), target)
    {
      if !IsFile(fs, target) {
        return Throw(NotAFile(target));
      }
      if Exists(fs, link) {
        return Return(true);
      }
      ghost var before := fs;
      ValidPathParent(link);
      var made := Mkdir(Parent(link));
      if made.Throw? {
        return Throw(made.exception);
      }
      assert link !in fs <==> link !in before by {
        if link in fs && link !in before {
          BelowIsLonger(link, Parent(link));
        }
      }
      if link in fs {
        return Return(false);
      }
      ghost var dirs := fs;
      DirIsLiteral(before, target);
      DirIsLiteral(dirs, Parent(link));
      AddLinkKeepsWf(dirs, link, target);
      fs := fs[link := Link(target)];
      r := Return(true);
      if Chase(before, target, MaxSymlinkHops - 1).Some? {
        NewLinkReadsThrough(before, dirs, link, target);
      }
    }

    /**
     * `flushFolder()`: removes everything glob lists under `folder`,
     * depth first: files and links are unlinked, directories flushed and
     * then removed when rmdir can. Entries whose names start with '.' and
     * the directories that hold them are left.
     */
    method FlushFolder(folder: Path) returns (r: bool)
      requires Valid()
      modifies this
      ensures Valid()
      ensures r && fs == Flushed(old(fs), folder)
      decreases |Descendants(fs, folder)|, 1
    {
      ghost var start := fs;
      var entries := VisibleChildren(fs, folder);
      var pending := entries;
      ghost var done: set<Path> := {};
      FlushStart(start, folder);
      while pending != {}
        invariant Valid()
        invariant pending <= entries && done == entries - pending
        invariant entries == VisibleChildren(start, folder)
        invariant fs == FlushedWithin(start, folder, done)
        decreases |pending|
      {
        var file :| file in pending;
        FlushEntry(start, folder, done, file);
        pending := pending - {file};
        done := done + {file};
      }
      assert done == entries;
      FlushFinish(start, folder);
      r := true;
    }

    /** The body of flushFolder's loop for one listed entry: a directory is flushed and then rmdir'ed, anything else unlinked. */
    method FlushEntry(ghost start: Fs, ghost folder: Path, ghost done: set<Path>, file: Path)
      requires Wf(start) && Valid() && fs == FlushedWithin(start, folder, done)
      requires done <= VisibleChildren(start, folder) && file in VisibleChildren(start, folder) && file !in done
      modifies this
      ensures Valid() && fs == FlushedWithin(start, folder, done + {file})
      decreases |Descendants(start, folder)|, 0
    {
      FlushStep(start, folder, done, file);
      if IsDir(fs, file) {
        var _ := FlushFolder(file);
        fs := Rmdir(fs, file);
      } else {
        fs := Unlink(fs, file);
      }
    }

    /** `removeFolder()`: flushes a directory, then removes it when rmdir can; anything else is left alone. */
    method RemoveFolder(folder: Path) returns (r: bool)
      requires Valid()
      modifies this
      ensures Valid()
      ensures r
      ensures !IsDir(old(fs), folder) ==> fs == old(fs)
      ensures IsDir(old(fs), folder) ==> fs == Rmdir(Flushed(old(fs), folder), folder)
    {
      if !IsDir(fs, folder) {
        return true;
      }
      var _ := FlushFolder(folder);
      RmdirKeepsWf(fs, folder);
      fs := Rmdir(fs, folder);
      r := true;
    }

    /**
     * `doWipe()`: one step of wipe's climb; the answer says whether to
     * climb on.
     */
    method DoWipe(folder: Path, absolutePath: Path) returns (more: bool)
      requires Valid()
      modifies this
      ensures Valid()
      ensures (fs, more) == WipeStep(old(fs), folder, absolutePath)
    {
      WipeStepKeepsWf(fs, folder, absolutePath);
      var realpath := Realpath(fs, absolutePath);
      if realpath.None? {
        return true;
      }
      if realpath.value == folder {
        return false;
      }
      if IsDir(fs, absolutePath) {
        if IsEmpty(absolutePath) {
          fs := Rmdir(fs, absolutePath);
        } else {
          return false;
        }
      } else {
        fs := Unlink(fs, absolutePath);
      }
      return true;
    }

    /**
     * `wipe(folder, relativePath)`: resolves `folder`, removes what
     * `relativePath` names below it, then climbs, removing each directory
     * glob finds empty, until it reaches `folder` or a directory with
     * listed entries. False only when `folder` does not resolve. The climb
     * also ends as soon as the path is no longer strictly below `folder`,
     * which the loop as written does not check.
     */
    method Wipe(folder: Path, relativePath: string) returns (r: bool)
      requires Valid()
      modifies this
      ensures Valid()
      ensures Realpath(old(fs), folder).None? ==> !r && fs == old(fs)
      ensures Realpath(old(fs), folder).Some? ==>
        var root := Realpath(old(fs), folder).value;
        r && fs == WipeFrom(old(fs), root, TrimTrailingSlashes(root + relativePath))
    {
      var resolved := Realpath(fs, folder);
      if resolved.None? {
        return false;
      }
      var root := resolved.value;
      var absolutePath := TrimTrailingSlashes(root + relativePath);
      ghost var goal := WipeFrom(fs, root, absolutePath);
      while true
        invariant Valid()
        invariant WipeFrom(fs, root, absolutePath) == goal
        decreases |absolutePath|
      {
        if !IsBelow(root, absolutePath) {
          break;
        }
        ghost var before := fs;
        var more := DoWipe(root, absolutePath);
        if !more {
          break;
        }
        WipeStepClimbs(before, root, absolutePath);
        assert WipeFrom(before, root, absolutePath) == WipeFrom(fs, root, StripLastChunk(absolutePath));
        absolutePath := StripLastChunk(absolutePath);
      }
      r := true;
    }
  }
}
