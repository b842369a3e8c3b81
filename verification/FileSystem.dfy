/**
 * The filesystem the finder runs against, as a value: a map from canonical
 * paths to entries, with the primitive calls the finder makes on it
 * (`realpath`, `is_dir`, `is_file`, `file_exists`, the glob listing,
 * `rmdir`, `unlink`, recursive `mkdir` and `file_put_contents`).
 */
module FileSystem {
  import opened Wrappers
  import opened Paths

  /** A directory entry. A link stores its target as given and is never followed when it is removed. */
  datatype Node = File(content: string) | Dir | Link(target: Path)

  type Fs = map<Path, Node>

  /** Links followed before resolution gives up (Linux's MAXSYMLINKS; ELOOP beyond it). */
  const MaxSymlinkHops: nat := 40

  /**
   * A well-formed tree: "/" is a directory, every key is canonical, every
   * entry but "/" sits in a directory, and links point at canonical paths
   * that are not directories (the finder only links to files; directories
   * reached through links are outside the model).
   */
  ghost predicate Wf(fs: Fs) {
    && "/" in fs && fs["/"] == Dir
    && (forall p :: p in fs ==> |p| > 0 && p[0] == '/')
    && (forall p {:trigger ValidPath(p)} :: p in fs ==> ValidPath(p))
    && (forall p {:trigger Parent(p)} :: p in fs && p != "/" ==> Parent(p) in fs && fs[Parent(p)] == Dir)
    && (forall p {:trigger fs[p].target} :: p in fs && fs[p].Link? ==> ValidPath(fs[p].target) && !(fs[p].target in fs && fs[fs[p].target] == Dir))
  }

  // ----- resolution -----

  /** Follows links from `p` to the first name that is not a link, missing or not; None after too many hops. */
  function Chase(fs: Fs, p: Path, hops: nat): (r: Option<Path>)
    ensures r.Some? ==> r.value !in fs || !fs[r.value].Link?
    decreases hops
  {
    if p in fs && fs[p].Link? then
      if hops == 0 then None else Chase(fs, fs[p].target, hops - 1)
    else Some(p)
  }

  /** `realpath()`: the existing non-link entry `p` names; None when `p` is missing, or its links dangle or loop. */
  function Realpath(fs: Fs, p: Path): (r: Option<Path>)
    ensures r.Some? ==> r.value in fs && !fs[r.value].Link?
  {
    match Chase(fs, p, MaxSymlinkHops)
    case Some(q) => if q in fs then Some(q) else None
    case None => None
  }

  /** `file_exists()`: an entry that is not a link exists; a link exists when its chain ends at an entry. */
  predicate Exists(fs: Fs, p: Path): (r: bool)
    ensures r ==> p in fs
    ensures p in fs && !fs[p].Link? ==> r
  {
    Realpath(fs, p).Some?
  }

  /** `is_dir()`: follows links. */
  predicate IsDir(fs: Fs, p: Path): (r: bool)
    ensures r ==> Exists(fs, p)
    ensures p in fs && fs[p] == Dir ==> r
  {
    Realpath(fs, p).Some? && fs[Realpath(fs, p).value] == Dir
  }

  /** `is_file()`: follows links; never holds together with `is_dir()`. */
  predicate IsFile(fs: Fs, p: Path): (r: bool)
    ensures r ==> Exists(fs, p) && !IsDir(fs, p)
    ensures p in fs && fs[p].File? ==> r
  {
    Realpath(fs, p).Some? && fs[Realpath(fs, p).value].File?
  }

  // ----- listing -----

  /** The glob of `p` with pattern `*`: the entries directly inside `p` whose names do not start with '.'. */
  function VisibleChildren(fs: Fs, p: Path): set<Path> {
    set c | c in fs && c != "/" && Parent(c) == p && !IsDotName(Basename(c))
  }

  /** `p` holds at least one entry, visible or not: what makes `rmdir` fail. */
  predicate HasEntries(fs: Fs, p: Path) {
    exists c :: c in fs && c != "/" && Parent(c) == p
  }

  /** Everything strictly inside `p`. */
  function Descendants(fs: Fs, p: Path): set<Path> {
    set q | q in fs && IsBelow(p, q)
  }

  // ----- primitive updates -----

  /** `rmdir()`: removes an empty directory; on anything else (entries left, not a directory, "/") it fails and nothing changes. */
  function Rmdir(fs: Fs, p: Path): (r: Fs)
    ensures p in fs ==> (p !in r <==> fs[p] == Dir && p != "/" && !HasEntries(fs, p))
  {
    if p in fs && fs[p] == Dir && p != "/" && !HasEntries(fs, p) then fs - {p} else fs
  }

  /** `unlink()`: removes a file or a link itself (never what a link points at); a directory or a missing name is left alone. */
  function Unlink(fs: Fs, p: Path): (r: Fs)
    ensures p in fs ==> (p !in r <==> fs[p] != Dir)
  {
    if p in fs && fs[p] != Dir then fs - {p} else fs
  }

  /** No dangling link waits on `p` or on a missing ancestor of `p`: creating them keeps links off directories. */
  ghost predicate DanglingLinksAvoid(fs: Fs, p: Path) {
    forall q :: q in fs && fs[q].Link? && fs[q].target !in fs ==> !IsBelowOrSelf(fs[q].target, p)
  }

  /**
   * `mkdir(p, 0777, true)`: creates `p` and every missing ancestor as
   * directories; None when an existing entry on the way is not a directory,
   * `p` itself included.
   */
  function MakeDirs(fs: Fs, p: Path): (r: Option<Fs>)
    requires Wf(fs) && ValidPath(p)
    ensures r.Some? ==> p in r.value && r.value[p] == Dir
    ensures r.Some? ==> forall a :: a in fs ==> a in r.value && r.value[a] == fs[a]
    ensures r.Some? ==> forall a :: a in r.value && a !in fs ==> r.value[a] == Dir && IsBelowOrSelf(a, p)
    decreases |p|
  {
    if p in fs then
      if fs[p] == Dir then Some(fs) else None
    else
      match MakeDirs(fs, Parent(p))
      case None => None
      case Some(made) => Some(made[p := Dir])
  }

  /**
   * `file_put_contents()`: writes through links to the name they end at;
   * replaces a file's content, creates a missing file inside an existing
   * directory, and fails on a directory, a link loop or a missing parent.
   */
  function PutContents(fs: Fs, p: Path, content: string): (r: Option<Fs>)
    ensures p in fs && fs[p] == Dir ==> r.None?
    ensures r.Some? ==> forall a :: a in fs ==> a in r.value
    ensures r.Some? ==> forall a :: a in r.value && (a !in fs || r.value[a] != fs[a]) ==> r.value[a] == File(content)
    ensures r.Some? ==> forall a :: a in r.value && a !in fs ==> Parent(a) in fs && fs[Parent(a)] == Dir
  {
    match Chase(fs, p, MaxSymlinkHops)
    case None => None
    case Some(q) =>
      if q in fs then
        if fs[q].File? then Some(fs[q := File(content)]) else None
      else if Parent(q) in fs && fs[Parent(q)] == Dir then Some(fs[q := File(content)])
      else None
  }

  // ----- lemmas -----

  /** Every ancestor of an entry is an existing directory. */
  lemma {:induction false} AncestorIsDir(fs: Fs, a: Path, q: Path)
    requires Wf(fs) && q in fs && IsBelow(a, q)
    ensures a in fs && fs[a] == Dir
    decreases |q|
  {
    if Parent(q) != a {
      AncestorIsDir(fs, a, Parent(q));
    }
  }

  /** A directory holding anything at any depth holds an entry directly. */
  lemma HasEntriesFromDescendant(fs: Fs, p: Path, q: Path)
    requires Wf(fs) && q in fs && IsBelow(p, q)
    ensures HasEntries(fs, p)
  {
    var c := TopBelow(p, q);
    if c != q {
      AncestorIsDir(fs, c, q);
    }
    assert c in fs && c != "/" && Parent(c) == p;
  }

  /** Following links never ends on a directory: only a directory itself resolves to a directory. */
  lemma {:induction false} ChaseEndsOffDirs(fs: Fs, p: Path, hops: nat)
    requires Wf(fs)
    requires Chase(fs, p, hops).Some?
    requires var q := Chase(fs, p, hops).value; q in fs && fs[q] == Dir
    ensures Chase(fs, p, hops).value == p
    decreases hops
  {
    if p in fs && fs[p].Link? {
      ChaseEndsOffDirs(fs, fs[p].target, hops - 1);
    }
  }

  /** `is_dir` holds of exactly the directory entries. */
  lemma DirIsLiteral(fs: Fs, p: Path)
    requires Wf(fs)
    ensures IsDir(fs, p) <==> p in fs && fs[p] == Dir
  {
    if IsDir(fs, p) {
      ChaseEndsOffDirs(fs, p, MaxSymlinkHops);
    }
  }

  /** Names reached through links in a well-formed tree are canonical. */
  lemma {:induction false} ChaseValid(fs: Fs, p: Path, hops: nat)
    requires Wf(fs) && ValidPath(p) && Chase(fs, p, hops).Some?
    ensures ValidPath(Chase(fs, p, hops).value)
    decreases hops
  {
    if p in fs && fs[p].Link? {
      var t := fs[p].target;
      assert ValidPath(t);
      ChaseValid(fs, t, hops - 1);
      assert Chase(fs, p, hops) == Chase(fs, t, hops - 1);
    } else {
      assert Chase(fs, p, hops) == Some(p);
    }
  }

  /** Rewriting the entry a chain of links ends at, with a non-link, leaves the chain ending there. */
  lemma {:induction false} ChaseAfterWrite(fs: Fs, p: Path, hops: nat, content: string)
    requires Chase(fs, p, hops).Some?
    ensures var q := Chase(fs, p, hops).value; Chase(fs[q := File(content)], p, hops) == Some(q)
    decreases hops
  {
    if p in fs && fs[p].Link? {
      ChaseAfterWrite(fs, fs[p].target, hops - 1, content);
    }
  }

  /** A chain that ends within `hops` links ends at the same name when more are allowed. */
  lemma {:induction false} ChaseMoreHops(fs: Fs, p: Path, hops: nat, more: nat)
    requires Chase(fs, p, hops).Some? && hops <= more
    ensures Chase(fs, p, more) == Chase(fs, p, hops)
    decreases hops
  {
    if p in fs && fs[p].Link? {
      ChaseMoreHops(fs, fs[p].target, hops - 1, more - 1);
    }
  }

  /** New entries do not move the end of a chain that ends at an existing entry. */
  lemma {:induction false} ChaseInLarger(fs: Fs, big: Fs, p: Path, hops: nat)
    requires forall a :: a in fs ==> a in big && big[a] == fs[a]
    requires Chase(fs, p, hops).Some? && Chase(fs, p, hops).value in fs
    ensures Chase(big, p, hops) == Chase(fs, p, hops)
    decreases hops
  {
    if p in fs && fs[p].Link? {
      ChaseInLarger(fs, big, fs[p].target, hops - 1);
    }
  }

  /**
   * A new link to `target`, added where nothing was, reads as `target`
   * does, provided `target`'s own chain leaves one hop to spare.
   */
  lemma NewLinkReadsThrough(fs: Fs, mid: Fs, link: Path, target: Path)
    requires forall a :: a in fs ==> a in mid && mid[a] == fs[a]
    requires link !in mid
    requires Realpath(fs, target).Some? && Chase(fs, target, MaxSymlinkHops - 1).Some?
    ensures var big := mid[link := Link(target)];
      Realpath(big, link) == Realpath(big, target) == Realpath(fs, target)
  {
    var big := mid[link := Link(target)];
    ChaseMoreHops(fs, target, MaxSymlinkHops - 1, MaxSymlinkHops);
    assert forall a :: a in fs ==> a in big && big[a] == fs[a];
    ChaseInLarger(fs, big, target, MaxSymlinkHops - 1);
    ChaseInLarger(fs, big, target, MaxSymlinkHops);
  }

  lemma RmdirKeepsWf(fs: Fs, p: Path)
    requires Wf(fs)
    ensures Wf(Rmdir(fs, p))
  {
    var r := Rmdir(fs, p);
    if r != fs {
      forall c | c in r && c != "/"
        ensures Parent(c) in r && r[Parent(c)] == Dir
      {
        assert Parent(c) != p;
      }
    }
  }

  lemma UnlinkKeepsWf(fs: Fs, p: Path)
    requires Wf(fs)
    ensures Wf(Unlink(fs, p))
  {
  }

  /** rmdir removes at most `p`; every other entry stays as it was. */
  lemma RmdirKeepsOthers(fs: Fs, p: Path)
    ensures forall q :: q in Rmdir(fs, p) ==> q in fs && Rmdir(fs, p)[q] == fs[q]
    ensures forall q :: q in fs && q != p ==> q in Rmdir(fs, p)
  {
  }

  /** unlink removes at most `p`; every other entry stays as it was. */
  lemma UnlinkKeepsOthers(fs: Fs, p: Path)
    ensures forall q :: q in Unlink(fs, p) ==> q in fs && Unlink(fs, p)[q] == fs[q]
    ensures forall q :: q in fs && q != p ==> q in Unlink(fs, p)
  {
  }

  /**
   * glob lists exactly the entries directly inside `p` whose names do not
   * start with '.'; they lie strictly inside `p`, and no recursion below it
   * would skip them.
   */
  lemma ListedEntries(fs: Fs, p: Path)
    requires Wf(fs)
    ensures forall c :: c in VisibleChildren(fs, p) ==>
      && c in fs && c != "/" && Parent(c) == p && !IsDotName(Basename(c))
      && IsBelow(p, c) && !HiddenBelow(p, c)
    ensures forall c :: c in fs && c != "/" && Parent(c) == p && !IsDotName(Basename(c)) ==> c in VisibleChildren(fs, p)
  {
    forall c | c in VisibleChildren(fs, p)
      ensures IsBelow(p, c) && !HiddenBelow(p, c)
    {
      assert IsBelow(p, c);
      if HiddenBelow(p, p) {
        BelowIsLonger(p, p);
      }
    }
  }

  /** glob lists nothing exactly when every entry directly inside `p` has a name starting with '.'. */
  lemma NothingListed(fs: Fs, p: Path)
    ensures VisibleChildren(fs, p) == {} <==>
      forall c :: c in fs && c != "/" && Parent(c) == p ==> IsDotName(Basename(c))
  {
    var v := VisibleChildren(fs, p);
    if v != {} {
      var c :| c in v;
      assert c in fs && c != "/" && Parent(c) == p && !IsDotName(Basename(c));
    } else {
      forall c | c in fs && c != "/" && Parent(c) == p
        ensures IsDotName(Basename(c))
      {
        assert c !in v;
      }
    }
  }

  /** A new link to a name that is not a directory, placed in an existing directory, keeps the tree well-formed. */
  lemma AddLinkKeepsWf(fs: Fs, link: Path, target: Path)
    requires Wf(fs) && ValidPath(link) && link != "/" && link !in fs
    requires Parent(link) in fs && fs[Parent(link)] == Dir
    requires ValidPath(target) && !(target in fs && fs[target] == Dir)
    ensures Wf(fs[link := Link(target)])
  {
  }

  /** mkdir -p succeeds exactly when every existing entry from "/" down to `p` is a directory, and then adds exactly the missing ones. */
  lemma {:induction false} MakeDirsSucceeds(fs: Fs, p: Path)
    requires Wf(fs) && ValidPath(p)
    ensures MakeDirs(fs, p).Some? <==> forall a :: a in fs && IsBelowOrSelf(a, p) ==> fs[a] == Dir
    ensures MakeDirs(fs, p).Some? ==> forall a :: a in MakeDirs(fs, p).value <==> a in fs || IsBelowOrSelf(a, p)
    decreases |p|
  {
    if p in fs {
      if fs[p] == Dir {
        forall a | IsBelow(a, p)
          ensures a in fs
        {
          AncestorIsDir(fs, a, p);
        }
        forall a | a in fs && IsBelow(a, p)
          ensures fs[a] == Dir
        {
          AncestorIsDir(fs, a, p);
        }
      }
    } else {
      RootIsTop(p);
      MakeDirsSucceeds(fs, Parent(p));
      assert forall a :: IsBelowOrSelf(a, p) <==> a == p || IsBelowOrSelf(a, Parent(p));
    }
  }

  /** mkdir -p keeps the tree well-formed as long as no dangling link waits on the directories it creates. */
  lemma {:induction false} MakeDirsKeepsWf(fs: Fs, p: Path)
    requires Wf(fs) && ValidPath(p) && DanglingLinksAvoid(fs, p)
    requires MakeDirs(fs, p).Some?
    ensures Wf(MakeDirs(fs, p).value)
    decreases |p|
  {
    if p !in fs {
      var made := MakeDirs(fs, Parent(p)).value;
      assert DanglingLinksAvoid(fs, Parent(p));
      MakeDirsKeepsWf(fs, Parent(p));
      assert p !in made by {
        if p in made {
          BelowIsLonger(p, Parent(p));
        }
      }
      var r := made[p := Dir];
      forall q | q in r && r[q].Link?
        ensures ValidPath(r[q].target) && !(r[q].target in r && r[r[q].target] == Dir)
      {
        assert q in fs && r[q] == fs[q];
        var t := fs[q].target;
        if t !in fs {
          assert !IsBelowOrSelf(t, p);
        }
      }
    }
  }

  /** After a successful mkdir -p, `is_dir` holds, so a second call is a no-op; the first one changes nothing exactly when the directory was there. */
  lemma MakeDirsTwice(fs: Fs, p: Path)
    requires Wf(fs) && ValidPath(p) && DanglingLinksAvoid(fs, p) && MakeDirs(fs, p).Some?
    ensures IsDir(MakeDirs(fs, p).value, p)
    ensures MakeDirs(fs, p).value == fs <==> (p in fs && fs[p] == Dir)
  {
    MakeDirsKeepsWf(fs, p);
    DirIsLiteral(MakeDirs(fs, p).value, p);
  }

  /** A write that succeeds keeps the tree well-formed. */
  lemma PutContentsKeepsWf(fs: Fs, p: Path, content: string)
    requires Wf(fs) && ValidPath(p) && PutContents(fs, p, content).Some?
    ensures Wf(PutContents(fs, p, content).value)
  {
    ChaseValid(fs, p, MaxSymlinkHops);
  }

  /** What a successful write stores is what `realpath` then reaches from the same name. */
  lemma PutContentsReadable(fs: Fs, p: Path, content: string)
    requires PutContents(fs, p, content).Some?
    ensures var r := PutContents(fs, p, content).value;
      Realpath(r, p).Some? && r[Realpath(r, p).value] == File(content)
  {
    ChaseAfterWrite(fs, p, MaxSymlinkHops, content);
  }

  /**
   * A write succeeds exactly when the links from `p` end at a file, or at a
   * missing name inside an existing directory.
   */
  lemma PutContentsSucceeds(fs: Fs, p: Path, content: string)
    ensures PutContents(fs, p, content).Some? <==>
      && Chase(fs, p, MaxSymlinkHops).Some?
      && var q := Chase(fs, p, MaxSymlinkHops).value;
         if q in fs then fs[q].File? else Parent(q) in fs && fs[Parent(q)] == Dir
  {
  }

  /**
   * Once the directories up to `Parent(p)` are made, a write to a name that
   * was missing, or that resolved to a file, succeeds.
   */
  lemma WriteAfterMakeDirs(fs: Fs, dirs: Fs, p: Path, content: string)
    requires Wf(fs) && ValidPath(p) && (p !in fs || IsFile(fs, p))
    requires forall a :: a in fs ==> a in dirs && dirs[a] == fs[a]
    requires forall a :: a in dirs && a !in fs ==> dirs[a] == Dir && IsBelowOrSelf(a, Parent(p))
    requires Parent(p) in dirs && dirs[Parent(p)] == Dir
    ensures PutContents(dirs, p, content).Some?
  {
    if p !in fs {
      if p in dirs && IsBelow(p, Parent(p)) {
        BelowIsLonger(p, Parent(p));
      }
    } else {
      ChaseInLarger(fs, dirs, p, MaxSymlinkHops);
    }
  }
}
