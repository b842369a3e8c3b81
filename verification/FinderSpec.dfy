/**
 * What the finder's operations do to the filesystem, as functions of the
 * state before: the set `find` yields, the state `flushFolder` leaves, and
 * the state `wipe` leaves (one `doWipe` step, then the whole climb). The
 * lemmas here are the properties the finder promises of them.
 */
module FinderSpec {
  import opened Wrappers
  import opened Paths
  import opened FileSystem

  // ===== find =====

  /** The filter in `find`: no extension asked, or the extension equals it ignoring ASCII case. */
  predicate ExtensionMatches(path: Path, extension: Option<string>) {
    extension.None? || SameIgnoringCase(Extension(Basename(path)), extension.value)
  }

  /**
   * What the recursive directory iterator yields under `folder` in
   * leaves-only mode: every entry strictly inside it that is not a
   * directory, names starting with '.' included.
   */
  function Leaves(fs: Fs, folder: Path): (r: set<Path>)
    ensures r <= Descendants(fs, folder)
  {
    set p | p in fs && IsBelow(folder, p) && fs[p] != Dir
  }

  /** The paths `find(folder, extension)` yields: nothing at all unless `folder` is a directory. */
  function Found(fs: Fs, folder: Path, extension: Option<string>): (r: set<Path>)
    ensures r <= Leaves(fs, folder)
    ensures forall p :: p in r ==> ExtensionMatches(p, extension)
  {
    if IsDir(fs, folder) then set p | p in Leaves(fs, folder) && ExtensionMatches(p, extension) else {}
  }

  /** Asking for "PHP", "php" or "Php" yields the same files. */
  lemma FoundIgnoresCase(fs: Fs, folder: Path, e1: string, e2: string)
    requires SameIgnoringCase(e1, e2)
    ensures Found(fs, folder, Some(e1)) == Found(fs, folder, Some(e2))
  {
    forall p | p in Leaves(fs, folder)
      ensures ExtensionMatches(p, Some(e1)) <==> ExtensionMatches(p, Some(e2))
    {
      SameIgnoringCaseIsEquivalence(Extension(Basename(p)), e1, e2);
      SameIgnoringCaseIsEquivalence(Extension(Basename(p)), e2, e1);
    }
  }

  /**
   * Without an extension `find` yields every file under a directory; with
   * one it yields exactly those of them whose extension matches, and each
   * extension filter picks a part of that set.
   */
  lemma FoundIsFilteredLeaves(fs: Fs, folder: Path, extension: string)
    requires Wf(fs) && folder in fs && fs[folder] == Dir
    ensures Found(fs, folder, None) == Leaves(fs, folder)
    ensures forall p :: p in Found(fs, folder, Some(extension)) <==>
      p in Leaves(fs, folder) && SameIgnoringCase(Extension(Basename(p)), extension)
  {
    DirIsLiteral(fs, folder);
  }

  /** `find` on a name that is not a directory (missing, a file, a link) yields nothing. */
  lemma FoundOutsideDirectory(fs: Fs, folder: Path, extension: Option<string>)
    requires Wf(fs) && !(folder in fs && fs[folder] == Dir)
    ensures Found(fs, folder, extension) == {}
  {
    DirIsLiteral(fs, folder);
  }

  // ===== flushFolder / removeFolder =====

  /**
   * `p` is still there after flushFolder(folder): it is outside the folder,
   * or glob never lists it (a name on its way down starts with '.'), or it
   * is a directory whose rmdir fails because such an entry is left in it.
   */
  ghost predicate Survives(fs: Fs, folder: Path, p: Path)
    requires p in fs
  {
    || !IsBelow(folder, p)
    || HiddenBelow(folder, p)
    || (fs[p] == Dir && HoldsHidden(fs, folder, p))
  }

  /** Some entry under `d` is one glob never lists during the flush of `folder`. */
  ghost predicate HoldsHidden(fs: Fs, folder: Path, d: Path) {
    exists q :: q in fs && IsBelow(d, q) && HiddenBelow(folder, q)
  }

  /** The state flushFolder(folder) leaves. */
  ghost function Flushed(fs: Fs, folder: Path): (r: Fs)
    ensures forall p :: p in r ==> p in fs && r[p] == fs[p]
    ensures forall p :: p in fs && !IsBelow(folder, p) ==> p in r
  {
    map p | p in fs && Survives(fs, folder, p) :: fs[p]
  }

  /** The state after flushFolder has dealt with the listed entries `done` of `folder` and not yet with the others. */
  ghost function FlushedWithin(fs: Fs, folder: Path, done: set<Path>): Fs {
    map p | p in fs && (Survives(fs, folder, p) || OutsideAll(done, p)) :: fs[p]
  }

  /** `p` is in none of the subtrees rooted at `done`. */
  ghost predicate OutsideAll(done: set<Path>, p: Path) {
    forall c :: c in done ==> !IsBelowOrSelf(c, p)
  }

  /** Flushing keeps the tree well-formed. */
  lemma FlushedKeepsWf(fs: Fs, folder: Path)
    requires Wf(fs)
    ensures Wf(Flushed(fs, folder))
  {
    var r := Flushed(fs, folder);
    forall p {:trigger Parent(p)} | p in r && p != "/"
      ensures Parent(p) in r && r[Parent(p)] == Dir
    {
      var d := Parent(p);
      assert IsBelow(d, p);
      if !IsBelow(folder, p) {
      } else if HiddenBelow(folder, p) {
        if d != folder && !HiddenBelow(folder, d) {
          assert fs[d] == Dir && IsBelow(d, p) && HiddenBelow(folder, p);
        }
        if d == folder {
          assert !IsBelow(folder, folder) by {
            if IsBelow(folder, folder) { BelowIsLonger(folder, folder); }
          }
        }
      } else {
        var q :| q in fs && IsBelow(p, q) && HiddenBelow(folder, q);
        BelowTransitive(d, p, q);
        if d == folder {
          assert !IsBelow(folder, folder) by {
            if IsBelow(folder, folder) { BelowIsLonger(folder, folder); }
          }
        }
      }
    }
  }

  /**
   * With no entry whose name starts with '.' anywhere under it, a flushed
   * folder is left in place and empty: glob lists nothing in it.
   */
  lemma FlushedEmptiesFolder(fs: Fs, folder: Path)
    requires Wf(fs)
    requires forall q :: q in fs ==> !HiddenBelow(folder, q)
    ensures var r := Flushed(fs, folder);
      && (folder in fs ==> folder in r)
      && Descendants(r, folder) == {}
      && VisibleChildren(r, folder) == {}
  {
    var r := Flushed(fs, folder);
    if folder in fs {
      assert !IsBelow(folder, folder) by {
        if IsBelow(folder, folder) { BelowIsLonger(folder, folder); }
      }
    }
    forall c | c in fs && c != "/" && Parent(c) == folder
      ensures IsBelow(folder, c)
    {
    }
    forall q | q in r
      ensures !IsBelow(folder, q)
    {
    }
  }

  /**
   * After flushFolder the folder is still there, and glob lists in it
   * exactly the directories it listed before that hold an entry glob
   * never lists; so isEmpty holds afterwards unless such a directory
   * exists.
   */
  lemma FlushedListing(fs: Fs, folder: Path)
    requires Wf(fs)
    ensures folder in fs ==> folder in Flushed(fs, folder)
    ensures VisibleChildren(Flushed(fs, folder), folder) ==
      set c | c in VisibleChildren(fs, folder) && fs[c] == Dir && HoldsHidden(fs, folder, c)
  {
    assert !IsBelow(folder, folder) by {
      if IsBelow(folder, folder) { BelowIsLonger(folder, folder); }
    }
    forall c | c in VisibleChildren(fs, folder)
      ensures Survives(fs, folder, c) <==> fs[c] == Dir && HoldsHidden(fs, folder, c)
    {
      assert IsBelow(folder, c);
      assert !HiddenBelow(folder, c);
    }
  }

  /** An entry whose name starts with '.' (or lies under such a name) survives flushFolder. */
  lemma FlushedKeepsDotEntries(fs: Fs, folder: Path, q: Path)
    requires q in fs && HiddenBelow(folder, q)
    ensures q in Flushed(fs, folder) && Flushed(fs, folder)[q] == fs[q]
  {
  }

  lemma FlushStart(fs: Fs, folder: Path)
    ensures FlushedWithin(fs, folder, {}) == fs
  {
  }

  /** Once every listed entry is done, the whole flush is. */
  lemma FlushFinish(fs: Fs, folder: Path)
    requires Wf(fs)
    ensures FlushedWithin(fs, folder, VisibleChildren(fs, folder)) == Flushed(fs, folder)
  {
    var done := VisibleChildren(fs, folder);
    forall p | p in fs && !Survives(fs, folder, p)
      ensures exists c :: c in done && IsBelowOrSelf(c, p)
    {
      var c := TopBelow(folder, p);
      if c != p {
        AncestorIsDir(fs, c, p);
      }
      if IsDotName(Basename(c)) {
        assert HiddenBelow(folder, c);
        if c != p {
          HiddenBelowInherited(folder, c, p);
        }
      }
      assert c in done;
    }
  }

  /** Inside a listed entry `c` that is not done yet, nothing has been touched. */
  lemma UntouchedBelowPending(fs: Fs, folder: Path, done: set<Path>, c: Path, p: Path)
    requires Wf(fs)
    requires done <= VisibleChildren(fs, folder) && c in VisibleChildren(fs, folder) && c !in done
    requires IsBelowOrSelf(c, p)
    ensures OutsideAll(done, p)
  {
    forall d | d in done
      ensures !IsBelowOrSelf(d, p)
    {
      assert d in fs && d != "/" && Parent(d) == folder;
      assert c in fs && c != "/" && Parent(c) == folder;
      if IsBelowOrSelf(d, p) {
        SiblingsDisjoint(d, c, p);
      }
    }
  }

  /** Below a listed entry `c`, surviving the flush of `c` is surviving the flush of its folder. */
  lemma SurvivesBelowChild(fs: Fs, fsNow: Fs, folder: Path, c: Path, p: Path)
    requires c in fs && c != "/" && Parent(c) == folder && !IsDotName(Basename(c)) && |c| > 0 && c[0] == '/'
    requires forall q :: IsBelow(c, q) ==> (q in fsNow <==> q in fs) && (q in fs ==> fsNow[q] == fs[q])
    requires IsBelow(c, p) && p in fs
    ensures Survives(fsNow, c, p) <==> Survives(fs, folder, p)
  {
    BelowTransitive(folder, c, p);
    HiddenBelowVisibleChild(folder, c, p);
    if Survives(fsNow, c, p) && !HiddenBelow(c, p) {
      var q :| q in fsNow && IsBelow(p, q) && HiddenBelow(c, q);
      BelowTransitive(c, p, q);
      HiddenBelowVisibleChild(folder, c, q);
    }
    if Survives(fs, folder, p) && !HiddenBelow(folder, p) {
      var q :| q in fs && IsBelow(p, q) && HiddenBelow(folder, q);
      BelowTransitive(c, p, q);
      HiddenBelowVisibleChild(folder, c, q);
    }
  }

  /** Inside the listed entry `c` not done yet, the state is the one flushFolder started from. */
  lemma PendingSubtreeUntouched(fs: Fs, folder: Path, done: set<Path>, c: Path)
    requires Wf(fs)
    requires done <= VisibleChildren(fs, folder) && c in VisibleChildren(fs, folder) && c !in done
    ensures var now := FlushedWithin(fs, folder, done);
      && c in now && now[c] == fs[c]
      && forall q :: IsBelow(c, q) ==> (q in now <==> q in fs) && (q in fs ==> now[q] == fs[q])
  {
    var now := FlushedWithin(fs, folder, done);
    UntouchedBelowPending(fs, folder, done, c, c);
    forall q | IsBelow(c, q)
      ensures (q in now <==> q in fs) && (q in fs ==> now[q] == fs[q])
    {
      UntouchedBelowPending(fs, folder, done, c, q);
    }
  }

  /** After `c` is flushed, entries are left in it exactly when it holds something glob never lists. */
  lemma FlushedChildHasEntries(fs: Fs, folder: Path, done: set<Path>, c: Path)
    requires Wf(fs) && Wf(FlushedWithin(fs, folder, done))
    requires done <= VisibleChildren(fs, folder) && c in VisibleChildren(fs, folder) && c !in done
    ensures var now := FlushedWithin(fs, folder, done);
      HasEntries(Flushed(now, c), c) <==> HoldsHidden(fs, folder, c)
  {
    var now := FlushedWithin(fs, folder, done);
    PendingSubtreeUntouched(fs, folder, done, c);
    if HoldsHidden(fs, folder, c) {
      HiddenEntryKeepsChild(fs, now, folder, c);
    }
    if HasEntries(Flushed(now, c), c) {
      ChildEntryIsHidden(fs, now, folder, c);
    }
  }

  lemma HiddenEntryKeepsChild(fs: Fs, now: Fs, folder: Path, c: Path)
    requires Wf(now)
    requires c in fs && c != "/" && Parent(c) == folder && !IsDotName(Basename(c)) && |c| > 0 && c[0] == '/'
    requires forall q :: IsBelow(c, q) ==> (q in now <==> q in fs) && (q in fs ==> now[q] == fs[q])
    requires HoldsHidden(fs, folder, c)
    ensures HasEntries(Flushed(now, c), c)
  {
    var g := Flushed(now, c);
    FlushedKeepsWf(now, c);
    var q :| q in fs && IsBelow(c, q) && HiddenBelow(folder, q);
    HiddenBelowVisibleChild(folder, c, q);
    assert q in g;
    HasEntriesFromDescendant(g, c, q);
  }

  lemma ChildEntryIsHidden(fs: Fs, now: Fs, folder: Path, c: Path)
    requires Wf(now)
    requires c in fs && c != "/" && Parent(c) == folder && !IsDotName(Basename(c)) && |c| > 0 && c[0] == '/'
    requires forall q :: IsBelow(c, q) ==> (q in now <==> q in fs) && (q in fs ==> now[q] == fs[q])
    requires HasEntries(Flushed(now, c), c)
    ensures HoldsHidden(fs, folder, c)
  {
    var g := Flushed(now, c);
    var e :| e in g && e != "/" && Parent(e) == c;
    assert IsBelow(c, e);
    assert Survives(now, c, e);
    if HiddenBelow(c, e) {
      HiddenBelowVisibleChild(folder, c, e);
      assert e in fs && IsBelow(c, e) && HiddenBelow(folder, e);
    } else {
      assert HoldsHidden(now, c, e);
      var q :| q in now && IsBelow(e, q) && HiddenBelow(c, q);
      BelowTransitive(c, e, q);
      HiddenBelowVisibleChild(folder, c, q);
      assert q in fs && IsBelow(c, q) && HiddenBelow(folder, q);
    }
  }

  /** The directory step on `c` itself: rmdir fails exactly when an entry hidden from glob is left under it. */
  lemma FlushStepDirectorySelf(fs: Fs, folder: Path, done: set<Path>, c: Path)
    requires Wf(fs) && Wf(FlushedWithin(fs, folder, done))
    requires done <= VisibleChildren(fs, folder) && c in VisibleChildren(fs, folder) && c !in done
    requires fs[c] == Dir
    ensures var now := FlushedWithin(fs, folder, done);
      c in Rmdir(Flushed(now, c), c) <==> c in FlushedWithin(fs, folder, done + {c})
  {
    var now := FlushedWithin(fs, folder, done);
    PendingSubtreeUntouched(fs, folder, done, c);
    FlushedChildHasEntries(fs, folder, done, c);
    assert !IsBelow(c, c) by {
      if IsBelow(c, c) { BelowIsLonger(c, c); }
    }
    assert !IsBelow(folder, folder) by {
      if IsBelow(folder, folder) { BelowIsLonger(folder, folder); }
    }
    assert c in Flushed(now, c);
    assert !HiddenBelow(folder, c);
  }

  /** The directory step on any other name: what it keeps is what the flush of the folder keeps. */
  lemma FlushStepDirectoryOther(fs: Fs, folder: Path, done: set<Path>, c: Path, p: Path)
    requires Wf(fs)
    requires done <= VisibleChildren(fs, folder) && c in VisibleChildren(fs, folder) && c !in done
    requires p != c
    ensures var now := FlushedWithin(fs, folder, done);
      p in Rmdir(Flushed(now, c), c) <==> p in FlushedWithin(fs, folder, done + {c})
  {
    var now := FlushedWithin(fs, folder, done);
    var g := Flushed(now, c);
    var t := FlushedWithin(fs, folder, done + {c});
    assert p in Rmdir(g, c) <==> p in g;
    if p !in fs {
      assert p !in now && p !in t;
    } else if IsBelow(c, p) {
      PendingSubtreeUntouched(fs, folder, done, c);
      SurvivesBelowChild(fs, now, folder, c, p);
      assert !OutsideAll(done + {c}, p);
      assert p in g <==> Survives(fs, folder, p);
    } else {
      assert OutsideAll(done + {c}, p) <==> OutsideAll(done, p);
      assert p in now ==> Survives(now, c, p);
    }
  }

  /** One turn of flushFolder's loop on a directory: flush it, then rmdir it. */
  lemma FlushStepDirectory(fs: Fs, folder: Path, done: set<Path>, c: Path)
    requires Wf(fs) && Wf(FlushedWithin(fs, folder, done))
    requires done <= VisibleChildren(fs, folder) && c in VisibleChildren(fs, folder) && c !in done
    requires fs[c] == Dir
    ensures var now := FlushedWithin(fs, folder, done);
      c in now && now[c] == Dir &&
      Rmdir(Flushed(now, c), c) == FlushedWithin(fs, folder, done + {c})
  {
    var now := FlushedWithin(fs, folder, done);
    var h := Rmdir(Flushed(now, c), c);
    var t := FlushedWithin(fs, folder, done + {c});
    PendingSubtreeUntouched(fs, folder, done, c);
    FlushStepDirectorySelf(fs, folder, done, c);
    forall p | p != c
      ensures p in h <==> p in t
    {
      FlushStepDirectoryOther(fs, folder, done, c, p);
    }
    assert h.Keys == t.Keys;
    assert forall p :: p in h ==> h[p] == fs[p] == t[p];
  }

  /** One turn of flushFolder's loop on a file or a link: unlink it. */
  lemma FlushStepLeaf(fs: Fs, folder: Path, done: set<Path>, c: Path)
    requires Wf(fs)
    requires done <= VisibleChildren(fs, folder) && c in VisibleChildren(fs, folder) && c !in done
    requires fs[c] != Dir
    ensures var now := FlushedWithin(fs, folder, done);
      c in now && now[c] == fs[c] &&
      Unlink(now, c) == FlushedWithin(fs, folder, done + {c})
  {
    var now := FlushedWithin(fs, folder, done);
    var t := FlushedWithin(fs, folder, done + {c});
    UntouchedBelowPending(fs, folder, done, c, c);
    assert !IsBelow(folder, folder) by {
      if IsBelow(folder, folder) { BelowIsLonger(folder, folder); }
    }
    assert !HiddenBelow(folder, c);
    forall p | p in fs && IsBelow(c, p)
      ensures false
    {
      AncestorIsDir(fs, c, p);
    }
    assert c !in t;
  }

  /**
   * One turn of flushFolder's loop on the listed entry `c`: is_dir sees
   * what `c` was at the start; a directory (whose subtree is smaller than
   * the folder's) is flushed and then rmdir'ed, anything else is unlinked,
   * and either way the state moves on to `c` being done.
   */
  lemma FlushStep(fs: Fs, folder: Path, done: set<Path>, c: Path)
    requires Wf(fs) && Wf(FlushedWithin(fs, folder, done))
    requires done <= VisibleChildren(fs, folder) && c in VisibleChildren(fs, folder) && c !in done
    ensures var now := FlushedWithin(fs, folder, done);
      && (IsDir(now, c) <==> fs[c] == Dir)
      && (fs[c] == Dir ==> |Descendants(now, c)| < |Descendants(fs, folder)|
                           && Rmdir(Flushed(now, c), c) == FlushedWithin(fs, folder, done + {c}))
      && (fs[c] != Dir ==> Unlink(now, c) == FlushedWithin(fs, folder, done + {c}))
      && Wf(FlushedWithin(fs, folder, done + {c}))
  {
    var now := FlushedWithin(fs, folder, done);
    PendingSubtreeUntouched(fs, folder, done, c);
    DirIsLiteral(now, c);
    if fs[c] == Dir {
      FlushStepDirectory(fs, folder, done, c);
      assert now.Keys <= fs.Keys;
      DescendantsShrink(fs, now, folder, c);
      FlushedKeepsWf(now, c);
      RmdirKeepsWf(Flushed(now, c), c);
    } else {
      FlushStepLeaf(fs, folder, done, c);
      UnlinkKeepsWf(now, c);
    }
  }

  /** Measure for flushFolder's recursion: a child's subtree is a proper part of its folder's. */
  lemma DescendantsShrink(fs: Fs, now: Fs, folder: Path, c: Path)
    requires now.Keys <= fs.Keys && c in fs && IsBelow(folder, c)
    ensures |Descendants(now, c)| < |Descendants(fs, folder)|
  {
    var small := Descendants(now, c);
    var big := Descendants(fs, folder);
    forall q | q in small
      ensures q in big
    {
      BelowTransitive(folder, c, q);
    }
    assert c !in small by {
      if IsBelow(c, c) { BelowIsLonger(c, c); }
    }
    assert small < big;
    ProperSubsetSmaller(small, big);
  }

  lemma ProperSubsetSmaller<T>(a: set<T>, b: set<T>)
    requires a < b
    ensures |a| < |b|
  {
    var x :| x in b && x !in a;
    SubsetNoLarger(a, b - {x});
    assert b == (b - {x}) + {x};
  }

  lemma {:induction false} SubsetNoLarger<T>(a: set<T>, b: set<T>)
    requires a <= b
    ensures |a| <= |b|
    decreases a
  {
    if a != {} {
      var x :| x in a;
      SubsetNoLarger(a - {x}, b - {x});
      assert a == (a - {x}) + {x};
      assert b == (b - {x}) + {x};
    }
  }

  /**
   * removeFolder on a directory with no entry starting with '.' under it
   * removes the directory and everything in it and nothing else; with such
   * an entry, rmdir fails and the directory stays (its visible content
   * gone).
   */
  lemma RemovedFolder(fs: Fs, folder: Path)
    requires Wf(fs) && folder in fs && fs[folder] == Dir && folder != "/"
    ensures var r := Rmdir(Flushed(fs, folder), folder);
      && (forall p :: p in r <==> p in fs && !IsBelowOrSelf(folder, p)) ==
         (forall q :: q in fs ==> !HiddenBelow(folder, q))
      && (forall p :: p in fs && !IsBelowOrSelf(folder, p) ==> p in r && r[p] == fs[p])
  {
    var f := Flushed(fs, folder);
    var r := Rmdir(f, folder);
    assert !IsBelow(folder, folder) by {
      if IsBelow(folder, folder) { BelowIsLonger(folder, folder); }
    }
    FlushedKeepsWf(fs, folder);
    if forall q :: q in fs ==> !HiddenBelow(folder, q) {
      FlushedEmptiesFolder(fs, folder);
    } else {
      var q :| q in fs && HiddenBelow(folder, q);
      assert q in f;
      HasEntriesFromDescendant(f, folder, q);
      assert folder in r;
    }
  }

  // ===== wipe / doWipe =====

  /**
   * One doWipe(folder, path): the new state and whether wipe() climbs on.
   * A name that does not resolve counts as already gone; the resolved root
   * stops the climb; a directory goes only when glob lists nothing in it
   * (rmdir may still fail on entries starting with '.'); anything else is
   * unlinked. A stop changes nothing, and nothing but `path` is removed.
   */
  function WipeStep(fs: Fs, folder: Path, path: Path): (r: (Fs, bool))
    ensures !r.1 ==> r.0 == fs
    ensures forall q :: q in r.0 ==> q in fs && r.0[q] == fs[q]
    ensures forall q :: q in fs && q !in r.0 ==> q == path
  {
    match Realpath(fs, path)
    case None => (fs, true)
    case Some(resolved) =>
      if resolved == folder then (fs, false)
      else if IsDir(fs, path) then
        if VisibleChildren(fs, path) == {} then (Rmdir(fs, path), true) else (fs, false)
      else (Unlink(fs, path), true)
  }

  lemma WipeStepKeepsWf(fs: Fs, folder: Path, path: Path)
    requires Wf(fs)
    ensures Wf(WipeStep(fs, folder, path).0)
  {
  }

  /**
   * As written, the climb cannot leave "": doWipe finds nothing there and
   * asks to climb on, and the strip leaves "" as it is. The path is ""
   * after the step on a top-level name "/x". The climb reaches such a name
   * only from a relative path that does not start with '/': "x" under the
   * root "/" gives "/x", and "x" under "/r" gives "/rx". A relative path
   * that starts with '/' stops at the root instead, since "/" + "/x" is
   * "//x", whose strip is "/". Under "/" the path is also "" from the
   * start when the relative path is "", since `rtrim` turns "/" into "".
   */
  lemma WrittenClimbStuckAtEmpty(fs: Fs, folder: Path)
    requires Wf(fs)
    ensures WipeStep(fs, folder, "") == (fs, true)
    ensures StripLastChunk("") == ""
    ensures StripLastChunk("/x") == ""
    ensures TrimTrailingSlashes("/" + "") == ""
  {
  }

  /**
   * As written, nothing keeps the climb below the root: the relative path
   * "x" under the root "/r" names the sibling "/rx", and doWipe unlinks a
   * file there like any other.
   */
  lemma WrittenStepLeavesRoot(fs: Fs, folder: Path, path: Path)
    requires Wf(fs) && path in fs && fs[path].File? && path != folder
    ensures WipeStep(fs, folder, path) == (fs - {path}, true)
    ensures TrimTrailingSlashes("/r" + "x") == "/rx" && !IsBelowOrSelf("/r", "/rx")
  {
  }

  /**
   * The step wipe() is meant to take: doWipe's, but only while `path` is
   * strictly below the resolved root `folder`. At the root, outside it and
   * at "" the climb ends with nothing changed, and only a path below the
   * root can be removed.
   */
  function WipeStepWithin(fs: Fs, folder: Path, path: Path): (r: (Fs, bool))
    ensures r.1 ==> IsBelow(folder, path)
    ensures forall q :: q in r.0 ==> q in fs && r.0[q] == fs[q]
    ensures forall q :: q in fs && q !in r.0 ==> q == path && IsBelow(folder, path)
  {
    if IsBelow(folder, path) then WipeStep(fs, folder, path) else (fs, false)
  }

  /**
   * A step that climbs on shortens the path to its `dirname`, still at or
   * below the root; the strip reaches "" only under the root "/", and there
   * the next step ends the climb.
   */
  lemma WipeStepClimbs(fs: Fs, folder: Path, path: Path)
    requires WipeStepWithin(fs, folder, path).1
    ensures |StripLastChunk(path)| < |path|
    ensures StripLastChunk(path) == "" ==> folder == "/" && !WipeStepWithin(fs, folder, "").1
    ensures StripLastChunk(path) != "" ==> StripLastChunk(path) == Parent(path) && IsBelowOrSelf(folder, Parent(path))
  {
    assert path[0] in path;
    StripLastChunkSpec(path);
    if StripLastChunk(path) == "" {
      assert Parent(path) == "/" && !IsBelow(folder, "/");
      assert !IsBelow(folder, "");
    }
  }

  /** The state wipe() leaves when its climb starts at `path` below the resolved root `folder`. */
  ghost function WipeFrom(fs: Fs, folder: Path, path: Path): (r: Fs)
    requires Wf(fs)
    ensures Wf(r)
    ensures forall q :: q in r ==> q in fs && r[q] == fs[q]
    decreases |path|
  {
    var (next, more) := WipeStepWithin(fs, folder, path);
    WipeStepKeepsWf(fs, folder, path);
    if more then
      WipeStepClimbs(fs, folder, path);
      WipeFrom(next, folder, StripLastChunk(path))
    else next
  }

  /**
   * wipe() never removes or changes the root, and removes nothing but
   * `path` and its ancestors strictly below the root; whatever survives is
   * unchanged. "Below" is textual, so for a path with a ".." segment the
   * confinement holds only because such a name is looked up literally.
   */
  lemma {:induction false} WipeRemovesOnlyTheChain(fs: Fs, folder: Path, path: Path)
    requires Wf(fs)
    ensures var r := WipeFrom(fs, folder, path);
      && (folder in fs ==> folder in r && r[folder] == fs[folder])
      && (forall q :: q in fs && q !in r ==> IsBelow(folder, q) && IsBelowOrSelf(q, path))
    decreases |path|
  {
    var r := WipeFrom(fs, folder, path);
    var (next, more) := WipeStepWithin(fs, folder, path);
    WipeStepKeepsWf(fs, folder, path);
    if more {
      var s := StripLastChunk(path);
      WipeStepClimbs(fs, folder, path);
      WipeRemovesOnlyTheChain(next, folder, s);
      forall q | q in fs && q !in r
        ensures IsBelow(folder, q) && IsBelowOrSelf(q, path)
      {
        if q in next {
          assert IsBelow(folder, q) && IsBelowOrSelf(q, s);
          if q != s {
            BelowTransitive(q, s, path);
          }
        }
      }
    }
    if folder in fs && folder !in r {
      BelowIsLonger(folder, folder);
    }
  }

  /** A file or a link that resolves, named by `path` below the root, is removed. */
  lemma WipeRemovesTarget(fs: Fs, folder: Path, path: Path)
    requires Wf(fs) && IsBelow(folder, path)
    requires path in fs && fs[path] != Dir && Realpath(fs, path).Some?
    ensures path !in WipeFrom(fs, folder, path)
  {
    AncestorIsDir(fs, folder, path);
    var resolved := Realpath(fs, path).value;
    if resolved == folder {
      ChaseEndsOffDirs(fs, path, MaxSymlinkHops);
    }
    DirIsLiteral(fs, path);
    var (next, more) := WipeStepWithin(fs, folder, path);
    assert more && path !in next;
  }

  /** A directory that glob finds entries in stops wipe() at once: nothing is removed. */
  lemma WipeStopsAtListedEntries(fs: Fs, folder: Path, path: Path)
    requires Wf(fs)
    requires path in fs && fs[path] == Dir && VisibleChildren(fs, path) != {}
    ensures WipeFrom(fs, folder, path) == fs
  {
    DirIsLiteral(fs, path);
    if IsBelow(folder, path) {
      BelowIsLonger(folder, path);
    }
  }

  /** A link whose target is gone does not resolve, so wipe() climbs past it and leaves it in place. */
  lemma WipeKeepsDanglingLink(fs: Fs, folder: Path, path: Path)
    requires Wf(fs)
    requires path in fs && fs[path].Link? && fs[path].target !in fs
    ensures path in WipeFrom(fs, folder, path)
  {
    assert Chase(fs, path, MaxSymlinkHops) == Some(fs[path].target);
    assert Realpath(fs, path).None?;
    var (next, more) := WipeStepWithin(fs, folder, path);
    if more {
      assert next == fs;
      WipeStepClimbs(fs, folder, path);
      WipeRemovesOnlyTheChain(fs, folder, StripLastChunk(path));
      if StripLastChunk(path) != "" && IsBelowOrSelf(path, Parent(path)) {
        BelowIsLonger(path, Parent(path));
      }
    }
  }

  /**
   * Upward pruning leaves no empty directory behind on its way: every
   * directory from `path` up to (not including) the root that is still
   * there holds at least one entry.
   */
  lemma {:induction false} WipeLeavesNoEmptyDirectory(fs: Fs, folder: Path, path: Path)
    requires Wf(fs)
    ensures var r := WipeFrom(fs, folder, path);
      forall d :: d in r && r[d] == Dir && IsBelow(folder, d) && IsBelowOrSelf(d, path) ==> HasEntries(r, d)
    decreases |path|
  {
    var (next, more) := WipeStepWithin(fs, folder, path);
    var r := WipeFrom(fs, folder, path);
    WipeStepKeepsWf(fs, folder, path);
    DirIsLiteral(fs, path);
    if !IsBelow(folder, path) {
      forall d | IsBelow(folder, d) && IsBelowOrSelf(d, path)
        ensures false
      {
        if d != path {
          BelowTransitive(folder, d, path);
        }
      }
    } else if !more {
      assert r == fs;
      assert path in fs;
      forall d | d in r && r[d] == Dir && IsBelow(folder, d) && IsBelowOrSelf(d, path)
        ensures HasEntries(r, d)
      {
        if d == path {
          BelowIsLonger(folder, path);
          assert Realpath(fs, path) == Some(path);
          assert VisibleChildren(fs, path) != {};
          var c :| c in VisibleChildren(fs, path);
        } else {
          HasEntriesFromDescendant(fs, d, path);
        }
      }
    } else {
      var s := StripLastChunk(path);
      WipeStepClimbs(fs, folder, path);
      WipeLeavesNoEmptyDirectory(next, folder, s);
      WipeRemovesOnlyTheChain(next, folder, s);
      forall d | d in r && r[d] == Dir && IsBelow(folder, d) && IsBelowOrSelf(d, path)
        ensures HasEntries(r, d)
      {
        if d == path {
          assert path in next && next[path] == Dir;
          assert HasEntries(fs, path);
          var e :| e in fs && e != "/" && Parent(e) == path;
          assert IsBelow(path, e);
          if e !in r {
            assert IsBelowOrSelf(e, s);
            if e == s {
              BelowIsLonger(path, e);
            } else {
              BelowIsLonger(e, s);
              BelowIsLonger(path, e);
            }
          }
        } else {
          assert IsBelow(d, path);
          if s == "" {
            assert Parent(path) == "/" && !IsBelow(d, "/");
          }
        }
      }
    }
  }

  // ===== wipe() as written, on bounded inputs =====

  /**
   * A part of the inputs on which wipe()'s loop as written ends: `folder`
   * is the resolved root (an existing non-link other than "/") and `path`
   * is a canonical name at or below it. The loop also ends on inputs
   * outside this part, wherever a directory with listed entries stops it.
   */
  ghost predicate WipeBounded(fs: Fs, folder: Path, path: Path) {
    folder in fs && !fs[folder].Link? && folder != "/" && ValidPath(path) && IsBelowOrSelf(folder, path)
  }

  /**
   * On those inputs doWipe's step is the confined one, and a step that
   * climbs on stays on them with a shorter path.
   */
  lemma WipeStepBounded(fs: Fs, folder: Path, path: Path)
    requires Wf(fs) && WipeBounded(fs, folder, path)
    ensures WipeStep(fs, folder, path) == WipeStepWithin(fs, folder, path)
    ensures var (next, more) := WipeStep(fs, folder, path);
      more ==> WipeBounded(next, folder, StripLastChunk(path)) && |StripLastChunk(path)| < |path|
  {
    var (next, more) := WipeStep(fs, folder, path);
    if path == folder {
      assert Realpath(fs, path) == Some(folder);
    } else {
      StripIsParentBelow(folder, path);
      ValidPathParent(path);
      assert folder in next && next[folder] == fs[folder];
    }
  }

  /** wipe()'s loop as written, on `WipeBounded` inputs: doWipe, then the strip, until doWipe says stop. */
  ghost function WrittenClimb(fs: Fs, folder: Path, path: Path): (r: Fs)
    requires Wf(fs) && WipeBounded(fs, folder, path)
    ensures Wf(r)
    decreases |path|
  {
    var (next, more) := WipeStep(fs, folder, path);
    WipeStepBounded(fs, folder, path);
    WipeStepKeepsWf(fs, folder, path);
    if more then WrittenClimb(next, folder, StripLastChunk(path)) else next
  }

  /**
   * On `WipeBounded` inputs, confining the climb to the root changes
   * nothing. Outside them the two can differ even where the written loop
   * ends: it may remove a file beside the root before a directory with
   * listed entries stops it.
   */
  lemma {:induction false} WrittenClimbIsConfined(fs: Fs, folder: Path, path: Path)
    requires Wf(fs) && WipeBounded(fs, folder, path)
    ensures WrittenClimb(fs, folder, path) == WipeFrom(fs, folder, path)
    decreases |path|
  {
    WipeStepBounded(fs, folder, path);
    WipeStepKeepsWf(fs, folder, path);
    var (next, more) := WipeStep(fs, folder, path);
    if more {
      WrittenClimbIsConfined(next, folder, StripLastChunk(path));
    }
  }
}
