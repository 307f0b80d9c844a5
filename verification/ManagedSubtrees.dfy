/**
 `promoteManagedSubtree` and `promoteTopLevelFiles`: the swap of entry/,
 category/, tag/ and archive/, and of the files at the top.
 */
module ManagedSubtrees {
  import opened Options
  import opened FileTree
  import opened Promotion
  import opened FileSystem
  import opened PromotionMethods

  /** The subtree of `t` at `d` is that of `u` at `e`. */
  ghost predicate SameSubtree(t: Tree, d: Path, u: Tree, e: Path) {
    forall x: Path {:trigger At(t, d + x)} :: At(t, d + x) == At(u, e + x)
  }

  ghost predicate NothingAt(t: Tree, d: Path) {
    forall x: Path {:trigger At(t, d + x)} :: At(t, d + x) == None
  }

  function SwapSubtree(t: Tree, stg: string, sub: string, bk: string): Outcome {
    var staged := Staged(stg, [sub]);
    if !DirExists(t, staged) then Done(if DirExists(t, [sub]) then Removed(t, [sub]) else t)
    else
      var t2 := SetAside(t, [sub], bk);
      if !CanRename(t2, staged, [sub]) then
        Failed(if DirExists(t, [sub]) then Moved(t2, BackupDir(bk), [sub]) else t2)
      else
        var t3 := Moved(t2, staged, [sub]);
        Done(if DirExists(t, [sub]) then Removed(t3, [bk]) else t3)
  }

  lemma SetAsideSubtree(t: Tree, stg: string, sub: string, bk: string, t2: Tree)
    requires WellFormed(t) && !Hidden(sub) && FreshName(t, stg, bk)
    requires DirExists(t, [sub]) && t2 == SetAside(t, [sub], bk)
    ensures NothingAt(t2, [sub]) && SameSubtree(t2, BackupDir(bk), t, [sub])
    ensures SameSubtree(t2, Staged(stg, [sub]), t, Staged(stg, [sub]))
  {
    forall x: Path
      ensures At(t2, [sub] + x) == None && At(t2, BackupDir(bk) + x) == At(t, [sub] + x)
      ensures At(t2, Staged(stg, [sub]) + x) == At(t, Staged(stg, [sub]) + x)
    {
      SetAsideAt(t, stg, [sub], bk, [sub] + x);
      SetAsideAt(t, stg, [sub], bk, BackupDir(bk) + x);
      SetAsideAt(t, stg, [sub], bk, Staged(stg, [sub]) + x);
      assert ([sub] + x)[0] == sub && (BackupDir(bk) + x)[0] == bk && (Staged(stg, [sub]) + x)[0] == stg;
      assert (BackupDir(bk) + x)[2..] == x;
    }
  }

  lemma MovedSubtree(t: Tree, s: Path, d: Path, x: Path)
    requires !(d <= s) && !(s <= d)
    ensures At(Moved(t, s, d), d + x) == At(t, s + x)
    ensures At(Moved(t, s, d), s + x) == None
  {
    MovedAt(t, s, d, d + x);
    SuffixOf(d, x);
    MovedAt(t, s, d, s + x);
    SuffixOf(s, x);
    if d <= s + x { PrefixComparable(d, s, s + x); }
  }

  /** Nothing is live, and the old one sits whole in its backup. */
  ghost predicate LeftInBackup(t: Tree, stg: string, sub: string, u: Tree) {
    DirExists(t, [sub]) && NothingAt(u, [sub]) && exists bk :: FreshName(t, stg, bk) && SameSubtree(u, BackupDir(bk), t, [sub])
  }

  /** What the swap leaves: the staged copy live on success, and on an error the old
      one, unless the undo rename was refused as well. */
  ghost predicate SwapOutcome(t: Tree, stg: string, sub: string, u: Tree, ok: bool, undoRefused: bool) {
    if ok then !undoRefused && SameSubtree(u, [sub], t, Staged(stg, [sub]))
    else if undoRefused then LeftInBackup(t, stg, sub, u)
    else SameSubtree(u, [sub], t, [sub])
  }

  lemma LiveUntouched(t: Tree, stg: string, sub: string, u: Tree)
    requires OnlyTemporary(t, stg, u) && !Hidden(sub)
    ensures SameSubtree(u, [sub], t, [sub])
  {
    forall x: Path ensures At(u, [sub] + x) == At(t, [sub] + x) {
      assert ([sub] + x)[0] == sub;
    }
  }

  lemma StagedCanGoIn(t: Tree, stg: string, sub: string, bk: string)
    requires WellFormed(t) && Hidden(stg) && !Hidden(sub) && FreshName(t, stg, bk)
    requires DirExists(t, Staged(stg, [sub])) && DirExists(t, [sub])
    ensures var t2 := SetAside(t, [sub], bk);
      CanRename(t2, Staged(stg, [sub]), [sub]) && CanRename(t2, BackupDir(bk), [sub])
  {
    SetAsideAt(t, stg, [sub], bk, Staged(stg, [sub]));
    SetAsideAt(t, stg, [sub], bk, BackupDir(bk));
    SetAsideAt(t, stg, [sub], bk, [sub]);
    SetAsideAt(t, stg, [sub], bk, []);
    assert [sub] + BackupDir(bk)[2..] == [sub];
    assert Staged(stg, [sub])[0] == stg && BackupDir(bk)[0] == bk;
  }

  lemma SubtreeMovesIn(t: Tree, u: Tree, s: Path, d: Path, from: Tree, e: Path)
    requires !(d <= s) && !(s <= d) && SameSubtree(u, s, from, e)
    ensures SameSubtree(Moved(u, s, d), d, from, e)
  {
    forall x: Path ensures At(Moved(u, s, d), d + x) == At(from, e + x) {
      MovedSubtree(u, s, d, x);
    }
  }

  lemma SubtreeStays(t: Tree, sub: string, bk: string, u: Tree, from: Tree, e: Path)
    requires SameSubtree(t, [sub], from, e) && sub != bk && Shrunk(t, [bk], u)
    ensures SameSubtree(u, [sub], from, e)
  {
    forall x: Path ensures At(u, [sub] + x) == At(from, e + x) {
      assert ([sub] + x)[0] == sub;
    }
  }

  /** The second half of the swap: the staged copy goes in, or the old one comes
      back, or both renames are refused and it stays in its backup. */
  method PutSubtreeInPlace(fs: Disk, ghost t: Tree, stg: string, sub: string, ghost bk: string, backupDir: string,
                           finalExists: bool) returns (ok: bool, ghost undoRefused: bool)
    requires fs.Valid() && WellFormed(t) && Hidden(stg) && !Hidden(sub) && FreshName(t, stg, bk)
    requires DirExists(t, Staged(stg, [sub])) && finalExists == DirExists(t, [sub])
    requires fs.tree == SetAside(t, [sub], bk) && (finalExists ==> backupDir == bk)
    requires Keeps(t, {[sub]}, stg, fs.tree)
    modifies fs
    ensures fs.Valid() && fs.faults >= old(fs.faults) && Keeps(t, {[sub]}, stg, fs.tree)
    ensures SwapOutcome(t, stg, sub, fs.tree, ok, undoRefused)
    ensures undoRefused ==> fs.faults == old(fs.faults) + 2
    ensures fs.faults == old(fs.faults) ==> SwapSubtree(t, stg, sub, bk) == Result(ok, fs.tree)
  {
    ghost var t2 := fs.tree;
    ghost var roots := {[sub]};
    var staged := Staged(stg, [sub]);
    LooseNames(t, roots, stg, [sub], bk);
    assert [stg] <= staged && staged[0] == stg && BackupDir(bk)[0] == bk && [bk] <= BackupDir(bk);
    assert SameSubtree(t, staged, t, staged) && SameSubtree(t, [sub], t, [sub]);
    if finalExists {
      SetAsideSubtree(t, stg, sub, bk, t2);
      StagedCanGoIn(t, stg, sub, bk);
    }
    undoRefused := false;
    ok := fs.Rename(staged, [sub]);
    MovedKeeps(t, roots, stg, t2, staged, [sub]);
    if ok {
      SubtreeMovesIn(t, t2, staged, [sub], t, staged);
      if finalExists {
        ghost var t3 := fs.tree;
        var _ := fs.RemoveAll([backupDir]);
        ShrunkKeeps(t, roots, stg, t3, [bk], fs.tree);
        SubtreeStays(t3, sub, bk, fs.tree, t, staged);
      }
    } else if finalExists {
      var undone := fs.Rename(BackupDir(backupDir), [sub]);
      undoRefused := !undone;
      MovedKeeps(t, roots, stg, t2, BackupDir(bk), [sub]);
      SubtreeMovesIn(t, t2, BackupDir(bk), [sub], t, [sub]);
    }
  }

  method PromoteManagedSubtree(fs: Disk, stg: string, sub: string) returns (ok: bool, ghost bk: string, ghost undoRefused: bool)
    requires fs.Valid() && Hidden(stg) && !Hidden(sub)
    modifies fs
    ensures fs.Valid() && fs.faults >= old(fs.faults)
    // nothing else is harmed, whatever is refused
    ensures Keeps(old(fs.tree), {[sub]}, stg, fs.tree)
    // a staged copy either replaces the live one or leaves it, up to a refused undo
    ensures DirExists(old(fs.tree), Staged(stg, [sub])) ==> SwapOutcome(old(fs.tree), stg, sub, fs.tree, ok, undoRefused)
    ensures undoRefused ==> !ok && fs.faults >= old(fs.faults) + 2
    // without one the live directory goes
    ensures !DirExists(old(fs.tree), Staged(stg, [sub])) ==> Shrunk(old(fs.tree), [sub], fs.tree)
    ensures !DirExists(old(fs.tree), Staged(stg, [sub])) && ok ==> !DirExists(fs.tree, [sub])
    ensures fs.faults == old(fs.faults) ==> BACKUP_PREFIX <= bk
    ensures fs.faults == old(fs.faults) ==>
              FreshName(old(fs.tree), stg, bk) && SwapSubtree(old(fs.tree), stg, sub, bk) == Result(ok, fs.tree)
  {
    ghost var t := fs.tree;
    ghost var roots := {[sub]};
    assert Keeps(t, roots, stg, t);
    bk := SomeFreshName(t, stg);
    undoRefused := false;
    LooseNames(t, roots, stg, [sub], bk);
    var staged := Staged(stg, [sub]);
    var finalExists := DirExists(fs.tree, [sub]);
    if !DirExists(fs.tree, staged) {
      ok := true;
      if finalExists {
        ok := fs.RemoveAll([sub]);
        ShrunkKeeps(t, roots, stg, t, [sub], fs.tree);
        RemovedAt(t, [sub], [sub]);
      }
      return;
    }
    assert SameSubtree(t, [sub], t, [sub]);
    var backupDir := "";
    if finalExists {
      ok, backupDir := SetRootAside(fs, t, roots, stg, [sub]);
      if !ok {
        LiveUntouched(t, stg, sub, fs.tree);
        return;
      }
      bk := backupDir;
    }
    ok, undoRefused := PutSubtreeInPlace(fs, t, stg, sub, bk, backupDir, finalExists);
  }
}
