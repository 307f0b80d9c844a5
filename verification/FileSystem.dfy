/**
 The file system the rebuild works on.  Any call may be refused by the
 environment (full disk, permissions, another process); `faults` counts the
 calls refused for no reason visible in the tree.
 */
module FileSystem {
  import opened Options
  import opened FileTree
  import opened Promotion

  /** `u` is `t` with part of the subtree at `d` gone. */
  ghost predicate Shrunk(t: Tree, d: Path, u: Tree) {
    forall p: Path {:trigger At(u, p)} :: At(u, p) == At(t, p) || (d <= p && At(u, p) == None)
  }

  /** `u` is `t` with some missing directories above or at `p` made. */
  ghost predicate MoreDirs(t: Tree, p: Path, u: Tree) {
    forall q: Path {:trigger At(u, q)} :: At(u, q) == At(t, q) || (q <= p && q !in t && At(u, q) == Some(Dir))
  }

  predicate EmptyOrFile(t: Tree, p: Path) {
    p in t && (t[p].File? || forall q | q in t :: p <= q ==> q == p)
  }

  const BACKUP_PREFIX := ".sb-backup-"

  datatype RemoveResult = Gone | Missing | Refused

  class Disk {
    var tree: Tree
    ghost var faults: nat

    ghost predicate Valid()
      reads this
    {
      WellFormed(tree)
    }

    method Rename(s: Path, d: Path) returns (ok: bool)
      requires Valid()
      modifies this
      ensures Valid() && faults >= old(faults)
      ensures ok ==> CanRename(old(tree), s, d) && tree == Moved(old(tree), s, d)
      ensures !ok ==> tree == old(tree) && (CanRename(old(tree), s, d) ==> faults == old(faults) + 1)
      ensures faults <= old(faults) + 1 && (ok ==> faults == old(faults))
    {
      var fault: bool := *;
      ok := CanRename(tree, s, d);
      if ok && fault {
        faults := faults + 1;
        ok := false;
      }
      if ok {
        MovedWellFormed(tree, s, d);
        tree := Moved(tree, s, d);
      }
    }

    /** Stops wherever the environment stops it. */
    method RemoveAll(d: Path) returns (ok: bool)
      requires Valid() && d != []
      modifies this
      ensures Valid() && faults >= old(faults)
      ensures Shrunk(old(tree), d, tree)
      ensures ok ==> tree == Removed(old(tree), d) && faults == old(faults)
      ensures !ok ==> faults == old(faults) + 1
    {
      var fault: bool := *;
      if fault {
        faults := faults + 1;
        var k: int := *;
        var n := if k < 0 then 0 else k;
        for i := 0 to n
          invariant Valid() && Shrunk(old(tree), d, tree) && faults == old(faults) + 1
        {
          var cut: Path := *;
          if d <= cut {
            RemovedWellFormed(tree, cut);
            RemovedIsShrunk(old(tree), d, tree, cut);
            tree := Removed(tree, cut);
          }
        }
        ok := false;
      } else {
        RemovedWellFormed(tree, d);
        RemovedIsShrunk(tree, d, tree, d);
        tree := Removed(tree, d);
        ok := true;
      }
    }

    /** Removes a file or an empty directory. */
    method Remove(p: Path) returns (r: RemoveResult)
      requires Valid() && p != []
      modifies this
      ensures Valid() && faults >= old(faults)
      ensures r.Gone? ==> EmptyOrFile(old(tree), p) && tree == Removed(old(tree), p)
      ensures !r.Gone? ==> tree == old(tree)
      ensures r.Missing? ==> p !in old(tree)
      ensures r.Refused? && faults == old(faults) ==> p in old(tree) && !EmptyOrFile(old(tree), p)
      ensures !r.Refused? ==> faults == old(faults)
    {
      var fault: bool := *;
      if fault {
        faults := faults + 1;
        r := Refused;
      } else if p !in tree {
        r := Missing;
      } else if EmptyOrFile(tree, p) {
        RemovedWellFormed(tree, p);
        tree := Removed(tree, p);
        r := Gone;
      } else {
        r := Refused;
      }
    }

    method MkdirAll(p: Path) returns (ok: bool)
      requires Valid()
      modifies this
      ensures Valid() && faults >= old(faults)
      ensures MoreDirs(old(tree), p, tree)
      ensures ok ==> CanMkdirAll(old(tree), p) && tree == WithDirs(old(tree), p) && faults == old(faults)
      ensures !ok && faults == old(faults) ==> tree == old(tree) && !CanMkdirAll(old(tree), p)
    {
      var fault: bool := *;
      ok := CanMkdirAll(tree, p);
      var upTo := p;
      if ok && fault {
        faults := faults + 1;
        var n: int := *;
        upTo := if 0 <= n <= |p| then p[..n] else p;
        ShorterMkdirAll(tree, p, upTo);
        WithDirsIsMore(tree, p, upTo);
        WithDirsWellFormed(tree, upTo);
        tree := WithDirs(tree, upTo);
        ok := false;
      } else if ok {
        WithDirsIsMore(tree, p, p);
        WithDirsWellFormed(tree, p);
        tree := WithDirs(tree, p);
      }
    }

    /** A new hidden directory of the output directory, under a random name; the
        staging directory's name is taken. */
    method MkdirTemp(stg: string) returns (ok: bool, name: string)
      requires Valid() && Hidden(stg)
      modifies this
      ensures Valid() && faults >= old(faults)
      ensures ok ==> FreshName(old(tree), stg, name) && BACKUP_PREFIX <= name
      ensures ok ==> tree == old(tree)[[name] := Dir] && faults == old(faults)
      ensures !ok ==> tree == old(tree) && faults == old(faults) + 1
    {
      var suffix: string := *;
      name := BACKUP_PREFIX + suffix;
      assert Hidden(name);
      var fault: bool := *;
      if fault || [name] in tree || name == stg {
        faults := faults + 1;
        ok := false;
      } else {
        NothingBelowAbsent(tree, name);
        NewDirWellFormed(tree, name);
        tree := tree[[name] := Dir];
        ok := true;
      }
    }
  }

  lemma RemovedIsShrunk(t: Tree, d: Path, u: Tree, cut: Path)
    requires Shrunk(t, d, u) && d <= cut
    ensures Shrunk(t, d, Removed(u, cut))
  {
    forall p: Path ensures At(Removed(u, cut), p) == At(t, p) || (d <= p && At(Removed(u, cut), p) == None) {
      RemovedAt(u, cut, p);
      if cut <= p { PrefixTransitive(d, cut, p); }
    }
  }

  lemma ShorterMkdirAll(t: Tree, p: Path, q: Path)
    requires CanMkdirAll(t, p) && q <= p
    ensures CanMkdirAll(t, q)
  {
    forall i | 0 <= i <= |q| ensures q[..i] !in t || t[q[..i]].Dir? {
      assert q == p[..|q|];
      assert q[..i] == p[..i];
    }
  }

  lemma WithDirsIsMore(t: Tree, p: Path, upTo: Path)
    requires upTo <= p
    ensures MoreDirs(t, p, WithDirs(t, upTo))
  {
    forall q: Path
      ensures At(WithDirs(t, upTo), q) == At(t, q) || (q <= p && q !in t && At(WithDirs(t, upTo), q) == Some(Dir))
    {
      WithDirsAt(t, upTo, q);
      if q <= upTo { PrefixTransitive(q, upTo, p); }
    }
  }

  lemma NothingBelowAbsent(t: Tree, name: string)
    requires WellFormed(t) && [name] !in t
    ensures forall q: Path :: [name] <= q ==> At(t, q) == None
  {
    forall q: Path | [name] <= q ensures At(t, q) == None {
      if q != [name] && q in t { AboveIsDir(t, [name], q); }
    }
  }

  lemma NewDirWellFormed(t: Tree, name: string)
    requires WellFormed(t) && [name] !in t
    ensures WellFormed(t[[name] := Dir])
  {
    var u := t[[name] := Dir];
    forall p, q: Path | p <= q && p != q && q in u ensures DirExists(u, p) {
      if q == [name] { assert p == []; } else { AboveIsDir(t, p, q); }
    }
  }
}
