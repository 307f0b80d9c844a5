/**
 The output directory as a finite map from paths to nodes, and the file-system
 operations the rebuild uses as functions on such maps.  A path is its list of
 segments below the output directory; `[]` is the output directory itself.
 `s <= p` is Dafny's prefix test: `p` is `s` or lies under it.
 */
module FileTree {
  import opened Options

  type Path = seq<string>

  datatype Node = Dir | File(data: string)

  type Tree = map<Path, Node>

  function At(t: Tree, p: Path): Option<Node> {
    if p in t then Some(t[p]) else None
  }

  predicate DirExists(t: Tree, p: Path) {
    At(t, p) == Some(Dir)
  }

  function Parent(p: Path): Path {
    if p == [] then [] else p[..|p| - 1]
  }

  /** Everything present hangs off a directory that is present. */
  ghost predicate WellFormed(t: Tree) {
    && DirExists(t, [])
    && forall p, q: Path :: p <= q && p != q && q in t ==> DirExists(t, p)
  }

  /** The operating system renames `s` to `d`: never onto a directory, a
      directory only onto a free name, a file also onto a file. */
  predicate CanRename(t: Tree, s: Path, d: Path) {
    && s in t
    && d != []
    && DirExists(t, Parent(d))
    && (d !in t || (t[s].File? && t[d].File?))
    && !(t[s].Dir? && s <= d)
  }

  /** `t` with the subtree at `s` moved to `d`. */
  function Moved(t: Tree, s: Path, d: Path): Tree {
    var kept := map p | p in t && !(s <= p) && !(d <= p) :: t[p];
    var landed := set p | p in t && s <= p :: d + p[|s|..];
    kept + map q | q in landed && s + q[|d|..] in t :: t[s + q[|d|..]]
  }

  function Removed(t: Tree, d: Path): Tree {
    map p | p in t && !(d <= p) :: t[p]
  }

  /** No existing file is in the way of making `p` a directory. */
  predicate CanMkdirAll(t: Tree, p: Path) {
    forall i | 0 <= i <= |p| :: p[..i] !in t || t[p[..i]].Dir?
  }

  function Prefixes(p: Path): set<Path> {
    set i | 0 <= i <= |p| :: p[..i]
  }

  function WithDirs(t: Tree, p: Path): Tree {
    (map q | q in Prefixes(p) :: Dir) + t
  }

  lemma SuffixOf(d: Path, x: Path)
    ensures d <= d + x && (d + x)[|d|..] == x
  {
  }

  lemma Rejoin(d: Path, q: Path)
    requires d <= q
    ensures d + q[|d|..] == q
  {
  }

  lemma PrefixTransitive(a: Path, b: Path, c: Path)
    requires a <= b <= c
    ensures a <= c
  {
    assert a == b[..|a|] == c[..|b|][..|a|];
  }

  lemma PrefixComparable(a: Path, b: Path, c: Path)
    requires a <= c && b <= c
    ensures if |a| <= |b| then a <= b else b <= a
  {
    assert a == c[..|a|] && b == c[..|b|];
  }

  lemma PrefixAntisymmetric(a: Path, b: Path)
    requires a <= b && b <= a
    ensures a == b
  {
  }

  lemma MovedAt(t: Tree, s: Path, d: Path, q: Path)
    ensures At(Moved(t, s, d), q) ==
            if d <= q then At(t, s + q[|d|..]) else if s <= q then None else At(t, q)
  {
    if d <= q {
      var p := s + q[|d|..];
      SuffixOf(s, q[|d|..]);
      Rejoin(d, q);
      if p in t {
        assert d + p[|s|..] == q;
        assert q in set p | p in t && s <= p :: d + p[|s|..];
      }
    } else {
      forall p | p in t && s <= p && d + p[|s|..] == q ensures false {
        SuffixOf(d, p[|s|..]);
      }
    }
  }

  lemma RemovedAt(t: Tree, d: Path, q: Path)
    ensures At(Removed(t, d), q) == if d <= q then None else At(t, q)
  {
  }

  lemma WithDirsAt(t: Tree, p: Path, q: Path)
    ensures At(WithDirs(t, p), q) == if q in t then At(t, q) else if q <= p then Some(Dir) else None
  {
    if q <= p {
      assert q == p[..|q|];
      assert q in Prefixes(p);
    }
  }

  lemma SameTree(t: Tree, u: Tree)
    requires forall p :: At(t, p) == At(u, p)
    ensures t == u
  {
    forall p | p in t ensures p in u && t[p] == u[p] {
      assert At(t, p) == At(u, p);
    }
    forall p | p in u ensures p in t {
      assert At(t, p) == At(u, p);
    }
  }

  lemma AboveIsDir(t: Tree, p: Path, q: Path)
    requires WellFormed(t) && p <= q && p != q && q in t
    ensures DirExists(t, p)
  {
  }

  lemma MovedWellFormed(t: Tree, s: Path, d: Path)
    requires WellFormed(t) && CanRename(t, s, d)
    ensures WellFormed(Moved(t, s, d))
  {
    var u := Moved(t, s, d);
    MovedAt(t, s, d, []);
    assert DirExists(u, []);
    forall p, q: Path | p <= q && p != q && q in u ensures DirExists(u, p) {
      MovedAt(t, s, d, q);
      MovedAt(t, s, d, p);
      assert At(u, q).Some?;
      if d <= q {
        var q' := s + q[|d|..];
        assert q' in t;
        if d <= p {
          var p' := s + p[|d|..];
          Rejoin(d, q);
          Rejoin(d, p);
          assert p == q[..|p|];
          assert p' == q'[..|s| + |p| - |d|];
          assert p' != q' by { assert |p'| != |q'|; }
          AboveIsDir(t, p', q');
        } else {
          PrefixComparable(d, p, q);
          assert p <= d && p != d;
          assert p <= Parent(d) by { assert p == d[..|p|]; }
          if p != Parent(d) {
            AboveIsDir(t, p, Parent(d));
          }
          if s <= p {
            PrefixTransitive(s, p, d);
            if s != p {
              AboveIsDir(t, s, p);
            }
          }
        }
      } else {
        assert q in t && !(s <= q);
        AboveIsDir(t, p, q);
        if d <= p { PrefixTransitive(d, p, q); }
        if s <= p { PrefixTransitive(s, p, q); }
      }
    }
  }

  lemma RemovedWellFormed(t: Tree, d: Path)
    requires WellFormed(t) && d != []
    ensures WellFormed(Removed(t, d))
  {
    var u := Removed(t, d);
    RemovedAt(t, d, []);
    forall p, q: Path | p <= q && p != q && q in u ensures DirExists(u, p) {
      RemovedAt(t, d, q);
      RemovedAt(t, d, p);
      AboveIsDir(t, p, q);
      if d <= p { PrefixTransitive(d, p, q); }
    }
  }

  lemma WithDirsWellFormed(t: Tree, p: Path)
    requires WellFormed(t) && CanMkdirAll(t, p)
    ensures WellFormed(WithDirs(t, p))
  {
    var u := WithDirs(t, p);
    WithDirsAt(t, p, []);
    forall a, b: Path | a <= b && a != b && b in u ensures DirExists(u, a) {
      WithDirsAt(t, p, a);
      WithDirsAt(t, p, b);
      assert At(u, b).Some?;
      if b in t {
        AboveIsDir(t, a, b);
      } else {
        PrefixTransitive(a, b, p);
        assert a == p[..|a|];
      }
    }
  }
}
