/** The directories of the filesystem store: made for a key before it is written, pruned when a Delete empties them. */
module FsDirs {
  import opened FsStores
  import opened KeyPath

  /** An absolute path by its segments; the empty one is the top of the filesystem, which nothing can remove. */
  type Path = seq<string>

  /** The path of an accepted key. */
  function PathOfKey(root: Path, key: string): Path {
    root + Named(Split(key))
  }

  /** It is the path the store computes for the key. */
  lemma PathOfKeyIsPath(root: Root, key: string)
    requires PathOf(root, key).Some?
    ensures PathOf(root, key).value == "/" + Join(PathOfKey(root, key))
  {
    PathSegments(root, key);
  }

  function Parent(p: Path): Path {
    if p == [] then [] else p[..|p| - 1]
  }

  function Ancestors(p: Path): set<Path> {
    set n: nat | n < |p| :: p[..n]
  }

  predicate Inside(p: Path, d: Path) {
    |d| < |p| && p[..|d|] == d
  }

  /** Every file and every directory lies in a directory, and nothing is both. */
  ghost predicate Housed(files: set<Path>, dirs: set<Path>) {
    [] in dirs && files !! dirs && forall p :: p in files + dirs ==> Ancestors(p) <= dirs
  }

  /** No directory below the root is without a file somewhere below it. */
  ghost predicate Tight(files: set<Path>, dirs: set<Path>, root: Path) {
    forall d :: d in dirs && Inside(d, root) ==> exists p :: p in files && Inside(p, d)
  }

  predicate Occupied(files: set<Path>, dirs: set<Path>, d: Path) {
    exists p :: p in files + dirs && |p| == |d| + 1 && Inside(p, d)
  }

  /** The system removes a directory that is empty, unless it refuses for a reason of its own. */
  predicate Removable(files: set<Path>, dirs: set<Path>, refused: set<Path>, d: Path) {
    d != [] && d in dirs && d !in refused && !Occupied(files, dirs, d)
  }

  /* ---------- Paths ---------- */

  lemma InsideParent(p: Path, d: Path, e: Path)
    requires Inside(p, d) && e <= d
    ensures Inside(p, e)
  {
    assert p[..|e|] == p[..|d|][..|e|];
  }

  lemma AncestorsAre(p: Path, d: Path)
    ensures d in Ancestors(p) <==> Inside(p, d)
  {
    if Inside(p, d) {
      assert d == p[..|d|];
    }
  }

  /** Inside a path's parent chain: a prefix other than the path itself is a prefix of its parent. */
  lemma PrefixOfParent(d: Path, p: Path)
    requires d <= p && d != p
    ensures d <= Parent(p) && |d| < |p|
  {
    assert d == p[..|d|] && p == p[..|p|];
    assert Parent(p)[..|d|] == p[..|d|];
  }

  lemma PrefixOfPrefix(d: Path, p: Path)
    ensures d <= Parent(p) ==> d <= p
  {
    if d <= Parent(p) {
      assert d == Parent(p)[..|d|] == p[..|d|];
    }
  }

  lemma BelowMeansOccupied(files: set<Path>, dirs: set<Path>, d: Path, p: Path)
    requires Housed(files, dirs) && p in files + dirs
    ensures Inside(p, d) ==> Occupied(files, dirs, d)
  {
    if Inside(p, d) {
      var child := p[..|d| + 1];
      assert child[..|d|] == d;
      if |p| > |d| + 1 {
        AncestorsAre(p, child);
        assert child in Ancestors(p);
      } else {
        assert p == p[..|p|] == child;
      }
      assert child in files + dirs && Inside(child, d);
    }
  }

  /* ---------- Pruning ---------- */

  /** What is left when directories are removed from `cur` outwards, up to the root or the first that stays. */
  function Pruned(files: set<Path>, dirs: set<Path>, refused: set<Path>, root: Path, cur: Path): set<Path>
    decreases |cur|
  {
    if cur == root || !Removable(files, dirs, refused, cur) then dirs
    else Pruned(files, dirs - {cur}, refused, root, Parent(cur))
  }

  method Prune(files: set<Path>, dirs: set<Path>, refused: set<Path>, root: Path, start: Path) returns (left: set<Path>)
    ensures left == Pruned(files, dirs, refused, root, start)
  {
    left := dirs;
    var cur := start;
    while cur != root && Removable(files, left, refused, cur)
      invariant Pruned(files, left, refused, root, cur) == Pruned(files, dirs, refused, root, start)
      decreases |cur|
    {
      left := left - {cur};
      cur := Parent(cur);
    }
  }

  /** Removing a directory with nothing in it leaves everything housed. */
  lemma RemovedIsHoused(files: set<Path>, dirs: set<Path>, d: Path)
    requires Housed(files, dirs) && d != [] && !Occupied(files, dirs, d)
    ensures Housed(files, dirs - {d})
  {
    forall p, e | p in files + dirs && e in Ancestors(p)
      ensures e in dirs - {d}
    {
      AncestorsAre(p, e);
      BelowMeansOccupied(files, dirs, d, p);
    }
  }

  /** Pruning never removes a directory that anything needs. */
  lemma {:induction false} PrunedIsHoused(files: set<Path>, dirs: set<Path>, refused: set<Path>, root: Path, cur: Path)
    requires Housed(files, dirs)
    ensures Housed(files, Pruned(files, dirs, refused, root, cur))
    ensures Pruned(files, dirs, refused, root, cur) <= dirs
    decreases |cur|
  {
    if cur != root && Removable(files, dirs, refused, cur) {
      RemovedIsHoused(files, dirs, cur);
      PrunedIsHoused(files, dirs - {cur}, refused, root, Parent(cur));
    }
  }

  /** It removes only directories on the way out, and none outside the root if it starts below it. */
  lemma {:induction false} PrunedOnTheWay(files: set<Path>, dirs: set<Path>, refused: set<Path>, root: Path,
                                          cur: Path, d: Path)
    requires d in dirs && d !in Pruned(files, dirs, refused, root, cur)
    ensures d <= cur && d !in refused && (root <= cur ==> Inside(d, root))
    decreases |cur|
  {
    if d == cur {
      assert root <= cur ==> cur[..|root|] == root;
    } else {
      PrunedOnTheWay(files, dirs - {cur}, refused, root, Parent(cur), d);
      PrefixOfPrefix(d, cur);
    }
    if root <= cur && root != cur {
      PrefixOfParent(root, cur);
    }
  }

  /** Every directory below the root without a file below it is on the way out. */
  ghost predicate TightBut(files: set<Path>, dirs: set<Path>, root: Path, cur: Path) {
    forall d :: d in dirs && Inside(d, root) && !(d <= cur) ==> exists p :: p in files && Inside(p, d)
  }

  /** An occupied directory has a file below it, and so have its parents. */
  lemma OccupiedIsTight(files: set<Path>, dirs: set<Path>, root: Path, cur: Path)
    requires TightBut(files, dirs, root, cur) && root <= cur && Occupied(files, dirs, cur)
    ensures Tight(files, dirs, root)
  {
    var x :| x in files + dirs && |x| == |cur| + 1 && Inside(x, cur);
    var file := x;
    if x !in files {
      InsideParent(x, cur, root);
      file :| file in files && Inside(file, x);
      assert x[..|cur|] == cur;
      InsideParent(file, x, cur);
    }
    forall d | d in dirs && d <= cur
      ensures Inside(file, d)
    {
      InsideParent(file, cur, d);
    }
  }

  /** Unless the system refuses one of them, all that are left without a file are removed. */
  lemma {:induction false} PrunedIsTight(files: set<Path>, dirs: set<Path>, refused: set<Path>, root: Path, cur: Path)
    requires Housed(files, dirs) && TightBut(files, dirs, root, cur) && root <= cur && cur in dirs
    requires forall d :: d in refused ==> !(d <= cur)
    ensures Tight(files, Pruned(files, dirs, refused, root, cur), root)
    decreases |cur|
  {
    if cur == root {
    } else if Occupied(files, dirs, cur) {
      OccupiedIsTight(files, dirs, root, cur);
    } else {
      var up := Parent(cur);
      PrefixOfParent(root, cur);
      RemovedIsHoused(files, dirs, cur);
      AncestorsAre(cur, up);
      forall d | d in dirs - {cur} && d <= cur
        ensures d <= up
      {
        PrefixOfParent(d, cur);
      }
      PrunedIsTight(files, dirs - {cur}, refused, root, up);
    }
  }

  /* ---------- Delete ---------- */

  /** A Delete of this path: a file or an empty directory is removed, and then its parents are pruned. */
  function Deleted(files: set<Path>, dirs: set<Path>, refused: set<Path>, root: Path, path: Path)
    : (set<Path>, set<Path>, Removal)
  {
    if path in files then
      if path in refused then (files, dirs, NotRemoved)
      else (files - {path}, Pruned(files - {path}, dirs, refused, root, Parent(path)), Removed)
    else if path in dirs then
      if !Removable(files, dirs, refused, path) then (files, dirs, NotRemoved)
      else (files, Pruned(files, dirs - {path}, refused, root, Parent(path)), Removed)
    else (files, dirs, Missing)
  }

  /** Only the named file disappears; what else disappears are the path and directories around it; everything left is
      still housed. */
  lemma DeletedIsHoused(files: set<Path>, dirs: set<Path>, refused: set<Path>, root: Path, path: Path)
    requires Housed(files, dirs)
    ensures var (f, d, removal) := Deleted(files, dirs, refused, root, path);
            && Housed(f, d) && f == (if removal == Removed then files - {path} else files)
            && d <= dirs && forall e :: e in dirs - d ==> e <= path
  {
    var (f, d, removal) := Deleted(files, dirs, refused, root, path);
    if path in files && path !in refused {
      FileGone(files, dirs, path);
      PrunedIsHoused(files - {path}, dirs, refused, root, Parent(path));
    } else if path !in files && Removable(files, dirs, refused, path) {
      RemovedIsHoused(files, dirs, path);
      PrunedIsHoused(files, dirs - {path}, refused, root, Parent(path));
    }
    forall e | e in dirs - d
      ensures e <= path
    {
      RemovedWithPath(files, dirs, refused, root, path, e);
    }
  }

  lemma RemovedWithPath(files: set<Path>, dirs: set<Path>, refused: set<Path>, root: Path, path: Path, e: Path)
    requires e in dirs && e !in Deleted(files, dirs, refused, root, path).1
    ensures e == path || (e <= path && (root <= Parent(path) ==> Inside(e, root)))
  {
    if e != path {
      if path in files {
        PrunedOnTheWay(files - {path}, dirs, refused, root, Parent(path), e);
      } else {
        PrunedOnTheWay(files, dirs - {path}, refused, root, Parent(path), e);
      }
      PrefixOfPrefix(e, path);
    }
  }

  lemma FileGone(files: set<Path>, dirs: set<Path>, path: Path)
    requires Housed(files, dirs)
    ensures Housed(files - {path}, dirs)
  {
  }

  /** In a tree without empty directories a Delete leaves none, unless the system refuses to remove one. */
  lemma DeletedIsTight(files: set<Path>, dirs: set<Path>, refused: set<Path>, root: Path, path: Path)
    requires Housed(files, dirs) && Tight(files, dirs, root) && Inside(path, root)
    requires forall d :: d in refused ==> !(d <= path)
    ensures var (f, d, removal) := Deleted(files, dirs, refused, root, path);
            Tight(f, d, root)
  {
    if path in files {
      var up := Parent(path);
      assert path[..|root|] == root;
      PrefixOfParent(root, path);
      AncestorsAre(path, up);
      FileGone(files, dirs, path);
      forall d | d in dirs && Inside(d, root) && !(d <= up)
        ensures exists p :: p in files - {path} && Inside(p, d)
      {
        var p :| p in files && Inside(p, d);
        NotAbove(path, d);
      }
      PrunedIsTight(files - {path}, dirs, refused, root, up);
    } else if path in dirs {
      var p :| p in files && Inside(p, path);
      BelowMeansOccupied(files, dirs, path, p);
    }
  }

  lemma NotAbove(path: Path, d: Path)
    ensures Inside(path, d) ==> d <= Parent(path)
  {
    if Inside(path, d) {
      PrefixOfParent(d, path);
    }
  }

  /** Nothing is ever removed but what lies below the root. */
  ghost predicate StaysBelow(root: Path, path: Path) {
    forall files: set<Path>, dirs: set<Path>, refused: set<Path> :: Housed(files, dirs) ==>
      RemovesBelow(root, dirs, Deleted(files, dirs, refused, root, path).1)
  }

  ghost predicate RemovesBelow(root: Path, dirs: set<Path>, left: set<Path>) {
    forall d :: d in dirs - left ==> Inside(d, root)
  }

  lemma BelowStaysBelow(root: Path, path: Path)
    requires Inside(path, root)
    ensures StaysBelow(root, path)
  {
    assert path[..|root|] == root;
    PrefixOfParent(root, path);
    forall files: set<Path>, dirs: set<Path>, refused: set<Path> | Housed(files, dirs)
      ensures RemovesBelow(root, dirs, Deleted(files, dirs, refused, root, path).1)
    {
      forall d | d in dirs - Deleted(files, dirs, refused, root, path).1
        ensures Inside(d, root)
      {
        RemovedWithPath(files, dirs, refused, root, path, d);
      }
    }
  }

  /** The tree of an empty store with nothing else beside it. */
  function EmptyStore(root: Path): set<Path> {
    Ancestors(root) + {root}
  }

  lemma EmptyStoreIs(root: Path, p: Path)
    ensures p in EmptyStore(root) <==> p <= root
  {
    AncestorsAre(root, p);
    assert Inside(root, p) ==> p <= root;
    if p <= root && |p| == |root| {
      assert p == root[..|p|] == root;
    }
  }

  lemma EmptyStoreIsHoused(root: Path)
    ensures Housed({}, EmptyStore(root))
  {
    EmptyStoreIs(root, []);
    forall p, e | p in EmptyStore(root) && e in Ancestors(p)
      ensures e in EmptyStore(root)
    {
      AncestorsAre(p, e);
      EmptyStoreIs(root, p);
      EmptyStoreIs(root, e);
      PrefixOfParent(e, p);
      PrefixOfPrefix(e, p);
      assert e == p[..|e|] == root[..|e|];
    }
  }

  /** Nothing outside the root stops the removal: every directory around it goes, but for the top. */
  lemma {:induction false} PrunedToTop(dirs: set<Path>, root: Path, cur: Path)
    requires cur < root && forall p :: p in dirs <==> p <= cur
    ensures Pruned({}, dirs, {}, root, cur) == {[]}
    decreases |cur|
  {
    if cur == [] {
      assert dirs == {[]};
    } else {
      var up := Parent(cur);
      assert Removable({}, dirs, {}, cur);
      assert up == root[..|up|];
      forall p
        ensures p in dirs - {cur} <==> p <= up
      {
        PrefixOfPrefix(p, cur);
        if p in dirs - {cur} {
          PrefixOfParent(p, cur);
        }
      }
      PrunedToTop(dirs - {cur}, root, up);
    }
  }

  /** Over an empty store a Delete of the root's own path reports success and removes the root, and then every empty
      directory outside it. */
  lemma RootIsRemoved(root: Path)
    requires root != []
    ensures Housed({}, EmptyStore(root))
    ensures Deleted({}, EmptyStore(root), {}, root, root) == ({}, {[]}, Removed)
    ensures !StaysBelow(root, root)
  {
    var dirs := EmptyStore(root);
    var up := Parent(root);
    EmptyStoreIsHoused(root);
    forall p
      ensures p in dirs <==> p <= root
      ensures p in dirs - {root} <==> p <= up
    {
      EmptyStoreIs(root, p);
      PrefixOfPrefix(p, root);
      if p in dirs - {root} {
        PrefixOfParent(p, root);
      }
    }
    assert Removable({}, dirs, {}, root);
    PrunedToTop(dirs - {root}, root, up);
    assert root in dirs - Deleted({}, dirs, {}, root, root).1;
    assert !RemovesBelow(root, dirs, Deleted({}, dirs, {}, root, root).1);
  }

  /** The exact condition on an accepted key: a Delete removes nothing but below the root if and only if some segment
      of the key names something, or the root is the top of the filesystem. */
  lemma DeleteStaysBelowExactlyWhen(root: Path, key: string)
    ensures StaysBelow(root, PathOfKey(root, key)) <==> Named(Split(key)) != [] || root == []
  {
    var path := PathOfKey(root, key);
    if Named(Split(key)) != [] {
      assert path[..|root|] == root;
      BelowStaysBelow(root, path);
    } else {
      assert path == root;
      if root == [] {
        assert StaysBelow(root, path) by { TopStays(path); }
      } else {
        RootIsRemoved(root);
      }
    }
  }

  lemma TopStays(path: Path)
    requires path == []
    ensures StaysBelow([], path)
  {
  }

  /** A Delete reports success for a key without an object exactly when its path is a directory that can be removed;
      in a tree without empty directories there is none below the root. */
  lemma DeleteSucceedsExactlyWhen(files: set<Path>, dirs: set<Path>, refused: set<Path>, root: Path, path: Path)
    requires Housed(files, dirs) && path !in files
    ensures Deleted(files, dirs, refused, root, path).2 == Removed <==> Removable(files, dirs, refused, path)
    ensures Tight(files, dirs, root) && Inside(path, root) ==> Deleted(files, dirs, refused, root, path).2 != Removed
  {
    if Tight(files, dirs, root) && Inside(path, root) && path in dirs {
      var p :| p in files && Inside(p, path);
      BelowMeansOccupied(files, dirs, path, p);
    }
  }

  /* ---------- The tree as an object ---------- */

  class Tree {
    const root: Path
    var files: set<Path>
    var dirs: set<Path>

    ghost predicate Valid()
      reads this
    {
      Housed(files, dirs)
    }

    constructor (root: Path)
      ensures Valid() && this.root == root && files == {} && dirs == Ancestors(root) + {root} + {[]}
      ensures Tight(files, dirs, root)
    {
      this.root, files, dirs := root, {}, Ancestors(root) + {root} + {[]};
      new;
      RootIsHoused(root);
    }

    /** Makes the directories of a path from the outside in, until a file stands in the way or the system refuses after
        `granted` of them. */
    method MakeParents(key: string, granted: nat) returns (ok: bool)
      requires Valid()
      modifies this`dirs
      ensures Valid() && old(dirs) <= dirs <= old(dirs) + Ancestors(PathOfKey(root, key))
      ensures ok ==> Ancestors(PathOfKey(root, key)) <= dirs
      ensures !ok ==> granted < |PathOfKey(root, key)| || Ancestors(PathOfKey(root, key)) * files != {}
    {
      var path := PathOfKey(root, key);
      for n := 0 to |path|
        invariant Valid() && old(dirs) <= dirs <= old(dirs) + Ancestors(path)
        invariant forall m: nat :: m < n ==> path[..m] in dirs
      {
        AncestorsAre(path, path[..n]);
        if path[..n] in files || n >= granted {
          assert path[..n] in files ==> path[..n] in Ancestors(path) * files;
          return false;
        }
        OneMoreDirectory(files, dirs, path, n);
        dirs := dirs + {path[..n]};
      }
      return true;
    }

    /** The file of a key appears, where its directories are and no directory stands. */
    method Add(key: string) returns (ok: bool)
      requires Valid()
      modifies this`files
      ensures Valid()
      ensures ok <==> Ancestors(PathOfKey(root, key)) <= dirs && PathOfKey(root, key) !in dirs
      ensures files == if ok then old(files) + {PathOfKey(root, key)} else old(files)
    {
      var path := PathOfKey(root, key);
      ok := Ancestors(path) <= dirs && path !in dirs;
      if ok {
        files := files + {path};
      }
    }

    /** Deletes a key and prunes. */
    method Remove(key: string, refused: set<Path>) returns (removal: Removal)
      requires Valid()
      modifies this
      ensures Valid()
      ensures (files, dirs, removal) == Deleted(old(files), old(dirs), refused, root, PathOfKey(root, key))
    {
      var path := PathOfKey(root, key);
      DeletedIsHoused(files, dirs, refused, root, path);
      if path in files {
        if path in refused {
          return NotRemoved;
        }
        files := files - {path};
      } else if path in dirs {
        if !Removable(files, dirs, refused, path) {
          return NotRemoved;
        }
        dirs := dirs - {path};
      } else {
        return Missing;
      }
      dirs := Prune(files, dirs, refused, root, Parent(path));
      return Removed;
    }
  }

  lemma RootIsHoused(root: Path)
    ensures Housed({}, Ancestors(root) + {root} + {[]})
    ensures forall d :: d in Ancestors(root) + {root} + {[]} ==> !Inside(d, root)
  {
    forall p, e | p in Ancestors(root) + {root} + {[]} && e in Ancestors(p)
      ensures e in Ancestors(root)
    {
      AncestorsAre(p, e);
      AncestorsAre(root, p);
      AncestorsAre(root, e);
      if p != root {
        InsideParent(root, p, e) by { assert p[..|e|] == e; }
      }
    }
    forall d | d in Ancestors(root) + {root}
      ensures |d| <= |root|
    {
      AncestorsAre(root, d);
    }
  }

  lemma OneMoreDirectory(files: set<Path>, dirs: set<Path>, path: Path, n: nat)
    requires Housed(files, dirs) && n < |path| && path[..n] !in files
    requires forall m: nat :: m < n ==> path[..m] in dirs
    ensures Housed(files, dirs + {path[..n]})
  {
    forall e | e in Ancestors(path[..n])
      ensures e in dirs
    {
      AncestorsAre(path[..n], e);
      assert path[..n][..|e|] == path[..|e|];
    }
  }

  /** A tree without empty directories below the root has there exactly the directories its files need. */
  lemma TightIsExact(files: set<Path>, dirs: set<Path>, root: Path)
    requires Housed(files, dirs)
    ensures Tight(files, dirs, root)
       <==> forall d :: Inside(d, root) ==> (d in dirs <==> exists p :: p in files && Inside(p, d))
  {
    forall p, d | p in files
      ensures d in Ancestors(p) <==> Inside(p, d)
    {
      AncestorsAre(p, d);
    }
  }
}
