/** How the filesystem store maps keys to paths and, when listing, paths back to keys. Separator is '/'. */
module KeyPath {
  import opened Objects
  import opened FsListing
  import opened Keys

  /** Position of the first '/', or the length. */
  function Slash(s: string): (i: nat)
    ensures i <= |s| && (i < |s| ==> s[i] == '/') && forall j :: 0 <= j < i ==> s[j] != '/'
  {
    if s == "" || s[0] == '/' then 0 else 1 + Slash(s[1..])
  }

  /** strings.Split(s, "/"). */
  function Split(s: string): (parts: seq<string>)
    ensures |parts| > 0 && forall p :: p in parts ==> '/' !in p
  {
    var i := Slash(s);
    if i == |s| then [s] else [s[..i]] + Split(s[i + 1..])
  }

  /** strings.Join(parts, "/"). */
  function Join(parts: seq<string>): string {
    if parts == [] then "" else if |parts| == 1 then parts[0] else parts[0] + "/" + Join(parts[1..])
  }

  /** The path without empty and "." segments, each ".." taking one segment back. */
  function Resolve(parts: seq<string>, done: seq<string>): seq<string>
    decreases |parts|
  {
    if parts == [] then done
    else if parts[0] == "" || parts[0] == "." then Resolve(parts[1..], done)
    else if parts[0] == ".." then Resolve(parts[1..], if done == [] then [] else done[..|done| - 1])
    else Resolve(parts[1..], done + [parts[0]])
  }

  /** filepath.Clean of an absolute path. */
  function Clean(path: string): string {
    "/" + Join(Resolve(Split(path), []))
  }

  predicate PlainSegment(p: string) {
    p != "" && p != "." && p != ".." && '/' !in p
  }

  /** A cleaned absolute directory, given by its segments. */
  type Root = segments: seq<string> | forall p :: p in segments ==> PlainSegment(p) witness []

  function RootPath(root: Root): string {
    "/" + Join(root)
  }

  /** The path of a key, unless the key is refused. */
  function PathOf(root: Root, key: string): Option<string> {
    if key == "" || Contains(key, "..") || "" in Split(key) then None
    else Some(Clean(Join([RootPath(root)] + Split(key))))
  }

  /** Nothing is empty between slashes, in front of the first or behind the last. */
  lemma {:induction false} EmptySegmentExactlyWhen(key: string)
    ensures "" in Split(key) <==>
      key == "" || key[0] == '/' || key[|key| - 1] == '/' || OccursIn(key, "//")
    decreases |key|
  {
    var i := Slash(key);
    if i == |key| {
      assert !OccursIn(key, "//") by {
        forall j: nat | Occurs(key, "//", j)
          ensures key[j] == '/'
        {
          assert key[j..j + 2][0] == '/';
        }
      }
    } else {
      var rest := key[i + 1..];
      EmptySegmentExactlyWhen(rest);
      SplitHead(key);
      EmptyBehind(key, i);
      assert key[..i] == "" <==> key[0] == '/';
    }
  }

  lemma EmptyBehind(key: string, i: nat)
    requires i < |key| && key[i] == '/' && forall j :: 0 <= j < i ==> key[j] != '/'
    ensures OccursIn(key, "//") <==> (i + 1 < |key| && key[i + 1] == '/') || OccursIn(key[i + 1..], "//")
  {
    var rest := key[i + 1..];
    forall j: nat
      ensures Occurs(rest, "//", j) <==> Occurs(key, "//", j + i + 1)
    {
      if j + 2 <= |rest| {
        assert rest[j..j + 2] == key[j + i + 1..j + i + 3];
      }
    }
    forall j: nat | Occurs(key, "//", j)
      ensures j >= i && (j == i ==> i + 1 < |key| && key[i + 1] == '/')
    {
      assert key[j..j + 2][0] == key[j] && key[j..j + 2][1] == key[j + 1];
    }
    if i + 1 < |key| && key[i + 1] == '/' {
      assert key[i..i + 2] == "//";
      assert Occurs(key, "//", i);
    }
    if j: nat :| Occurs(rest, "//", j) {
      assert Occurs(key, "//", j + i + 1);
    }
    assert forall j: nat :: Occurs(key, "//", j) && j > i ==> Occurs(rest, "//", j - i - 1);
  }

  /** A key is accepted exactly when it is not empty, neither begins nor ends with '/', and has no "//" and no "..". */
  lemma AcceptedExactlyWhen(root: Root, key: string)
    ensures PathOf(root, key).Some? <==>
      && key != "" && key[0] != '/' && key[|key| - 1] != '/'
      && !OccursIn(key, "//") && !OccursIn(key, "..")
  {
    EmptySegmentExactlyWhen(key);
    ContainsExactlyWhen(key, "..");
    hide Split, Contains, OccursIn;
  }

  /** filepath.Rel of a cleaned path inside the root. */
  function Rel(root: Root, path: string): string {
    if path == RootPath(root) then "."
    else if root == [] then path[Min(1, |path|)..]
    else path[Min(|RootPath(root)| + 1, |path|)..]
  }

  /** Strictly inside the directory. */
  predicate Below(root: Root, path: string) {
    path != RootPath(root) && (if root == [] then "/" else RootPath(root) + "/") <= path
  }

  /** The segments that name something. */
  function Named(parts: seq<string>): (named: seq<string>)
    ensures |named| <= |parts|
    ensures forall p :: p in named ==> p in parts && p != "."
    ensures named == parts <==> "." !in parts
    ensures |named| == |parts| ==> named == parts
  {
    if parts == [] then []
    else if parts[0] == "." then Named(parts[1..])
    else [parts[0]] + Named(parts[1..])
  }

  lemma {:induction false} SplitSegment(p: string, rest: string)
    requires '/' !in p
    ensures Split(p) == [p] && Split(p + "/" + rest) == [p] + Split(rest)
  {
    var s := p + "/" + rest;
    assert s[|p|] == '/';
    assert forall j :: 0 <= j < |p| ==> s[j] == p[j];
    assert Slash(s) == |p|;
    assert s[..|p|] == p && s[|p| + 1..] == rest;
    assert Slash(p) == |p|;
  }

  lemma {:induction false} SplitJoin(parts: seq<string>)
    requires parts != [] && forall p :: p in parts ==> '/' !in p
    ensures Split(Join(parts)) == parts
    decreases |parts|
  {
    hide Split, Slash;
    if |parts| == 1 {
      SplitSegment(parts[0], "");
    } else {
      SplitJoin(parts[1..]);
      SplitSegment(parts[0], Join(parts[1..]));
      assert [parts[0]] + parts[1..] == parts;
    }
  }

  lemma CutAt(s: string, i: nat)
    requires i < |s| && s[i] == '/'
    ensures s == s[..i] + "/" + s[i + 1..]
  {
  }

  lemma JoinHead(head: string, rest: seq<string>)
    requires rest != []
    ensures Join([head] + rest) == head + "/" + Join(rest)
  {
    assert ([head] + rest)[1..] == rest;
  }

  lemma SplitHead(s: string)
    requires Slash(s) < |s|
    ensures Split(s) == [s[..Slash(s)]] + Split(s[Slash(s) + 1..])
  {
    hide Slash;
  }

  lemma {:induction false} JoinSplit(s: string)
    ensures Join(Split(s)) == s
    decreases |s|
  {
    var i := Slash(s);
    hide Slash, Join;
    if i < |s| {
      JoinSplit(s[i + 1..]);
      SplitHead(s);
      CutAt(s, i);
      JoinHead(s[..i], Split(s[i + 1..]));
      hide Split;
    } else {
      JoinOne(s);
    }
  }

  lemma JoinOne(s: string)
    ensures Join([s]) == s
  {
  }

  lemma {:induction false} JoinConcat(a: seq<string>, b: seq<string>)
    requires a != [] && b != []
    ensures Join(a + b) == Join(a) + "/" + Join(b)
    decreases |a|
  {
    hide Join;
    var rest := a[1..];
    assert a == [a[0]] + rest && a + b == [a[0]] + (rest + b);
    JoinHead(a[0], rest + b);
    if rest == [] {
      assert rest + b == b && a == [a[0]];
      JoinOne(a[0]);
    } else {
      JoinConcat(rest, b);
      JoinHead(a[0], rest);
      Associate(a[0] + "/", Join(rest), "/", Join(b));
    }
  }

  lemma {:induction false} ResolvePlain(parts: seq<string>, done: seq<string>)
    requires ".." !in parts && "" !in parts
    ensures Resolve(parts, done) == done + Named(parts)
    decreases |parts|
  {
    if parts != [] {
      ResolvePlain(parts[1..], if parts[0] == "." then done else done + [parts[0]]);
    }
  }

  lemma {:induction false} NoDotDot(key: string)
    requires !Contains(key, "..")
    ensures ".." !in Split(key)
    decreases |key|
  {
    var i := Slash(key);
    if i < |key| {
      ContainsTail(key, "..", i + 1);
      NoDotDot(key[i + 1..]);
    }
    assert key[..i] <= key && key[..|key|] == key;
  }

  lemma {:induction false} ContainsTail(s: string, part: string, i: nat)
    requires i <= |s| && !Contains(s, part)
    ensures !Contains(s[i..], part)
    decreases i
  {
    if i > 0 {
      ContainsTail(s[1..], part, i - 1);
      assert s[1..][i - 1..] == s[i..];
    } else {
      assert s[0..] == s;
    }
  }

  lemma ResolveSkips(rest: seq<string>, done: seq<string>)
    ensures Resolve([""] + rest, done) == Resolve(rest, done)
  {
    assert ([""] + rest)[1..] == rest;
  }

  lemma ResolveTail(root: Root, key: string)
    requires ".." !in Split(key) && "" !in Split(key)
    ensures Resolve(Split(Join(root) + "/" + key), []) == root + Named(Split(key))
  {
    var parts := Split(key);
    if root == [] {
      SplitSegment("", key);
      ResolveSkips(parts, []);
      ResolvePlain(parts, []);
    } else {
      JoinSplit(key);
      JoinConcat(root, parts);
      SplitJoin(root + parts);
      ResolveRoot(root, parts, []);
      assert [] + root == root;
      ResolvePlain(parts, root);
    }
  }

  lemma CleanRooted(tail: string)
    ensures Clean("/" + tail) == "/" + Join(Resolve(Split(tail), []))
  {
    assert "/" + tail == "" + "/" + tail;
    SplitSegment("", tail);
    ResolveSkips(Split(tail), []);
  }

  lemma CleanBelowRoot(root: Root, key: string)
    requires ".." !in Split(key) && "" !in Split(key)
    ensures Clean(RootPath(root) + "/" + key) == "/" + Join(root + Named(Split(key)))
  {
    ResolveTail(root, key);
    CleanRooted(Join(root) + "/" + key);
    Associate("/", Join(root), "/", key);
  }

  /** The path of an accepted key: the root, then the segments of the key that name something. */
  lemma PathSegments(root: Root, key: string)
    requires PathOf(root, key).Some?
    ensures PathOf(root, key).value == "/" + Join(root + Named(Split(key)))
  {
    JoinConcat([RootPath(root)], Split(key));
    JoinSplit(key);
    NoDotDot(key);
    CleanBelowRoot(root, key);
  }

  lemma {:induction false} ResolveRoot(root: seq<string>, parts: seq<string>, done: seq<string>)
    requires forall p :: p in root ==> PlainSegment(p)
    ensures Resolve(root + parts, done) == Resolve(parts, done + root)
    decreases |root|
  {
    if root == [] {
      assert root + parts == parts && done + root == done;
    } else {
      assert (root + parts)[1..] == root[1..] + parts && (root + parts)[0] == root[0];
      assert PlainSegment(root[0]);
      assert done + [root[0]] + root[1..] == done + root;
      ResolveRoot(root[1..], parts, done + [root[0]]);
    }
  }

  lemma UpFromRoot(around: Root, name: string)
    requires PlainSegment(name)
    ensures Resolve(around + [name] + [".."], []) == around
  {
    var root, up := around + [name], [".."];
    ResolveRoot(root, up, []);
    assert [] + root == root && root[..|root| - 1] == around && up[1..] == [];
    assert Resolve(up, root) == Resolve(up[1..], around);
  }

  /** Why ".." is refused: as a segment it would lead out of the root, to the directory around it. */
  lemma DotDotWouldLeave(around: Root, name: string)
    requires PlainSegment(name)
    ensures Clean(Join([RootPath(around + [name])] + [".."])) == RootPath(around)
  {
    hide Resolve, Split, Join, Clean, Slash;
    var root: Root := around + [name];
    JoinConcat([RootPath(root)], [".."]);
    JoinOne(RootPath(root));
    JoinOne("..");
    Associate("/", Join(root), "/", "..");
    CleanRooted(Join(root) + "/" + "..");
    JoinConcat(root, [".."]);
    SplitJoin(root + [".."]);
    UpFromRoot(around, name);
  }

  lemma {:induction false} JoinNonEmpty(parts: seq<string>)
    requires parts != [] && "" !in parts
    ensures Join(parts) != ""
  {
  }

  /** Relative to the root, a path below it is its remaining segments. */
  lemma RelOfPath(root: Root, named: seq<string>)
    requires "" !in named
    ensures var path := "/" + Join(root + named);
            && (Below(root, path) <==> named != [])
            && (named != [] ==> Rel(root, path) == Join(named))
  {
    if named == [] {
      assert root + named == root;
    } else {
      JoinNonEmpty(named);
      if root == [] {
        assert root + named == named;
      } else {
        JoinConcat(root, named);
        assert "/" + Join(root + named) == RootPath(root) + "/" + Join(named);
        assert (RootPath(root) + "/" + Join(named))[|RootPath(root)| + 1..] == Join(named);
      }
    }
  }

  /** Main result: a key that is accepted gets a path strictly below the root from which listing recovers the
      key, if and only if no segment of it is ".". */
  lemma ListingRecoversExactlyWhen(root: Root, key: string)
    requires PathOf(root, key).Some?
    ensures var path := PathOf(root, key).value;
            Below(root, path) && Rel(root, path) == key <==> "." !in Split(key)
  {
    var parts := Split(key);
    var named := Named(parts);
    PathSegments(root, key);
    RelOfPath(root, named);
    JoinSplit(key);
    if named != [] {
      SplitJoin(named);
    }
  }

  /** Distinct keys without "." segments never share a path. */
  lemma PathsAreDistinct(root: Root, k1: string, k2: string)
    requires PathOf(root, k1).Some? && PathOf(root, k2).Some?
    requires "." !in Split(k1) && "." !in Split(k2) && k1 != k2
    ensures PathOf(root, k1) != PathOf(root, k2)
  {
    ListingRecoversExactlyWhen(root, k1);
    ListingRecoversExactlyWhen(root, k2);
  }

  lemma {:induction false} DotsStayInside(a: string, b: string)
    ensures Contains(a + "/" + b, "..") <==> Contains(a, "..") || Contains(b, "..")
    decreases |a|
  {
    var s := a + "/" + b;
    if a == "" {
      assert s[0] == '/' && s[1..] == b;
    } else {
      assert s[1..] == a[1..] + "/" + b;
      DotsStayInside(a[1..], b);
      assert ".." <= s <==> s[0] == '.' && s[1] == '.';
      assert ".." <= a <==> |a| >= 2 && a[0] == '.' && a[1] == '.';
    }
  }

  lemma {:induction false} DotsInSomeSegment(parts: seq<string>)
    ensures Contains(Join(parts), "..") <==> exists p :: p in parts && Contains(p, "..")
    decreases |parts|
  {
    if |parts| > 1 {
      DotsInSomeSegment(parts[1..]);
      DotsStayInside(parts[0], Join(parts[1..]));
      assert forall p :: p in parts <==> p == parts[0] || p in parts[1..];
    }
  }

  lemma NamedKeepsAcceptance(key: string)
    requires !Contains(key, "..")
    ensures !Contains(Join(Named(Split(key))), "..")
  {
    JoinSplit(key);
    DotsInSomeSegment(Split(key));
    DotsInSomeSegment(Named(Split(key)));
  }

  /** Every other accepted key lands on the root itself or on the path of a different accepted key. */
  lemma DottedKeysCollide(root: Root, key: string)
    requires PathOf(root, key).Some? && "." in Split(key)
    ensures var other := Join(Named(Split(key)));
            && other != key
            && (if Named(Split(key)) == [] then PathOf(root, key).value == RootPath(root)
                else PathOf(root, other) == PathOf(root, key))
  {
    var named := Named(Split(key));
    PathSegments(root, key);
    if named == [] {
      assert root + named == root;
    } else {
      SplitJoin(named);
      JoinNonEmpty(named);
      NamedKeepsAcceptance(key);
      PathSegments(root, Join(named));
    }
  }

  /* ---------- What is put is what is listed ---------- */

  /** The regular files a walk meets are the files of the stored keys. */
  ghost predicate WalksOver(root: Root, stored: set<string>, walk: seq<Entry>) {
    && (forall k :: k in stored ==> PathOf(root, k).Some?)
    && (forall k :: k in stored ==> exists e :: e in walk && IsFileOf(root, k, e))
    && (forall e :: e in walk && e.kind == Regular ==> exists k :: k in stored && IsFileOf(root, k, e))
  }

  predicate IsFileOf(root: Root, key: string, e: Entry) {
    e.kind == Regular && PathOf(root, key).Some? && e.key == Rel(root, PathOf(root, key).value)
  }

  lemma WalkMeetsStored(root: Root, stored: set<string>, walk: seq<Entry>)
    requires WalksOver(root, stored, walk) && forall k :: k in stored ==> "." !in Split(k)
    ensures Stored(walk) == set k | k in stored && !IsTemporary(k)
  {
    forall k, e | k in stored && e in walk && IsFileOf(root, k, e)
      ensures e.key == k
    {
      ListingRecoversExactlyWhen(root, k);
    }
    hide PathOf, Rel, Split, IsTemporary;
    forall k | k in stored && !IsTemporary(k)
      ensures k in Stored(walk)
    {
      var e :| e in walk && IsFileOf(root, k, e);
    }
    forall k | k in Stored(walk)
      ensures k in stored && !IsTemporary(k)
    {
      var e :| e in walk && IsObject(e) && e.key == k;
      var other :| other in stored && IsFileOf(root, other, e);
    }
  }

  /** Main result: over an unchanged store of accepted keys without "." segments, paging through the listing
      yields exactly the stored keys with the prefix that do not look like temporary files, each once, in order. */
  lemma PutKeysAreListed(root: Root, stored: set<string>, walk: seq<Entry>, prefix: string, limit: nat)
    requires limit > 0 && WalksOver(root, stored, walk) && forall k :: k in stored ==> "." !in Split(k)
    ensures "" !in Stored(walk)
    ensures Enumerates(AllPages(Stored(walk), prefix, "", limit), set k | k in stored && !IsTemporary(k) && prefix <= k)
  {
    hide WalksOver, PathOf, IsTemporary, Split, Stored, Enumerates, AllPages;
    var visible := set k | k in stored && !IsTemporary(k);
    WalkMeetsStored(root, stored, walk);
    EmptyIsRefused(root, stored, walk);
    PagesOfEqual(Stored(walk), visible, prefix, limit);
    assert (set k | k in visible && prefix <= k) == (set k | k in stored && !IsTemporary(k) && prefix <= k);
  }

  lemma PagesOfEqual(keys: set<string>, same: set<string>, prefix: string, limit: nat)
    requires limit > 0 && "" !in keys && keys == same
    ensures Enumerates(AllPages(keys, prefix, "", limit), set k | k in same && prefix <= k)
  {
    PagingEnumerates(keys, prefix, limit);
  }

  lemma EmptyIsRefused(root: Root, stored: set<string>, walk: seq<Entry>)
    requires WalksOver(root, stored, walk)
    ensures "" !in stored
  {
    assert PathOf(root, "").None?;
  }
}
