/** Listing of the filesystem store: walk the tree, keep the matching objects, sort, cut to a page. */
module FsListing {
  import opened Objects
  import opened Keys

  datatype Kind = Directory | Regular | Special

  /** What a listing reports of an object. */
  datatype ObjectInfo = ObjectInfo(key: string, size: nat, modified: int, tag: string)

  /** One entry the walk visits, by its path relative to the root. The walk may fail to visit it, and reading its
      metadata or its contents may fail. */
  datatype Entry = Entry(
    key: string, kind: Kind, size: nat, modified: int, tag: string, unvisitable: bool, unreadable: bool)

  /** The final segment of a key. */
  function Name(key: string): (name: string)
    ensures '/' !in name && |name| <= |key| && key[|key| - |name|..] == name
    ensures |name| < |key| ==> key[|key| - |name| - 1] == '/'
  {
    if '/' in key then
      var rest := Name(key[1..]);
      assert key[|key| - |rest|..] == key[1..][|key| - 1 - |rest|..];
      rest
    else key
  }

  predicate Contains(s: string, part: string) {
    part <= s || (s != "" && Contains(s[1..], part))
  }

  /** Temporary files of interrupted writes are not objects. */
  predicate IsTemporary(key: string) {
    Contains(Name(key), ".tmp.")
  }

  predicate Occurs(s: string, part: string, i: nat) {
    i + |part| <= |s| && s[i..i + |part|] == part
  }

  ghost predicate OccursIn(s: string, part: string) {
    exists i: nat :: Occurs(s, part, i)
  }

  lemma {:induction false} ContainsExactlyWhen(s: string, part: string)
    ensures Contains(s, part) <==> OccursIn(s, part)
    decreases |s|
  {
    assert part <= s <==> Occurs(s, part, 0);
    if s != "" {
      ContainsExactlyWhen(s[1..], part);
      forall i: nat
        ensures Occurs(s[1..], part, i) <==> Occurs(s, part, i + 1)
      {
        if i + |part| <= |s[1..]| {
          assert s[1..][i..i + |part|] == s[i + 1..i + 1 + |part|];
        }
      }
      assert forall i: nat :: i > 0 && Occurs(s, part, i) ==> Occurs(s[1..], part, i - 1);
    } else {
      assert forall i: nat :: Occurs(s, part, i) ==> i == 0;
    }
  }

  lemma OccursBehind(s: string, part: string, n: nat, i: nat)
    requires n <= i <= |s|
    ensures s[n..][i - n..] == s[i..]
    ensures Occurs(s[n..], part, i - n) <==> Occurs(s, part, i)
  {
    if i + |part| <= |s| {
      assert s[n..][i - n..i - n + |part|] == s[i..i + |part|];
    }
  }

  lemma SlashBehind(s: string, n: nat, i: nat)
    requires n < |s| && s[n] == '/'
    ensures i <= n ==> '/' in s[i..]
  {
    if i <= n {
      assert s[i..][n - i] == '/';
    }
  }

  predicate TemporaryAt(key: string, i: nat) {
    i < |key| && Occurs(key, ".tmp.", i) && '/' !in key[i..]
  }

  lemma TemporaryMeansBehind(key: string, i: nat)
    requires TemporaryAt(key, i)
    ensures IsTemporary(key)
  {
    var n: nat := |key| - |Name(key)|;
    hide Contains;
    if n > 0 {
      SlashBehind(key, n - 1, i);
    }
    OccursBehind(key, ".tmp.", n, i);
    ContainsExactlyWhen(Name(key), ".tmp.");
    hide Name, Occurs;
  }

  lemma NotInTail(s: string, k: nat)
    requires k <= |s| && '/' !in s
    ensures '/' !in s[k..]
  {
  }

  lemma BehindMeansTemporary(key: string) returns (i: nat)
    requires IsTemporary(key)
    ensures TemporaryAt(key, i)
  {
    var name := Name(key);
    var n: nat := |key| - |name|;
    hide Name, Contains;
    ContainsExactlyWhen(name, ".tmp.");
    var k: nat :| Occurs(name, ".tmp.", k);
    assert k + 5 <= |name|;
    hide Occurs;
    i := n + k;
    OccursBehind(key, ".tmp.", n, i);
    NotInTail(name, k);
  }

  /** A key looks like a temporary file exactly when ".tmp." occurs in it behind its last '/'. */
  lemma TemporaryExactlyWhen(key: string)
    ensures IsTemporary(key) <==> exists i: nat :: TemporaryAt(key, i)
  {
    hide IsTemporary, TemporaryAt;
    if IsTemporary(key) {
      var i := BehindMeansTemporary(key);
    } else {
      forall i: nat
        ensures !TemporaryAt(key, i)
      {
        if TemporaryAt(key, i) {
          TemporaryMeansBehind(key, i);
        }
      }
    }
  }

  /** What an interrupted write leaves behind is never listed. */
  lemma LeftoversAreHidden(key: string, suffix: string)
    requires '/' !in suffix
    ensures IsTemporary(key + ".tmp." + suffix)
  {
    hide IsTemporary;
    var tmp := key + ".tmp." + suffix;
    assert tmp[|key|..] == ".tmp." + suffix;
    assert ".tmp." == tmp[|key|..|key| + 5];
    TemporaryMeansBehind(tmp, |key|);
  }

  predicate IsObject(e: Entry) {
    e.kind == Regular && !IsTemporary(e.key)
  }

  ghost function Stored(walk: seq<Entry>): set<string> {
    set e | e in walk && IsObject(e) :: e.key
  }

  ghost predicate VisitedOnce(walk: seq<Entry>) {
    forall i, j :: 0 <= i < j < |walk| ==> walk[i].key != walk[j].key
  }

  function InfoOf(e: Entry): ObjectInfo {
    ObjectInfo(e.key, e.size, e.modified, e.tag)
  }

  predicate Wanted(e: Entry, prefix: string, startAfter: string) {
    IsObject(e) && prefix <= e.key && (startAfter == "" || Less(startAfter, e.key))
  }

  /** The call fails when the walk does, or when an object it would report cannot be read. */
  ghost predicate Fails(walk: seq<Entry>, prefix: string, startAfter: string) {
    exists e :: e in walk && FailsAt(e, prefix, startAfter)
  }

  predicate FailsAt(e: Entry, prefix: string, startAfter: string) {
    e.unvisitable || (Wanted(e, prefix, startAfter) && e.unreadable)
  }

  function KeysOf(infos: seq<ObjectInfo>): (keys: seq<string>)
    ensures |keys| == |infos| && forall i :: 0 <= i < |infos| ==> keys[i] == infos[i].key
  {
    seq(|infos|, i requires 0 <= i < |infos| => infos[i].key)
  }

  predicate Describes(o: ObjectInfo, e: Entry) {
    !e.unvisitable && !e.unreadable && o.key == e.key && o.size == e.size && o.modified == e.modified && o.tag == e.tag
  }

  ghost predicate IsIn(walk: seq<Entry>, o: ObjectInfo) {
    exists e :: e in walk && Describes(o, e)
  }

  /** Every reported object is an entry of the walk, as it is there, and could be read. The walk visits a key once, so
      for a stored key it is the entry of that object. */
  ghost predicate Reported(walk: seq<Entry>, infos: seq<ObjectInfo>) {
    forall o :: o in infos ==> IsIn(walk, o)
  }

  function Insert(k: string, xs: seq<string>): seq<string> {
    if xs == [] || Less(k, xs[0]) then [k] + xs else [xs[0]] + Insert(k, xs[1..])
  }

  function Sort(xs: seq<string>): seq<string> {
    if xs == [] then [] else Insert(xs[|xs| - 1], Sort(xs[..|xs| - 1]))
  }

  /** Sorting by key moves whole records. */
  function InsertInfo(o: ObjectInfo, xs: seq<ObjectInfo>): seq<ObjectInfo> {
    if xs == [] || Less(o.key, xs[0].key) then [o] + xs else [xs[0]] + InsertInfo(o, xs[1..])
  }

  function SortInfos(xs: seq<ObjectInfo>): seq<ObjectInfo> {
    if xs == [] then [] else InsertInfo(xs[|xs| - 1], SortInfos(xs[..|xs| - 1]))
  }

  lemma {:induction false} InsertInfoKeys(o: ObjectInfo, xs: seq<ObjectInfo>)
    ensures KeysOf(InsertInfo(o, xs)) == Insert(o.key, KeysOf(xs))
    ensures forall x :: x in InsertInfo(o, xs) ==> x == o || x in xs
    decreases |xs|
  {
    if xs == [] || Less(o.key, xs[0].key) {
      assert KeysOf([o] + xs) == [o.key] + KeysOf(xs);
    } else {
      InsertInfoKeys(o, xs[1..]);
      assert KeysOf(xs)[1..] == KeysOf(xs[1..]);
      assert KeysOf([xs[0]] + InsertInfo(o, xs[1..])) == [xs[0].key] + KeysOf(InsertInfo(o, xs[1..]));
    }
  }

  lemma {:induction false} SortInfosKeys(xs: seq<ObjectInfo>)
    ensures KeysOf(SortInfos(xs)) == Sort(KeysOf(xs))
    ensures forall x :: x in SortInfos(xs) ==> x in xs
    decreases |xs|
  {
    if xs != [] {
      var n := |xs| - 1;
      SortInfosKeys(xs[..n]);
      InsertInfoKeys(xs[n], SortInfos(xs[..n]));
      assert KeysOf(xs)[..n] == KeysOf(xs[..n]);
    }
  }

  lemma {:induction false} InsertEnumerates(k: string, xs: seq<string>, s: set<string>)
    requires Enumerates(xs, s) && k !in s
    ensures Enumerates(Insert(k, xs), s + {k})
    decreases |xs|
  {
    if xs == [] {
    } else {
      FirstIsLeast(xs, s);
      if Less(k, xs[0]) {
        forall j | 0 <= j < |xs|
          ensures Less(k, xs[j])
        {
          if j > 0 { LessTransitive(k, xs[0], xs[j]); }
        }
      } else {
        assert xs[0] in s;
        LessTotal(k, xs[0]);
        TailEnumerates(xs, s);
        InsertEnumerates(k, xs[1..], s - {xs[0]});
        var rest := Insert(k, xs[1..]);
        forall j | 0 <= j < |rest|
          ensures Less(xs[0], rest[j])
        {
          assert rest[j] in s - {xs[0]} + {k};
        }
      }
    }
  }

  lemma {:induction false} SortEnumerates(xs: seq<string>, s: set<string>)
    requires forall x :: x in xs <==> x in s
    requires forall i, j :: 0 <= i < j < |xs| ==> xs[i] != xs[j]
    ensures Enumerates(Sort(xs), s)
    decreases |xs|
  {
    if xs != [] {
      var n := |xs| - 1;
      var rest := s - {xs[n]};
      assert xs == xs[..n] + [xs[n]];
      assert forall i :: 0 <= i < n ==> xs[..n][i] == xs[i];
      SortEnumerates(xs[..n], rest);
      assert xs[n] in s;
      InsertEnumerates(xs[n], Sort(xs[..n]), rest);
      assert rest + {xs[n]} == s;
    }
  }

  datatype Verdict = Skip | Take | Fail

  /** The callback of the walk. */
  method Visit(e: Entry, prefix: string, startAfter: string) returns (v: Verdict)
    ensures v.Fail? <==> FailsAt(e, prefix, startAfter)
    ensures v.Take? <==> Wanted(e, prefix, startAfter) && !FailsAt(e, prefix, startAfter)
  {
    if e.unvisitable {
      return Fail;
    }
    if e.kind == Directory || e.kind == Special {
      return Skip;
    }
    if Contains(Name(e.key), ".tmp.") {
      return Skip;
    }
    if !(prefix <= e.key) {
      return Skip;
    }
    LessTotal(startAfter, e.key);
    LessIrreflexive(startAfter);
    if startAfter != "" && (e.key == startAfter || Less(e.key, startAfter)) {
      NotBoth(startAfter, e.key);
      return Skip;
    }
    return if e.unreadable then Fail else Take;
  }

  /** What has been collected after some entries. */
  ghost predicate Collected(walk: seq<Entry>, prefix: string, startAfter: string, out: seq<ObjectInfo>) {
    && (forall k :: k in KeysOf(out) <==> k in Matching(Stored(walk), prefix, startAfter))
    && (forall i, j :: 0 <= i < j < |out| ==> KeysOf(out)[i] != KeysOf(out)[j])
    && Reported(walk, out)
    && !Fails(walk, prefix, startAfter)
  }

  lemma MatchingGrows(walk: seq<Entry>, prefix: string, startAfter: string, n: nat, k: string)
    requires VisitedOnce(walk) && n < |walk|
    ensures k in Matching(Stored(walk[..n + 1]), prefix, startAfter)
       <==> || k in Matching(Stored(walk[..n]), prefix, startAfter)
            || (Wanted(walk[n], prefix, startAfter) && k == walk[n].key)
    ensures walk[n].key !in Matching(Stored(walk[..n]), prefix, startAfter)
  {
    StoredGrow(walk, n);
    hide Stored;
  }

  lemma FailsGrows(walk: seq<Entry>, prefix: string, startAfter: string, n: nat)
    requires n < |walk| && !Fails(walk[..n], prefix, startAfter) && !FailsAt(walk[n], prefix, startAfter)
    ensures !Fails(walk[..n + 1], prefix, startAfter)
  {
    assert walk[..n + 1] == walk[..n] + [walk[n]];
    hide FailsAt;
  }

  lemma ReportedGrows(walk: seq<Entry>, out: seq<ObjectInfo>, n: nat)
    requires n < |walk| && Reported(walk[..n], out)
    ensures Reported(walk[..n + 1], out)
  {
    hide Describes;
    assert walk[..n + 1] == walk[..n] + [walk[n]];
  }

  lemma ReportedMore(walk: seq<Entry>, out: seq<ObjectInfo>, e: Entry)
    requires Reported(walk, out) && e in walk && !e.unvisitable && !e.unreadable
    ensures Reported(walk, out + [InfoOf(e)])
  {
    assert Describes(InfoOf(e), e) && IsIn(walk, InfoOf(e));
    hide IsIn, InfoOf;
  }

  lemma KeysAppend(out: seq<ObjectInfo>, e: Entry)
    requires e.key !in KeysOf(out)
    requires forall i, j :: 0 <= i < j < |out| ==> KeysOf(out)[i] != KeysOf(out)[j]
    ensures var keys := KeysOf(out + [InfoOf(e)]);
            && (forall k :: k in keys <==> k in KeysOf(out) || k == e.key)
            && forall i, j :: 0 <= i < j <= |out| ==> keys[i] != keys[j]
  {
    assert KeysOf(out + [InfoOf(e)]) == KeysOf(out) + [e.key];
    assert forall i :: 0 <= i < |out| ==> KeysOf(out)[i] in KeysOf(out);
    hide KeysOf;
  }

  lemma WantedIsReadable(e: Entry, prefix: string, startAfter: string)
    requires Wanted(e, prefix, startAfter) && !FailsAt(e, prefix, startAfter)
    ensures !e.unvisitable && !e.unreadable
  {
  }

  lemma CollectedGrows(walk: seq<Entry>, prefix: string, startAfter: string, out: seq<ObjectInfo>, n: nat)
    requires VisitedOnce(walk) && n < |walk| && Collected(walk[..n], prefix, startAfter, out)
    requires !FailsAt(walk[n], prefix, startAfter)
    ensures Collected(walk[..n + 1], prefix, startAfter,
                      if Wanted(walk[n], prefix, startAfter) then out + [InfoOf(walk[n])] else out)
  {
    hide KeysOf, Stored, Matching, Wanted, FailsAt, IsObject, Reported, Describes, InfoOf, Fails, VisitedOnce;
    var e := walk[n];
    forall k
      ensures k in Matching(Stored(walk[..n + 1]), prefix, startAfter)
         <==> k in Matching(Stored(walk[..n]), prefix, startAfter) || (Wanted(e, prefix, startAfter) && k == e.key)
      ensures e.key !in Matching(Stored(walk[..n]), prefix, startAfter)
    {
      MatchingGrows(walk, prefix, startAfter, n, k);
    }
    FailsGrows(walk, prefix, startAfter, n);
    ReportedGrows(walk, out, n);
    if Wanted(e, prefix, startAfter) {
      WantedIsReadable(e, prefix, startAfter);
      assert e in walk[..n + 1];
      ReportedMore(walk[..n + 1], out, e);
      KeysAppend(out, e);
    }
  }

  /** One page: the first `limit` objects with the prefix and after `startAfter`, in ascending order, with their
      metadata, unless something cannot be visited or read. */
  method List(walk: seq<Entry>, prefix: string, startAfter: string, limit: nat) returns (page: Option<seq<ObjectInfo>>)
    requires VisitedOnce(walk)
    ensures page.None? <==> Fails(walk, prefix, startAfter)
    ensures page.Some? ==>
      KeysOf(page.value) == Page(Stored(walk), prefix, startAfter, limit) && Reported(walk, page.value)
  {
    var out: seq<ObjectInfo> := [];
    for n := 0 to |walk|
      invariant Collected(walk[..n], prefix, startAfter, out)
    {
      hide Collected, Wanted, FailsAt;
      var v := Visit(walk[n], prefix, startAfter);
      if v.Fail? {
        assert walk[n] in walk;
        return None;
      }
      CollectedGrows(walk, prefix, startAfter, out, n);
      if v.Take? {
        out := out + [InfoOf(walk[n])];
      }
    }
    assert walk[..|walk|] == walk;
    SortIsPage(walk, prefix, startAfter, out, limit);
    out := SortInfos(out);
    if |out| > limit {
      out := out[..limit];
    }
    return Some(out);
  }

  lemma SortIsPage(walk: seq<Entry>, prefix: string, startAfter: string, out: seq<ObjectInfo>, limit: nat)
    requires Collected(walk, prefix, startAfter, out)
    ensures var sorted := SortInfos(out);
            var page := if |sorted| > limit then sorted[..limit] else sorted;
            KeysOf(page) == Page(Stored(walk), prefix, startAfter, limit) && Reported(walk, page)
  {
    hide Sorted, Matching, Stored, Sort, SortInfos, KeysOf, Reported, Fails, Enumerates;
    var matching := Matching(Stored(walk), prefix, startAfter);
    SortEnumerates(KeysOf(out), matching);
    SortedEnumerates(matching);
    EnumerationUnique(Sort(KeysOf(out)), Sorted(matching), matching);
    SortInfosKeys(out);
    var sorted := SortInfos(out);
    ReportedPart(walk, out, sorted);
    if |sorted| > limit {
      KeysOfFirst(sorted, limit);
      ReportedPart(walk, sorted, sorted[..limit]);
    }
  }

  lemma KeysOfFirst(infos: seq<ObjectInfo>, n: nat)
    requires n <= |infos|
    ensures KeysOf(infos[..n]) == KeysOf(infos)[..n]
  {
  }

  lemma ReportedPart(walk: seq<Entry>, all: seq<ObjectInfo>, part: seq<ObjectInfo>)
    requires Reported(walk, all) && forall o :: o in part ==> o in all
    ensures Reported(walk, part)
  {
    hide IsIn;
  }

  lemma NotBoth(a: string, b: string)
    requires a == b || Less(b, a)
    ensures !Less(a, b)
  {
    LessIrreflexive(a);
    if Less(a, b) {
      LessTransitive(a, b, a);
    }
  }

  lemma StoredGrow(walk: seq<Entry>, n: nat)
    requires VisitedOnce(walk) && n < |walk|
    ensures Stored(walk[..n + 1]) == Stored(walk[..n]) + if IsObject(walk[n]) then {walk[n].key} else {}
    ensures walk[n].key !in Stored(walk[..n])
  {
    assert walk[..n + 1] == walk[..n] + [walk[n]];
  }

  /** Paging through an unchanged tree: every object with the prefix, once, ascending, for any page size. It fails
      exactly when some entry cannot be visited or some object with the prefix cannot be read. */
  method ListAll(walk: seq<Entry>, prefix: string, limit: nat) returns (all: Option<seq<ObjectInfo>>)
    requires VisitedOnce(walk) && limit > 0 && "" !in Stored(walk)
    ensures all.Some? ==>
      Enumerates(KeysOf(all.value), set k | k in Stored(walk) && prefix <= k) && Reported(walk, all.value)
    ensures all.None? <==> Fails(walk, prefix, "")
  {
    hide Sorted, Matching, Stored, Reported, Fails, Page, Enumerates, KeysOf;
    var infos: seq<ObjectInfo> := [];
    var startAfter := "";
    ghost var keys := Stored(walk);
    NothingYet(walk, Sorted(Matching(keys, prefix, "")));
    while true
      invariant KeysOf(infos) + Sorted(Matching(keys, prefix, startAfter)) == Sorted(Matching(keys, prefix, ""))
      invariant Reported(walk, infos)
      invariant startAfter == "" || !Fails(walk, prefix, "")
      decreases |Matching(keys, prefix, startAfter)|
    {
      var page := List(walk, prefix, startAfter, limit);
      LaterFailsLess(walk, prefix, startAfter);
      if page.None? {
        return None;
      }
      if page.value == [] {
        LastPage(keys, prefix, startAfter, limit, infos);
        break;
      }
      NextPage(keys, prefix, startAfter, limit, infos, page.value);
      ReportedBoth(walk, infos, page.value);
      infos := infos + page.value;
      startAfter := page.value[|page.value| - 1].key;
    }
    SortedEnumerates(Matching(keys, prefix, ""));
    NoStart(keys, prefix);
    return Some(infos);
  }

  lemma NothingYet(walk: seq<Entry>, all: seq<string>)
    ensures Reported(walk, []) && KeysOf([]) + all == all
  {
  }

  lemma LastPage(keys: set<string>, prefix: string, startAfter: string, limit: nat, infos: seq<ObjectInfo>)
    requires limit > 0 && Page(keys, prefix, startAfter, limit) == KeysOf([])
    requires KeysOf(infos) + Sorted(Matching(keys, prefix, startAfter)) == Sorted(Matching(keys, prefix, ""))
    ensures KeysOf(infos) == Sorted(Matching(keys, prefix, ""))
  {
    hide Sorted, Matching;
    assert Sorted(Matching(keys, prefix, startAfter)) == [];
  }

  /** After a page, the keys behind its last one are what is left, and there are fewer of them. */
  lemma NextPage(keys: set<string>, prefix: string, startAfter: string, limit: nat,
                 infos: seq<ObjectInfo>, page: seq<ObjectInfo>)
    requires "" !in keys && page != [] && KeysOf(page) == Page(keys, prefix, startAfter, limit)
    requires KeysOf(infos) + Sorted(Matching(keys, prefix, startAfter)) == Sorted(Matching(keys, prefix, ""))
    ensures var last := page[|page| - 1].key;
            && KeysOf(infos + page) + Sorted(Matching(keys, prefix, last)) == Sorted(Matching(keys, prefix, ""))
            && |Matching(keys, prefix, last)| < |Matching(keys, prefix, startAfter)|
  {
    hide Sorted, Matching, KeysOf;
    var n := |page|;
    var left := Sorted(Matching(keys, prefix, startAfter));
    AfterLast(keys, prefix, startAfter, n);
    SmallerSet(Matching(keys, prefix, page[n - 1].key), Matching(keys, prefix, startAfter));
    KeysJoin(infos, page);
    assert left == KeysOf(page) + left[n..];
    Regroup(KeysOf(infos), KeysOf(page), left[n..]);
  }

  lemma KeysJoin(a: seq<ObjectInfo>, b: seq<ObjectInfo>)
    ensures KeysOf(a + b) == KeysOf(a) + KeysOf(b)
  {
  }

  lemma Regroup(a: seq<string>, b: seq<string>, c: seq<string>)
    ensures (a + b) + c == a + (b + c)
  {
  }

  lemma ReportedBoth(walk: seq<Entry>, a: seq<ObjectInfo>, b: seq<ObjectInfo>)
    requires Reported(walk, a) && Reported(walk, b)
    ensures Reported(walk, a + b)
  {
    hide IsObject, Describes;
  }

  lemma LaterFailsLess(walk: seq<Entry>, prefix: string, startAfter: string)
    ensures Fails(walk, prefix, startAfter) ==> Fails(walk, prefix, "")
  {
    if Fails(walk, prefix, startAfter) {
      var e :| e in walk && FailsAt(e, prefix, startAfter);
      assert FailsAt(e, prefix, "");
    }
  }

  lemma NoStart(keys: set<string>, prefix: string)
    ensures Matching(keys, prefix, "") == set k | k in keys && prefix <= k
  {
  }

  /** Stored keys are all found by paging exactly when none looks like a temporary file. */
  lemma StoredKeysAreListedExactlyWhen(stored: set<string>, walk: seq<Entry>, limit: nat)
    requires limit > 0 && "" !in stored
    requires forall k :: k in stored <==> exists e :: e in walk && e.kind == Regular && e.key == k
    ensures (forall k :: k in stored ==> k in AllPages(Stored(walk), "", "", limit))
       <==> (forall k :: k in stored ==> !IsTemporary(k))
  {
    forall k | k in Stored(walk)
      ensures k in stored
    {
      var e :| e in walk && IsObject(e) && e.key == k;
    }
    PagingEnumerates(Stored(walk), "", limit);
    forall k | k in stored
      ensures k in Stored(walk) <==> !IsTemporary(k)
    {
      var e :| e in walk && e.kind == Regular && e.key == k;
      assert "" <= k;
    }
  }
}
