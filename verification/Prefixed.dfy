/** Views of a bucket under a key prefix, over an ideal ordered store. */
module Prefixed {
  import opened Objects
  import opened Keys

  /** What lies under a key: the bytes and when they were written. */
  datatype Object = Object(bytes: Bytes, modified: int)

  type Store = map<string, Object>

  /** A call may fail without an effect, or report an error although it took effect. */
  datatype Fault = Works | FailsBefore | FailsAfter

  /** What the backend contributes to a call: its page size, its clock, and whether it fails. */
  datatype Env = Env(limit: nat, now: int, fault: Fault)

  datatype Condition = Any | Absent | Match(current: Bytes)

  /** Calls of the interface; an entity tag is represented by the contents it identifies. */
  datatype Call =
    | Get(key: string)
    | GetRange(key: string, off: int, length: int)
    | Stat(key: string)
    | Put(key: string, body: Bytes, ifMatch: Condition)
    | Delete(key: string)
    | List(prefix: string, startAfter: string)

  datatype Info = Info(key: string, entry: Object)

  datatype Reply =
    | Body(bytes: Bytes) | Metadata(info: Info) | Listing(infos: seq<Info>)
    | Done | NotFound | PreconditionFailed | Broken

  predicate Admits(store: Store, key: string, ifMatch: Condition) {
    match ifMatch
    case Any => true
    case Absent => key !in store
    case Match(current) => key in store && store[key].bytes == current
  }

  ghost function InfosOf(store: Store, keys: seq<string>): seq<Info>
    requires forall k :: k in keys ==> k in store
  {
    seq(|keys|, i requires 0 <= i < |keys| => Info(keys[i], store[keys[i]]))
  }

  lemma PageInStore(store: Store, prefix: string, after: string, limit: nat)
    ensures forall k :: k in Page(store.Keys, prefix, after, limit) ==> k in store
  {
    SortedEnumerates(Matching(store.Keys, prefix, after));
    forall k | k in Page(store.Keys, prefix, after, limit)
      ensures k in store
    {
      assert k in Sorted(Matching(store.Keys, prefix, after));
    }
  }

  ghost function Listed(store: Store, prefix: string, after: string, limit: nat): seq<Info> {
    PageInStore(store, prefix, after, limit);
    InfosOf(store, Page(store.Keys, prefix, after, limit))
  }

  ghost function Effect(store: Store, call: Call, limit: nat, now: int): (Store, Reply) {
    match call
    case Get(key) => (store, if key in store then Body(store[key].bytes) else NotFound)
    case GetRange(key, off, length) =>
      (store, if key in store then Body(Slice(store[key].bytes, off, length)) else NotFound)
    case Stat(key) => (store, if key in store then Metadata(Info(key, store[key])) else NotFound)
    case Put(key, body, ifMatch) =>
      if Admits(store, key, ifMatch) then (store[key := Object(body, now)], Done) else (store, PreconditionFailed)
    case Delete(key) => if key in store then (store - {key}, Done) else (store, NotFound)
    case List(prefix, startAfter) => (store, Listing(Listed(store, prefix, startAfter, limit)))
  }

  /** The plain key-to-bytes store every bucket is meant to be; pages hold at most `limit` keys. */
  ghost function Ideal(store: Store, call: Call, env: Env): (Store, Reply) {
    match env.fault
    case Works => Effect(store, call, env.limit, env.now)
    case FailsBefore => (store, Broken)
    case FailsAfter => (Effect(store, call, env.limit, env.now).0, Broken)
  }

  /** A base store, a wrapper that delegates every call (healing, metering), or a prefixed view. */
  datatype Bucket = Base | Wrapper(inner: Bucket) | View(inner: Bucket, prefix: string)

  predicate EndsWithSlash(p: string) {
    p != "" && p[|p| - 1] == '/'
  }

  function Normalized(p: string): string {
    if EndsWithSlash(p) then p else p + "/"
  }

  /** The constructor: no view for an empty prefix, and one view instead of two directly nested ones. */
  function Make(inner: Bucket, prefix: string): Bucket {
    if prefix == "" then inner
    else if inner.View? then View(inner.inner, inner.prefix + Normalized(prefix))
    else View(inner, Normalized(prefix))
  }

  function TrimPrefix(s: string, p: string): string {
    if p <= s then s[|p|..] else s
  }

  /** The call a view passes on. */
  function Inward(p: string, call: Call): Call {
    match call
    case Get(key) => Get(p + key)
    case GetRange(key, off, length) => GetRange(p + key, off, length)
    case Stat(key) => Stat(p + key)
    case Put(key, body, ifMatch) => Put(p + key, body, ifMatch)
    case Delete(key) => Delete(p + key)
    case List(prefix, startAfter) => List(p + prefix, if startAfter == "" then startAfter else p + startAfter)
  }

  function Stripped(p: string, infos: seq<Info>): (out: seq<Info>)
    ensures |out| == |infos|
  {
    seq(|infos|, i requires 0 <= i < |infos| => infos[i].(key := TrimPrefix(infos[i].key, p)))
  }

  /** The loop of List that rewrites the keys of a page in place. */
  method StripInPlace(p: string, infos: array<Info>)
    modifies infos
    ensures infos[..] == Stripped(p, old(infos[..]))
  {
    for i := 0 to infos.Length
      invariant forall k :: 0 <= k < i ==> infos[k] == old(infos[k]).(key := TrimPrefix(old(infos[k]).key, p))
      invariant forall k :: i <= k < infos.Length ==> infos[k] == old(infos[k])
    {
      infos[i] := infos[i].(key := TrimPrefix(infos[i].key, p));
    }
  }

  /** What a view makes of the reply. */
  function Outward(p: string, reply: Reply): Reply {
    match reply
    case Metadata(info) => Metadata(info.(key := TrimPrefix(info.key, p)))
    case Listing(infos) => Listing(Stripped(p, infos))
    case _ => reply
  }

  ghost function Exec(b: Bucket, store: Store, call: Call, env: Env): (Store, Reply) {
    match b
    case Base => Ideal(store, call, env)
    case Wrapper(inner) => Exec(inner, store, call, env)
    case View(inner, p) =>
      var (after, reply) := Exec(inner, store, Inward(p, call), env);
      (after, Outward(p, reply))
  }

  function Combined(b: Bucket): string {
    match b
    case Base => ""
    case Wrapper(inner) => Combined(inner)
    case View(inner, p) => Combined(inner) + p
  }

  /* ---------- The store of keys under a prefix ---------- */

  function Tails(keys: set<string>, p: string): set<string> {
    set k | k in keys && p <= k :: k[|p|..]
  }

  /** The keys under `p`, with it stripped. */
  ghost function Under(store: Store, p: string): Store {
    TailsBack(store.Keys, p);
    map t | t in Tails(store.Keys, p) :: store[p + t]
  }

  lemma TailsBack(keys: set<string>, p: string)
    ensures forall t :: t in Tails(keys, p) <==> p + t in keys
  {
    forall t | t in Tails(keys, p)
      ensures p + t in keys
    {
      var k :| k in keys && p <= k && t == k[|p|..];
      assert k == p + t;
    }
    forall t | p + t in keys
      ensures t in Tails(keys, p)
    {
      assert (p + t)[|p|..] == t;
    }
  }

  lemma UnderLookup(store: Store, p: string)
    ensures forall t :: t in Under(store, p) <==> p + t in store
    ensures forall t :: t in Under(store, p) ==> Under(store, p)[t] == store[p + t]
  {
    TailsBack(store.Keys, p);
  }

  lemma UnderUnder(store: Store, p: string, q: string)
    ensures Under(Under(store, p), q) == Under(store, p + q)
  {
    UnderLookup(store, p);
    UnderLookup(Under(store, p), q);
    UnderLookup(store, p + q);
    var inner, outer := Under(Under(store, p), q), Under(store, p + q);
    hide Under;
    forall t: string
      ensures (t in inner <==> t in outer) && (t in inner ==> inner[t] == outer[t])
    {
      PrefixesJoin(p, q, t);
    }
    assert inner == outer;
  }

  lemma PrefixesJoin(p: string, q: string, t: string)
    ensures p + (q + t) == (p + q) + t
  {
  }

  ghost predicate SameOutside(a: Store, b: Store, p: string) {
    forall k :: !(p <= k) ==> (k in a <==> k in b) && (k in a ==> a[k] == b[k])
  }

  function Prepended(p: string, xs: seq<string>): (ys: seq<string>)
    ensures |ys| == |xs|
  {
    seq(|xs|, i requires 0 <= i < |xs| => p + xs[i])
  }

  /** The matching keys of the inner listing are the matching keys of the view behind the prefix. */
  lemma MatchingUnder(keys: set<string>, p: string, prefix: string, after: string, k: string)
    ensures k in Matching(keys, p + prefix, if after == "" then "" else p + after)
       <==> p <= k && k[|p|..] in Matching(Tails(keys, p), prefix, after)
  {
    TailsBack(keys, p);
    if p <= k {
      var t := k[|p|..];
      assert k == p + t;
      LessPrefixed(p, after, t);
      assert p + prefix <= p + t <==> prefix <= t;
      assert p + after != "" || after == "";
    } else {
      assert !(p + prefix <= k);
    }
  }

  lemma PrependedEnumerates(p: string, xs: seq<string>, s: set<string>, image: set<string>)
    requires Enumerates(xs, s)
    requires forall k :: k in image <==> p <= k && k[|p|..] in s
    ensures Enumerates(Prepended(p, xs), image)
  {
    var ys := Prepended(p, xs);
    forall i, j | 0 <= i < j < |ys|
      ensures Less(ys[i], ys[j])
    {
      LessPrefixed(p, xs[i], xs[j]);
    }
    forall k | k in image
      ensures k in ys
    {
      var i :| 0 <= i < |xs| && xs[i] == k[|p|..];
      assert ys[i] == k;
    }
    forall k | k in ys
      ensures k in image
    {
      var i :| 0 <= i < |ys| && ys[i] == k;
      assert xs[i] in s && (p + xs[i])[|p|..] == xs[i];
    }
  }

  /** A page of the inner store under the rewritten call is the view's page behind the prefix. */
  lemma PageUnder(keys: set<string>, p: string, prefix: string, after: string, limit: nat)
    ensures Page(keys, p + prefix, if after == "" then "" else p + after, limit)
         == Prepended(p, Page(Tails(keys, p), prefix, after, limit))
  {
    var inner := Matching(keys, p + prefix, if after == "" then "" else p + after);
    var m := Matching(Tails(keys, p), prefix, after);
    forall k
      ensures k in inner <==> p <= k && k[|p|..] in m
    {
      MatchingUnder(keys, p, prefix, after, k);
    }
    hide Matching, Tails, Sorted, Enumerates, Prepended, Take;
    SortedEnumerates(m);
    SortedEnumerates(inner);
    PrependedEnumerates(p, Sorted(m), m, inner);
    EnumerationUnique(Prepended(p, Sorted(m)), Sorted(inner), inner);
    TakePrepended(p, Sorted(m), limit);
  }

  lemma TakePrepended(p: string, xs: seq<string>, n: nat)
    ensures Take(Prepended(p, xs), n) == Prepended(p, Take(xs, n))
  {
  }

  lemma ListedUnder(store: Store, p: string, prefix: string, after: string, limit: nat)
    ensures Listed(Under(store, p), prefix, after, limit)
         == Stripped(p, Listed(store, p + prefix, if after == "" then "" else p + after, limit))
  {
    var inner := if after == "" then "" else p + after;
    var keys := Page(Under(store, p).Keys, prefix, after, limit);
    UnderLookup(store, p);
    assert Under(store, p).Keys == Tails(store.Keys, p);
    PageUnder(store.Keys, p, prefix, after, limit);
    PageInStore(store, p + prefix, inner, limit);
    PageInStore(Under(store, p), prefix, after, limit);
    hide Page, Under, Tails, InfosOf, Stripped, Prepended;
    OneViewInfos(store, p, keys, Page(store.Keys, p + prefix, inner, limit));
  }

  lemma OneViewInfos(store: Store, p: string, keys: seq<string>, inner: seq<string>)
    requires inner == Prepended(p, keys)
    requires forall k :: k in keys ==> k in Under(store, p)
    requires forall k :: k in inner ==> k in store
    ensures InfosOf(Under(store, p), keys) == Stripped(p, InfosOf(store, inner))
  {
    hide Under, Prepended, InfosOf, Stripped;
    InfosUnder(store, p, keys);
  }

  lemma InfosUnder(store: Store, p: string, keys: seq<string>)
    requires forall k :: k in keys ==> k in Under(store, p)
    requires forall k :: k in Prepended(p, keys) ==> k in store
    ensures InfosOf(Under(store, p), keys) == Stripped(p, InfosOf(store, Prepended(p, keys)))
  {
    UnderLookup(store, p);
    forall i | 0 <= i < |keys|
      ensures InfosOf(Under(store, p), keys)[i] == Stripped(p, InfosOf(store, Prepended(p, keys)))[i]
    {
      assert TrimPrefix(p + keys[i], p) == keys[i];
      assert keys[i] in keys;
    }
  }

  lemma UnderPut(store: Store, p: string, key: string, entry: Object)
    ensures Under(store[p + key := entry], p) == Under(store, p)[key := entry]
  {
    UnderLookup(store, p);
    UnderLookup(store[p + key := entry], p);
    PrefixInjective(p, key);
  }

  lemma UnderDelete(store: Store, p: string, key: string)
    ensures Under(store - {p + key}, p) == Under(store, p) - {key}
  {
    UnderLookup(store, p);
    UnderLookup(store - {p + key}, p);
    PrefixInjective(p, key);
  }

  lemma OneViewEffect(store: Store, p: string, call: Call, limit: nat, now: int)
    ensures var (after, reply) := Effect(store, Inward(p, call), limit, now);
            && Effect(Under(store, p), call, limit, now) == (Under(after, p), Outward(p, reply))
            && SameOutside(store, after, p)
  {
    UnderLookup(store, p);
    hide Under, Page, Listed, Stripped;
    match call
    case List(prefix, startAfter) =>
      ListedUnder(store, p, prefix, startAfter, limit);
    case Stat(key) =>
      assert TrimPrefix(p + key, p) == key;
      hide TrimPrefix;
    case Put(key, body, _) =>
      PrefixInjective(p, key);
      UnderPut(store, p, key, Object(body, now));
    case Delete(key) =>
      PrefixInjective(p, key);
      UnderDelete(store, p, key);
    case Get(_) =>
    case GetRange(_, _, _) =>
      hide Slice;
  }

  /** One view over an ideal store. */
  lemma OneView(store: Store, p: string, call: Call, env: Env)
    ensures var (after, reply) := Ideal(store, Inward(p, call), env);
            && Ideal(Under(store, p), call, env) == (Under(after, p), Outward(p, reply))
            && SameOutside(store, after, p)
  {
    hide Effect, Under, Inward;
    OneViewEffect(store, p, call, env.limit, env.now);
  }

  lemma PrefixInjective(p: string, key: string)
    ensures forall t :: p + t == p + key ==> t == key
    ensures p <= p + key
  {
    forall t | p + t == p + key
      ensures t == key
    {
      assert (p + t)[|p|..] == t && (p + key)[|p|..] == key;
    }
  }

  /** Main result: any stack of views and wrappers behaves as the plain store of the keys under the combined
      prefix, with it stripped, replies and pages included, and touches no other key. */
  lemma {:induction false} StackIsStoreUnderPrefix(b: Bucket, store: Store, call: Call, env: Env)
    ensures var (after, reply) := Exec(b, store, call, env);
            && Ideal(Under(store, Combined(b)), call, env) == (Under(after, Combined(b)), reply)
            && SameOutside(store, after, Combined(b))
    decreases b
  {
    hide Ideal, Under, SameOutside, Inward, Outward;
    match b
    case Base =>
      var after := Ideal(store, call, env).0;
      UnderNothing(store);
      UnderNothing(after);
      OutsideNothing(store, after);
    case Wrapper(inner) =>
      StackIsStoreUnderPrefix(inner, store, call, env);
    case View(inner, p) =>
      var q := Combined(inner);
      var (after, reply) := Exec(inner, store, Inward(p, call), env);
      StackIsStoreUnderPrefix(inner, store, Inward(p, call), env);
      OneView(Under(store, q), p, call, env);
      UnderUnder(store, q, p);
      UnderUnder(after, q, p);
      OutsideDeeper(store, after, q, p);
  }

  lemma OutsideNothing(a: Store, b: Store)
    ensures SameOutside(a, b, "")
  {
  }

  lemma UnderNothing(store: Store)
    ensures Under(store, "") == store
  {
    UnderLookup(store, "");
    assert forall t: string :: "" + t == t;
  }

  lemma TailPrefix(q: string, p: string, k: string)
    requires q <= k
    ensures q + p <= k <==> p <= k[|q|..]
    ensures k == q + k[|q|..]
  {
  }

  lemma OutsideDeeper(a: Store, b: Store, q: string, p: string)
    requires SameOutside(a, b, q) && SameOutside(Under(a, q), Under(b, q), p)
    ensures SameOutside(a, b, q + p)
  {
    UnderLookup(a, q);
    UnderLookup(b, q);
    hide Under;
    forall k | !(q + p <= k)
      ensures (k in a <==> k in b) && (k in a ==> a[k] == b[k])
    {
      if q <= k {
        TailPrefix(q, p, k);
      }
    }
  }

  /* ---------- Isolation ---------- */

  predicate Comparable(p: string, q: string) {
    p <= q || q <= p
  }

  /** No call through `b` can be noticed under `q`. */
  ghost predicate NeverAffects(b: Bucket, q: string) {
    forall store: Store, call: Call, env: Env :: Under(Exec(b, store, call, env).0, q) == Under(store, q)
  }

  /** A stored byte under comparable prefixes is seen by both views. */
  lemma ComparableIsSeen(b: Bucket, q: string)
    requires Comparable(Combined(b), q)
    ensures !NeverAffects(b, q)
  {
    var p := Combined(b);
    var key := if p <= q then q[|p|..] else "";
    var t := if p <= q then "" else p[|q|..];
    assert p + key == q + t;
    var call, env := Put(key, [0], Any), Env(0, 0, Works);
    var after := Exec(b, map[], call, env).0;
    StackIsStoreUnderPrefix(b, map[], call, env);
    PutIsSeen(p, q, key, t, after);
    hide NeverAffects, Exec, Under, Ideal;
    UnseenAt(b, q, map[], call, env);
  }

  lemma PutIsSeen(p: string, q: string, key: string, t: string, after: Store)
    requires p + key == q + t
    requires Under(after, p) == Ideal(Under(map[], p), Put(key, [0], Any), Env(0, 0, Works)).0
    ensures Under(after, q) != Under(map[], q)
  {
    UnderLookup(map[], p);
    UnderLookup(map[], q);
    UnderLookup(after, p);
    UnderLookup(after, q);
    hide Under;
    assert key in Under(after, p);
    assert t in Under(after, q) && t !in Under(map[], q);
  }

  lemma UnseenAt(b: Bucket, q: string, store: Store, call: Call, env: Env)
    ensures NeverAffects(b, q) ==> Under(Exec(b, store, call, env).0, q) == Under(store, q)
  {
    hide Under, Exec;
  }

  lemma IncomparableIsUnseen(b: Bucket, q: string)
    requires !Comparable(Combined(b), q)
    ensures NeverAffects(b, q)
  {
    hide Under, Exec, Ideal;
    forall store: Store, call: Call, env: Env
      ensures Under(Exec(b, store, call, env).0, q) == Under(store, q)
    {
      StackIsStoreUnderPrefix(b, store, call, env);
      OutsideIsUnseen(store, Exec(b, store, call, env).0, Combined(b), q);
    }
  }

  /** Two views are isolated exactly when neither combined prefix is a prefix of the other. */
  lemma IsolatedExactlyWhen(b: Bucket, q: string)
    ensures NeverAffects(b, q) <==> !Comparable(Combined(b), q)
  {
    hide NeverAffects, Comparable;
    if Comparable(Combined(b), q) {
      ComparableIsSeen(b, q);
    } else {
      IncomparableIsUnseen(b, q);
    }
  }

  lemma CommonExtension(p: string, q: string, t: string)
    ensures p <= q + t ==> Comparable(p, q)
  {
    var n := Min(|p|, |q|);
    assert (q + t)[..n] == q[..n];
    assert p <= q + t ==> p[..n] == (q + t)[..n];
  }

  lemma OutsideIsUnseen(a: Store, b: Store, p: string, q: string)
    requires SameOutside(a, b, p) && !Comparable(p, q)
    ensures Under(a, q) == Under(b, q)
  {
    UnderLookup(a, q);
    UnderLookup(b, q);
    hide Under;
    forall t: string
      ensures !(p <= q + t)
    {
      CommonExtension(p, q, t);
    }
  }

  /* ---------- Two views used in turn ---------- */

  datatype Turn = Ours(call: Call, env: Env) | Theirs(call: Call, env: Env)

  function OurTurns(turns: seq<Turn>): seq<Turn> {
    if turns == [] then []
    else (if turns[0].Ours? then [turns[0]] else []) + OurTurns(turns[1..])
  }

  /** The replies to our calls when two users take turns on one base store. */
  ghost function OurReplies(ours: Bucket, theirs: Bucket, store: Store, turns: seq<Turn>): seq<Reply>
    decreases |turns|
  {
    if turns == [] then []
    else
      var (after, reply) := Exec(if turns[0].Ours? then ours else theirs, store, turns[0].call, turns[0].env);
      (if turns[0].Ours? then [reply] else []) + OurReplies(ours, theirs, after, turns[1..])
  }

  /** The replies of a plain store that nobody else uses. */
  ghost function PlainReplies(store: Store, turns: seq<Turn>): seq<Reply>
    decreases |turns|
  {
    if turns == [] then []
    else
      var (after, reply) := Ideal(store, turns[0].call, turns[0].env);
      [reply] + PlainReplies(after, turns[1..])
  }

  /** Main result: beside a view with an incomparable prefix, a view answers every sequence of calls exactly as
      a plain store of its own, whatever the other user does in between. */
  lemma {:induction false} TurnsDoNotInterfere(ours: Bucket, theirs: Bucket, store: Store, turns: seq<Turn>)
    requires !Comparable(Combined(ours), Combined(theirs))
    ensures OurReplies(ours, theirs, store, turns) == PlainReplies(Under(store, Combined(ours)), OurTurns(turns))
    decreases |turns|
  {
    hide Exec, Ideal, Under, Comparable;
    if turns != [] {
      var call, env := turns[0].call, turns[0].env;
      if turns[0].Ours? {
        StackIsStoreUnderPrefix(ours, store, call, env);
        TurnsDoNotInterfere(ours, theirs, Exec(ours, store, call, env).0, turns[1..]);
        assert OurTurns(turns) == [turns[0]] + OurTurns(turns[1..]);
        assert OurTurns(turns)[1..] == OurTurns(turns[1..]);
      } else {
        TheirsIsUnseen(ours, theirs, store, call, env);
        TurnsDoNotInterfere(ours, theirs, Exec(theirs, store, call, env).0, turns[1..]);
        assert OurTurns(turns) == OurTurns(turns[1..]);
      }
    }
  }

  lemma TheirsIsUnseen(ours: Bucket, theirs: Bucket, store: Store, call: Call, env: Env)
    requires !Comparable(Combined(ours), Combined(theirs))
    ensures Under(Exec(theirs, store, call, env).0, Combined(ours)) == Under(store, Combined(ours))
  {
    hide Exec, Under;
    IncomparableIsUnseen(theirs, Combined(ours));
  }

  /** Wrapping always adds the normalised prefix, whether or not views were merged. */
  lemma MakeAddsPrefix(inner: Bucket, prefix: string)
    ensures Combined(Make(inner, prefix)) == Combined(inner) + if prefix == "" then "" else Normalized(prefix)
  {
    if prefix != "" && inner.View? {
      assert Combined(inner.inner) + (inner.prefix + Normalized(prefix)) == Combined(inner) + Normalized(prefix);
    }
  }

  /** Views for different names over one bucket are isolated, although one name may begin with the other. */
  lemma NamesAreIsolated(inner: Bucket, p: string, q: string)
    requires p != q && p != "" && q != "" && '/' !in p && '/' !in q
    ensures NeverAffects(Make(inner, p), Combined(Make(inner, q)))
  {
    var c := Combined(inner);
    MakeAddsPrefix(inner, p);
    MakeAddsPrefix(inner, q);
    assert Normalized(p) == p + "/" && Normalized(q) == q + "/";
    SlashSeparates(p, q);
    SlashSeparates(q, p);
    SamePrefix(c, p + "/", q + "/");
    SamePrefix(c, q + "/", p + "/");
    IsolatedExactlyWhen(Make(inner, p), Combined(Make(inner, q)));
  }

  lemma SamePrefix(c: string, x: string, y: string)
    ensures c + x <= c + y <==> x <= y
  {
    TailPrefix(c, x, c + y);
    assert (c + y)[|c|..] == y;
  }

  lemma SlashSeparates(p: string, q: string)
    requires '/' !in p && '/' !in q
    ensures p + "/" <= q + "/" ==> p == q
  {
    assert p + "/" <= q + "/" ==> (q + "/")[|p|] == (p + "/")[|p|] == '/';
    assert forall i :: 0 <= i < |q| ==> (q + "/")[i] == q[i] && q[i] in q;
    assert (q + "/")[..|q|] == q;
    assert (p + "/")[..|p|] == p;
  }

  /** A trailing slash makes no difference. */
  lemma TrailingSlashIsNormalised(inner: Bucket, prefix: string)
    requires prefix != "" && !EndsWithSlash(prefix)
    ensures Make(inner, prefix) == Make(inner, prefix + "/")
  {
  }

  /** No view lies directly in another one. */
  predicate Flat(b: Bucket) {
    match b
    case Base => true
    case Wrapper(inner) => Flat(inner)
    case View(inner, _) => !inner.View? && Flat(inner)
  }

  lemma MakeStaysFlat(inner: Bucket, prefix: string)
    requires Flat(inner)
    ensures Flat(Make(inner, prefix))
  {
  }

  /* ---------- The interface, through any stack ---------- */

  ghost function Answer(b: Bucket, store: Store, call: Call): Reply {
    Exec(b, store, call, Env(0, 0, Works)).1
  }

  /** What a Get answers decides whether a conditional Put succeeds. */
  predicate Meets(ifMatch: Condition, got: Reply) {
    match ifMatch
    case Any => true
    case Absent => got == NotFound
    case Match(current) => got == Body(current)
  }

  /** What reads of a key answer when it holds this object, or nothing. */
  ghost predicate Reads(b: Bucket, store: Store, key: string, entry: Option<Object>) {
    && Answer(b, store, Get(key)) == (if entry.Some? then Body(entry.value.bytes) else NotFound)
    && Answer(b, store, Stat(key)) == (if entry.Some? then Metadata(Info(key, entry.value)) else NotFound)
    && forall off, length :: Answer(b, store, GetRange(key, off, length))
         == if entry.Some? then Body(Slice(entry.value.bytes, off, length)) else NotFound
  }

  lemma ReadsUnder(b: Bucket, store: Store, key: string)
    ensures var under := Under(store, Combined(b));
            Reads(b, store, key, if key in under then Some(under[key]) else None)
  {
    var env := Env(0, 0, Works);
    StackIsStoreUnderPrefix(b, store, Get(key), env);
    StackIsStoreUnderPrefix(b, store, Stat(key), env);
    forall off, length
      ensures Answer(b, store, GetRange(key, off, length))
           == Ideal(Under(store, Combined(b)), GetRange(key, off, length), env).1
    {
      StackIsStoreUnderPrefix(b, store, GetRange(key, off, length), env);
    }
    hide Exec, Under, Slice;
  }

  lemma GetsEntry(b: Bucket, store: Store, key: string, entry: Option<Object>)
    requires Reads(b, store, key, entry)
    ensures Answer(b, store, Get(key)) == if entry.Some? then Body(entry.value.bytes) else NotFound
  {
    hide Answer;
  }

  /** Main result: through any stack, a Put succeeds exactly when its condition meets what a Get answered before; then
      every read of the key answers with the body, and else nothing changes; reads of other keys never change. */
  lemma PutThenRead(b: Bucket, store: Store, key: string, body: Bytes, ifMatch: Condition, env: Env, other: string)
    requires env.fault.Works? && other != key
    ensures var (after, reply) := Exec(b, store, Put(key, body, ifMatch), env);
            && reply in {Done, PreconditionFailed}
            && (reply == Done <==> Meets(ifMatch, Answer(b, store, Get(key))))
            && (reply == Done ==> Reads(b, after, key, Some(Object(body, env.now))))
            && (reply == PreconditionFailed ==> Under(after, Combined(b)) == Under(store, Combined(b)))
            && exists entry :: Reads(b, store, other, entry) && Reads(b, after, other, entry)
  {
    var (after, reply) := Exec(b, store, Put(key, body, ifMatch), env);
    var before, now := Under(store, Combined(b)), Under(after, Combined(b));
    StackIsStoreUnderPrefix(b, store, Put(key, body, ifMatch), env);
    ReadsUnder(b, store, key);
    ReadsUnder(b, after, key);
    ReadsUnder(b, store, other);
    ReadsUnder(b, after, other);
    GetsEntry(b, store, key, if key in before then Some(before[key]) else None);
    hide Exec, Under, Reads, Answer, Slice;
    assert (other in now <==> other in before) && (other in now ==> now[other] == before[other]);
  }

  /** A Delete succeeds exactly when a Get found the key; then no read finds it, and reads of other keys do not
      change. */
  lemma DeleteThenRead(b: Bucket, store: Store, key: string, env: Env, other: string)
    requires env.fault.Works? && other != key
    ensures var (after, reply) := Exec(b, store, Delete(key), env);
            && reply in {Done, NotFound}
            && (reply == Done <==> Answer(b, store, Get(key)) != NotFound)
            && Reads(b, after, key, None)
            && exists entry :: Reads(b, store, other, entry) && Reads(b, after, other, entry)
  {
    var (after, reply) := Exec(b, store, Delete(key), env);
    var before, now := Under(store, Combined(b)), Under(after, Combined(b));
    StackIsStoreUnderPrefix(b, store, Delete(key), env);
    ReadsUnder(b, store, key);
    ReadsUnder(b, after, key);
    ReadsUnder(b, store, other);
    ReadsUnder(b, after, other);
    GetsEntry(b, store, key, if key in before then Some(before[key]) else None);
    hide Exec, Under, Reads, Answer, Slice;
    assert (other in now <==> other in before) && (other in now ==> now[other] == before[other]);
  }

  /** A call other than Put and Delete changes nothing, whether it works or not; nor does one that fails before. */
  lemma {:induction false} OthersChangeNothing(b: Bucket, store: Store, call: Call, env: Env)
    requires (!call.Put? && !call.Delete?) || env.fault.FailsBefore?
    ensures Exec(b, store, call, env).0 == store
    decreases b
  {
    match b
    case Base =>
    case Wrapper(inner) => OthersChangeNothing(inner, store, call, env);
    case View(inner, p) => OthersChangeNothing(inner, store, Inward(p, call), env);
  }
}
