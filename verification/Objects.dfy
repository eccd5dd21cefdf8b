/** Bytes, options and the byte-range selection shared by every reader. */
module Objects {
  newtype Byte = x: int | 0 <= x < 0x100

  type Bytes = seq<Byte>

  datatype Option<+T> = None | Some(value: T)

  function Min(a: int, b: int): int {
    if a < b then a else b
  }

  function Max(a: int, b: int): int {
    if a < b then b else a
  }

  /** First byte of a range request: from the end when `off` is negative, always clamped to the object. */
  function RangeStart(size: nat, off: int): (start: nat)
    ensures start <= size
  {
    Min(Max(if off < 0 then size + off else off, 0), size)
  }

  function RangeEnd(size: nat, off: int, length: int): (end: nat)
    ensures RangeStart(size, off) <= end <= size
  {
    if length <= 0 then size else Min(RangeStart(size, off) + length, size)
  }

  /** The bytes a range request selects. */
  function Slice(content: Bytes, off: int, length: int): Bytes {
    content[RangeStart(|content|, off)..RangeEnd(|content|, off, length)]
  }

  lemma SliceOfSlice<T>(s: seq<T>, a: nat, b: nat, from: nat, to: nat)
    requires a <= b <= |s| && from <= to <= b - a
    ensures s[a..b][from..to] == s[a + from..a + to]
  {
    forall j | 0 <= j < to - from
      ensures s[a..b][from..to][j] == s[a + from..a + to][j]
    {
      assert s[a..b][from + j] == s[a + from + j];
    }
  }

  lemma SliceInside(content: Bytes, off: nat, length: nat, from: nat, to: nat)
    requires 0 < length && off + length <= |content| && from <= to <= length
    ensures |Slice(content, off, length)| == length
    ensures Slice(content, off, length)[from..to] == content[off + from..off + to]
  {
    assert RangeStart(|content|, off) == off && RangeEnd(|content|, off, length) == off + length;
    SliceOfSlice(content, off, off + length, from, to);
  }

  lemma SliceBounds(content: Bytes, off: int, length: int)
    ensures length > 0 ==> |Slice(content, off, length)| <= length
    ensures off >= 0 ==> |Slice(content, off, length)| <= Max(0, |content| - off)
    ensures off < 0 ==> |Slice(content, off, length)| <= Min(|content|, -off)
  {
  }

  lemma Associate<T>(a: seq<T>, b: seq<T>, c: seq<T>, d: seq<T>)
    ensures a + b + c + d == a + (b + c + d)
  {
  }

  /* ---------- Totals over a sequence ---------- */

  function One(b: bool): nat {
    if b then 1 else 0
  }

  function Total<T>(xs: seq<T>, f: T -> nat): nat {
    if xs == [] then 0 else Total(xs[..|xs| - 1], f) + f(xs[|xs| - 1])
  }

  lemma TotalAppend<T>(xs: seq<T>, x: T, f: T -> nat)
    ensures Total(xs + [x], f) == Total(xs, f) + f(x)
  {
    assert (xs + [x])[..|xs|] == xs;
  }

  lemma {:induction false} TotalUpdate<T>(xs: seq<T>, i: nat, x: T, f: T -> nat)
    requires i < |xs|
    ensures Total(xs[i := x], f) + f(xs[i]) == Total(xs, f) + f(x)
    decreases |xs|
  {
    var n := |xs| - 1;
    if i < n {
      TotalUpdate(xs[..n], i, x, f);
      assert xs[i := x][..n] == xs[..n][i := x];
    } else {
      assert xs[i := x][..n] == xs[..n];
    }
  }

  lemma {:induction false} TotalZero<T>(xs: seq<T>, f: T -> nat)
    requires forall i :: 0 <= i < |xs| ==> f(xs[i]) == 0
    ensures Total(xs, f) == 0
    decreases |xs|
  {
    if xs != [] {
      TotalZero(xs[..|xs| - 1], f);
    }
  }

  lemma {:induction false} TotalPositive<T>(xs: seq<T>, f: T -> nat) returns (k: nat)
    requires Total(xs, f) > 0
    ensures k < |xs| && f(xs[k]) > 0
    decreases |xs|
  {
    k := |xs| - 1;
    if f(xs[k]) == 0 {
      k := TotalPositive(xs[..k], f);
    }
  }

  lemma {:induction false} TotalCovers<T>(xs: seq<T>, i: nat, f: T -> nat)
    requires i < |xs|
    ensures f(xs[i]) <= Total(xs, f)
    decreases |xs|
  {
    if i < |xs| - 1 {
      TotalCovers(xs[..|xs| - 1], i, f);
    }
  }
}
