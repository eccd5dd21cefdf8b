/** The parts a ranged transfer is cut into: `for off := 0; off < size; off += part`. */
module Parts {
  import opened Objects

  datatype Span = Span(off: nat, len: nat) {
    predicate Covers(x: int) {
      off <= x < off + len
    }
  }

  /** The parts that some records are about, in their order. */
  function SpansOf<T>(xs: seq<T>, span: T -> Span): (spans: seq<Span>)
    ensures |spans| == |xs| && forall i :: 0 <= i < |xs| ==> spans[i] == span(xs[i])
  {
    seq(|xs|, i requires 0 <= i < |xs| => span(xs[i]))
  }

  /** The parts from `off` on, in the order the loop reaches them. */
  function Spans(size: nat, part: nat, off: nat): seq<Span>
    requires part > 0
    decreases Max(0, size - off)
  {
    if off >= size then [] else [Span(off, Min(part, size - off))] + Spans(size, part, off + part)
  }

  lemma {:induction false} SpanAt(size: nat, part: nat, off: nat, k: nat)
    requires part > 0 && k < |Spans(size, part, off)|
    ensures var s := Spans(size, part, off)[k];
            s.off == off + k * part < size && s.len == Min(part, size - s.off) && s.len > 0
    decreases k
  {
    if k > 0 {
      SpanAt(size, part, off + part, k - 1);
      Times(k - 1, part);
    }
  }

  /** The parts reach the end, and all but the last do not. */
  lemma {:induction false} SpansReach(size: nat, part: nat, off: nat)
    requires part > 0 && off < size
    ensures var n := |Spans(size, part, off)|; n > 0 && off + n * part - part < size <= off + n * part
    decreases size - off
  {
    var rest := |Spans(size, part, off + part)|;
    if off + part < size {
      SpansReach(size, part, off + part);
    }
    Times(rest, part);
  }

  lemma Times(n: nat, d: nat)
    ensures (n + 1) * d == n * d + d
  {
  }

  lemma SpanCount(size: nat, part: nat, off: nat)
    requires part > 0 && off <= size
    ensures |Spans(size, part, off)| == (size - off + part - 1) / part
  {
    if off < size {
      SpansReach(size, part, off);
    }
    Quotient(size - off + part - 1, part, |Spans(size, part, off)|);
  }

  lemma {:induction false} Gap(a: nat, b: nat, d: nat)
    ensures a > b ==> a * d >= b * d + d
    decreases a
  {
    if a > b {
      Gap(a - 1, b, d);
      assert a * d == (a - 1) * d + d;
    }
  }

  lemma Quotient(a: nat, d: nat, q: nat)
    requires d > 0 && q * d <= a < q * d + d
    ensures a / d == q
  {
    Gap(q, a / d, d);
    Gap(a / d, q, d);
  }

  /** Every position from `off` on lies in one of the parts. */
  lemma {:induction false} SpanCovering(size: nat, part: nat, off: nat, x: nat) returns (k: nat)
    requires part > 0 && off <= x < size
    ensures k < |Spans(size, part, off)| && Spans(size, part, off)[k].Covers(x)
    decreases Max(0, size - off)
  {
    if x < off + part {
      k := 0;
    } else {
      k := SpanCovering(size, part, off + part, x);
      k := k + 1;
    }
  }

  lemma SpansInOrder(size: nat, part: nat, j: nat, k: nat)
    requires part > 0 && j < k < |Spans(size, part, 0)|
    ensures Spans(size, part, 0)[j].off + Spans(size, part, 0)[j].len <= Spans(size, part, 0)[k].off
  {
    SpanAt(size, part, 0, j);
    SpanAt(size, part, 0, k);
    Gap(k, j, part);
  }

  /** Non-empty intervals inside `[0, size)`, every position in exactly one of them. */
  ghost predicate Partition(spans: seq<Span>, size: nat) {
    && (forall k :: 0 <= k < |spans| ==> 0 < spans[k].len && spans[k].off + spans[k].len <= size)
    && (forall x: nat {:trigger Part(spans, x)} :: x < size ==> |Part(spans, x)| == 1)
  }

  /** The parts that contain position `x`. */
  ghost function Part(spans: seq<Span>, x: nat): set<nat> {
    set k: nat | k < |spans| && spans[k].Covers(x)
  }

  /** The loop cuts an object into ceil(size / part) parts that partition it. */
  lemma SpansPartition(size: nat, part: nat)
    requires part > 0
    ensures |Spans(size, part, 0)| == (size + part - 1) / part
    ensures Partition(Spans(size, part, 0), size)
  {
    var spans := Spans(size, part, 0);
    SpanCount(size, part, 0);
    forall k | 0 <= k < |spans|
      ensures 0 < spans[k].len && spans[k].off + spans[k].len <= size
    {
      SpanAt(size, part, 0, k);
    }
    forall x: nat | x < size
      ensures |Part(spans, x)| == 1
    {
      var k := SpanCovering(size, part, 0, x);
      forall j: nat | j < |spans| && spans[j].Covers(x)
        ensures j == k
      {
        if j < k { SpansInOrder(size, part, j, k); }
        if k < j { SpansInOrder(size, part, k, j); }
      }
      assert Part(spans, x) == {k};
    }
  }
}
