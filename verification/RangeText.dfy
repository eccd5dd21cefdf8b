/** The text of a range request, what an HTTP server selects for it, and what the filesystem store delivers. */
module RangeText {
  import opened Objects

  const MAX_INT64 := 0x7FFF_FFFF_FFFF_FFFF
  const WORD := 0x1_0000_0000_0000_0000

  type Int64 = x: int | -MAX_INT64 - 1 <= x <= MAX_INT64

  /** Signed 64-bit arithmetic wraps around. */
  function Wrap(x: int): Int64 {
    (x + MAX_INT64 + 1) % WORD - MAX_INT64 - 1
  }

  /* ---------- Decimal numbers ---------- */

  predicate IsDigit(c: char) {
    '0' <= c <= '9'
  }

  predicate AllDigits(s: string) {
    forall i :: 0 <= i < |s| ==> IsDigit(s[i])
  }

  function DigitChar(d: int): (c: char)
    requires 0 <= d < 10
    ensures IsDigit(c) && DigitValue(c) == d
  {
    '0' + d as char
  }

  function DigitValue(c: char): (d: int)
    requires IsDigit(c)
    ensures 0 <= d < 10
  {
    c as int - '0' as int
  }

  function PrintNat(n: nat): (s: string)
    ensures s != "" && AllDigits(s)
  {
    if n < 10 then [DigitChar(n)] else PrintNat(n / 10) + [DigitChar(n % 10)]
  }

  function ParseNat(s: string): (n: nat)
    requires AllDigits(s)
  {
    if s == "" then 0 else 10 * ParseNat(s[..|s| - 1]) + DigitValue(s[|s| - 1])
  }

  lemma {:induction false} ParsePrinted(n: nat)
    ensures ParseNat(PrintNat(n)) == n
  {
    if n >= 10 {
      ParsePrinted(n / 10);
      assert PrintNat(n)[..|PrintNat(n)| - 1] == PrintNat(n / 10);
    }
  }

  function PrintInt(n: int): string {
    if n < 0 then "-" + PrintNat(-n) else PrintNat(n)
  }

  /* ---------- The client's text ---------- */

  function FormatRange(off: Int64, length: Int64): string {
    if off < 0 then "bytes=" + PrintInt(off)
    else if length <= 0 then "bytes=" + PrintInt(off) + "-"
    else "bytes=" + PrintInt(off) + "-" + PrintInt(Wrap(Wrap(off as int + length as int) as int - 1))
  }

  /* ---------- The server's reading, sections 14.1.1 and 14.1.2 of RFC 9110 ---------- */

  datatype RangeSpec = From(first: nat) | Between(first: nat, last: nat) | Suffix(count: nat)

  function IndexOf(s: string, c: char): (i: nat)
    ensures i <= |s| && c !in s[..i] && (i < |s| ==> s[i] == c)
  {
    if s == "" || s[0] == c then 0
    else
      var i := IndexOf(s[1..], c);
      assert s[..i + 1] == [s[0]] + s[1..][..i];
      i + 1
  }

  /** A header value with the unit "bytes" and a single range; anything else is refused. */
  function ParseRange(text: string): Option<RangeSpec> {
    if !("bytes=" <= text) then None
    else
      var range := text[6..];
      var dash := IndexOf(range, '-');
      if dash == |range| then None
      else
        var first, last := range[..dash], range[dash + 1..];
        if !AllDigits(first) || !AllDigits(last) then None
        else if first == "" then (if last == "" then None else Some(Suffix(ParseNat(last))))
        else if last == "" then Some(From(ParseNat(first)))
        else if ParseNat(last) < ParseNat(first) then None
        else Some(Between(ParseNat(first), ParseNat(last)))
  }

  /** The selected bytes, or None when the range cannot be satisfied. */
  function Select(content: Bytes, range: RangeSpec): Option<Bytes> {
    match range
    case From(first) => if first < |content| then Some(content[first..]) else None
    case Between(first, last) =>
      if first < |content| && first <= last then Some(content[first..Min(last + 1, |content|)]) else None
    case Suffix(count) =>
      if count == 0 || content == [] then None else Some(content[Max(0, |content| - count)..])
  }

  function Served(content: Bytes, text: string): Option<Bytes> {
    match ParseRange(text)
    case None => None
    case Some(range) => Select(content, range)
  }

  /* ---------- Reading back the formatted text ---------- */

  /** The last byte position fits the word it is computed in. */
  predicate Fits(off: int, length: int) {
    off < 0 || length <= 0 || off + length - 1 <= MAX_INT64
  }

  function Meaning(off: int, length: int): Option<RangeSpec> {
    if !Fits(off, length) then None
    else if off < 0 then Some(Suffix(-off))
    else if length <= 0 then Some(From(off))
    else Some(Between(off, off + length - 1))
  }

  lemma {:induction false} FirstIndex(s: string, c: char, i: nat)
    requires i < |s| && s[i] == c && forall k :: 0 <= k < i ==> s[k] != c
    ensures IndexOf(s, c) == i
    decreases i
  {
    if i > 0 {
      assert s[0] != c;
      FirstIndex(s[1..], c, i - 1);
    }
  }

  lemma SplitsAtDash(first: string, last: string)
    requires AllDigits(first)
    ensures var range := first + "-" + last;
            && IndexOf(range, '-') == |first|
            && range[..|first|] == first
            && range[|first| + 1..] == last
  {
    var range := first + "-" + last;
    assert range[|first|] == '-';
    assert forall k :: 0 <= k < |first| ==> range[k] == first[k];
    FirstIndex(range, '-', |first|);
  }

  lemma LastPosition(off: Int64, length: Int64)
    requires off >= 0 && length > 0
    ensures var last := Wrap(Wrap(off as int + length as int) as int - 1);
            if Fits(off, length) then last == off as int + length as int - 1 else last < 0
  {
  }

  lemma ParsesParts(first: string, last: string)
    requires AllDigits(first)
    ensures ParseRange("bytes=" + (first + "-" + last)) ==
      if !AllDigits(last) || (first == "" && last == "") then None
      else if first == "" then Some(Suffix(ParseNat(last)))
      else if last == "" then Some(From(ParseNat(first)))
      else if ParseNat(last) < ParseNat(first) then None
      else Some(Between(ParseNat(first), ParseNat(last)))
  {
    var range := first + "-" + last;
    assert ("bytes=" + range)[6..] == range;
    hide IndexOf, ParseNat, AllDigits;
    SplitsAtDash(first, last);
  }

  /** Round trip: the server reads back the range the client meant, or refuses a text whose last position
      wrapped around. */
  lemma FormatParses(off: Int64, length: Int64)
    ensures ParseRange(FormatRange(off, length)) == Meaning(off, length)
  {
    hide Wrap, ParseNat, ParseRange, PrintNat;
    var end := Wrap(Wrap(off as int + length as int) as int - 1);
    var first := if off < 0 then "" else PrintInt(off);
    var last := if off < 0 then PrintInt(-(off as int)) else if length <= 0 then "" else PrintInt(end);
    FormatsParts(off, length, first, last);
    ParsesParts(first, last);
    MinusIsNoDigit(if off < 0 then -(off as int) else off);
    MinusIsNoDigit(end);
    if off >= 0 && length > 0 {
      LastPosition(off, length);
    }
  }

  lemma FormatsParts(off: Int64, length: Int64, first: string, last: string)
    requires first == if off < 0 then "" else PrintInt(off)
    requires last == if off < 0 then PrintInt(-(off as int)) else if length <= 0 then ""
                     else PrintInt(Wrap(Wrap(off as int + length as int) as int - 1))
    ensures FormatRange(off, length) == "bytes=" + (first + "-" + last)
  {
    hide Wrap, PrintNat;
    if off >= 0 && length > 0 {
      hide PrintInt;
      Associate("bytes=", first, "-", last);
    }
  }

  lemma MinusIsNoDigit(n: int)
    ensures AllDigits(PrintInt(n)) <==> n >= 0
    ensures n >= 0 ==> PrintInt(n) != "" && ParseNat(PrintInt(n)) == n
  {
    if n >= 0 {
      ParsePrinted(n);
    } else {
      assert PrintInt(n)[0] == '-';
    }
  }

  /* ---------- Agreement with the byte slice ---------- */

  /** What a caller can check before the call. */
  predicate Agreeable(size: nat, off: int, length: int) {
    if off >= 0 then off < size && Fits(off, length)
    else size > 0 && (length <= 0 || Min(-off, size) <= length)
  }

  /** Main result: the server selects exactly the slice the filesystem store selects precisely when the range
      starts inside the object, its last position fits, and a range from the end is not bounded to fewer bytes. */
  lemma ServedIsSliceExactlyWhen(content: Bytes, off: Int64, length: Int64)
    ensures Served(content, FormatRange(off, length)) == Some(Slice(content, off, length))
       <==> Agreeable(|content|, off, length)
  {
    FormatParses(off, length);
    hide ParseRange, FormatRange;
    SelectMeaning(content, off, length);
  }

  lemma SelectMeaning(content: Bytes, off: int, length: int)
    ensures (&& Meaning(off, length).Some?
             && Select(content, Meaning(off, length).value) == Some(Slice(content, off, length)))
       <==> Agreeable(|content|, off, length)
  {
    var start, end := RangeStart(|content|, off), RangeEnd(|content|, off, length);
    if off >= 0 {
      assert off < |content| ==> start == off;
      assert length <= 0 ==> content[start..end] == content[start..];
    } else {
      assert content != [] ==> Select(content, Suffix(-off)) == Some(content[start..]);
      assert |content[start..]| == |content| - start && |Slice(content, off, length)| == end - start;
      assert end == |content| ==> content[start..end] == content[start..];
      assert end == |content| <==> length <= 0 || Min(-off, |content|) <= length;
    }
  }

  /* ---------- The file a range read returns ---------- */

  datatype Chunk = Chunk(bytes: Bytes, eof: bool)

  /** One read of a file from `pos`: nothing into an empty buffer, end of file at the end, else at least one byte
      and as many as the system chooses. */
  function FileRead(content: Bytes, pos: nat, room: nat, chosen: nat): (c: Chunk)
    requires pos <= |content|
    ensures |c.bytes| <= room && pos + |c.bytes| <= |content|
    ensures c.bytes == content[pos..pos + |c.bytes|]
  {
    var most := Min(room, |content| - pos);
    if room == 0 then Chunk([], false)
    else if most == 0 then Chunk([], true)
    else Chunk(content[pos..pos + Max(1, Min(chosen, most))], false)
  }

  /** The reader of a range: `n` bytes may still be read; without a limit the bare file is read. */
  datatype Reader = Reader(content: Bytes, pos: nat, limit: Option<int>)

  predicate WellFormed(r: Reader) {
    r.pos <= |r.content|
  }

  /** The start position, computed as the code does. */
  function StartOf(size: nat, off: int): (start: nat)
    ensures start == RangeStart(size, off)
  {
    var back := if off < 0 then Max(size + off, 0) else off;
    if back > size then size else back
  }

  /** The positions are computed in 64-bit words. An end that wraps around is harmless: subtracting the start
      brings the requested length back, and the file ends before it. */
  function GetRange(content: Bytes, off: Int64, length: Int64): (r: Reader)
    requires |content| <= MAX_INT64
    ensures WellFormed(r)
  {
    var start := StartOf(|content|, off);
    if length <= 0 then Reader(content, start, None)
    else Reader(content, start, Some(LimitOf(|content|, start, length)))
  }

  function LimitOf(size: nat, start: nat, length: Int64): Int64 {
    var sum: int := Wrap(start + length as int);
    var end: int := if sum > size then size else sum;
    Wrap(end - start)
  }

  lemma WrapsBack(size: nat, start: nat, length: Int64)
    requires start <= size <= MAX_INT64 && length > 0
    ensures LimitOf(size, start, length) == if start + length > MAX_INT64 then length else Min(length, size - start)
  {
  }

  /** A range reader starts out with exactly the slice to deliver, whatever the two numbers. */
  lemma GetRangeIsSlice(content: Bytes, off: Int64, length: Int64)
    requires |content| <= MAX_INT64
    ensures Remaining(GetRange(content, off, length)) == Slice(content, off, length)
  {
    if length > 0 {
      WrapsBack(|content|, StartOf(|content|, off), length);
    }
    hide LimitOf;
  }

  function Left(r: Reader): (n: nat)
    requires WellFormed(r)
    ensures n <= |r.content| - r.pos
  {
    match r.limit
    case None => |r.content| - r.pos
    case Some(n) => Min(Max(n, 0), |r.content| - r.pos)
  }

  /** The bytes a reader has still to deliver. */
  function Remaining(r: Reader): Bytes
    requires WellFormed(r)
  {
    r.content[r.pos..r.pos + Left(r)]
  }

  function Advanced(r: Reader, n: nat): Reader {
    r.(pos := r.pos + n, limit := if r.limit.None? then None else Some(r.limit.value - n))
  }

  function ReadNext(r: Reader, room: nat, chosen: nat): (Reader, Chunk)
    requires WellFormed(r)
  {
    match r.limit
    case None =>
      var c := FileRead(r.content, r.pos, room, chosen);
      (Advanced(r, |c.bytes|), c)
    case Some(n) =>
      if n <= 0 then (r, Chunk([], true))
      else
        var c := FileRead(r.content, r.pos, Min(room, n), chosen);
        (Advanced(r, |c.bytes|), c)
  }

  lemma RestLength(r: Reader)
    requires WellFormed(r)
    ensures |Remaining(r)| == Left(r)
  {
  }

  lemma AdvancedKeepsRest(r: Reader, bytes: Bytes)
    requires WellFormed(r) && |bytes| <= Left(r) && bytes == r.content[r.pos..r.pos + |bytes|]
    ensures WellFormed(Advanced(r, |bytes|)) && Remaining(r) == bytes + Remaining(Advanced(r, |bytes|))
  {
  }

  /** Each read delivers the next of the remaining bytes; end of file exactly when nothing remains, except that a
      read of the bare file into an empty buffer says nothing. */
  lemma ReadDeliversNext(r: Reader, room: nat, chosen: nat)
    requires WellFormed(r)
    ensures var (after, c) := ReadNext(r, room, chosen);
            && WellFormed(after)
            && Remaining(r) == c.bytes + Remaining(after)
            && |c.bytes| <= room
            && (c.eof <==> Remaining(r) == [] && (room > 0 || (r.limit.Some? && r.limit.value <= 0)))
            && (room > 0 && Remaining(r) != [] ==> c.bytes != [])
  {
    RestLength(r);
    if r.limit.None? || r.limit.value > 0 {
      var most := if r.limit.None? then room else Min(room, r.limit.value);
      FileReadIsExact(r.content, r.pos, most, chosen);
      AdvancedKeepsRest(r, FileRead(r.content, r.pos, most, chosen).bytes);
    } else {
      assert [] + Remaining(r) == Remaining(r);
    }
    hide FileRead, Remaining, Advanced;
  }

  lemma FileReadIsExact(content: Bytes, pos: nat, room: nat, chosen: nat)
    requires pos <= |content|
    ensures var c := FileRead(content, pos, room, chosen);
            && (c.eof <==> room > 0 && pos == |content|)
            && (c.bytes == [] <==> room == 0 || pos == |content|)
  {
  }

  datatype Choice = Choice(room: nat, chosen: nat)

  /** The bytes of successive reads up to the first end of file, and whether one was seen. */
  function Drain(r: Reader, choices: seq<Choice>): Chunk
    requires WellFormed(r)
    decreases |choices|
  {
    if choices == [] then Chunk([], false)
    else
      var (after, c) := ReadNext(r, choices[0].room, choices[0].chosen);
      ReadDeliversNext(r, choices[0].room, choices[0].chosen);
      if c.eof then c
      else
        var rest := Drain(after, choices[1..]);
        Chunk(c.bytes + rest.bytes, rest.eof)
  }

  /** For any buffer sizes the reads deliver a prefix of the remaining bytes, and all of them at end of file. */
  lemma {:induction false} DrainDelivers(r: Reader, choices: seq<Choice>)
    requires WellFormed(r)
    ensures var c := Drain(r, choices);
            && c.bytes <= Remaining(r)
            && (c.eof ==> c.bytes == Remaining(r))
    decreases |choices|
  {
    if choices != [] {
      var (after, c) := ReadNext(r, choices[0].room, choices[0].chosen);
      ReadDeliversNext(r, choices[0].room, choices[0].chosen);
      hide Remaining, ReadNext;
      if !c.eof {
        DrainDelivers(after, choices[1..]);
      }
    }
  }

  /** With room in every buffer, one more read than there are bytes is enough. */
  lemma {:induction false} DrainEnds(r: Reader, choices: seq<Choice>)
    requires WellFormed(r)
    requires |choices| > |Remaining(r)|
    requires forall i :: 0 <= i < |choices| ==> choices[i].room > 0
    ensures Drain(r, choices).eof
    decreases |choices|
  {
    var (after, c) := ReadNext(r, choices[0].room, choices[0].chosen);
    ReadDeliversNext(r, choices[0].room, choices[0].chosen);
    hide Remaining, ReadNext;
    if !c.eof {
      DrainEnds(after, choices[1..]);
    }
  }

  /** Main result: over HTTP and over a file, a range read is the same bytes. Whatever the buffers, a drained
      range reader has delivered exactly what the server selects for the formatted text. */
  lemma FileServesFormattedRange(content: Bytes, off: Int64, length: Int64, choices: seq<Choice>)
    requires |content| <= MAX_INT64 && Agreeable(|content|, off, length)
    ensures var c := Drain(GetRange(content, off, length), choices);
            && c.bytes <= Slice(content, off, length)
            && (c.eof ==> Served(content, FormatRange(off, length)) == Some(c.bytes))
  {
    ServedIsSliceExactlyWhen(content, off, length);
    GetRangeIsSlice(content, off, length);
    hide Remaining, GetRange, Served, Agreeable;
    DrainDelivers(GetRange(content, off, length), choices);
  }

  /* ---------- The reader as an object ---------- */

  class LimitedFile {
    const content: Bytes
    var pos: nat
    var n: int

    ghost predicate Valid()
      reads this
    {
      pos <= |content|
    }

    ghost function State(): Reader
      reads this
    {
      Reader(content, pos, Some(n))
    }

    constructor (content: Bytes, start: nat, n: int)
      requires start <= |content|
      ensures Valid() && State() == Reader(content, start, Some(n))
    {
      this.content := content;
      this.pos := start;
      this.n := n;
    }

    /** `chosen` is the number of bytes the system would like to return. */
    method Read(p: array<Byte>, chosen: nat) returns (count: nat, eof: bool)
      requires Valid()
      modifies this, p
      ensures Valid()
      ensures (State(), Chunk(p[..Min(count, p.Length)], eof)) == ReadNext(old(State()), p.Length, chosen)
      ensures count <= p.Length && p[count..] == old(p[count..])
    {
      if n <= 0 {
        return 0, true;
      }
      var room: nat := p.Length;
      if room > n {
        room := n;
      }
      var c := FileRead(content, pos, room, chosen);
      forall i | 0 <= i < |c.bytes| {
        p[i] := c.bytes[i];
      }
      count, eof := |c.bytes|, c.eof;
      pos := pos + count;
      n := n - count;
      assert p[..count] == c.bytes;
    }
  }
}
