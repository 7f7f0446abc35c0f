/** UTF-8 byte geometry of a line.

    A Rust `String` is a sequence of Unicode scalar values stored as UTF-8
    bytes; every offset the error kinds carry is a BYTE offset. Here a line is
    the sequence of its scalar values (`string`, i.e. `seq<char>`), and the
    byte view is recovered from the encoded length of each character: the
    `k`-th character starts at byte `Offset(s, k)`, the sum of the encoded
    lengths of the characters before it. These start offsets are exactly the
    `n` values produced by `str::char_indices`. */
module Utf8 {
  import opened Wrappers

  /** Bytes in the UTF-8 encoding of `c` (`char::len_utf8`). */
  function Utf8Len(c: char): (n: nat)
    ensures 1 <= n <= 4
  {
    if c as int < 0x80 then 1
    else if c as int < 0x800 then 2
    else if c as int < 0x1_0000 then 3
    else 4
  }

  /** Byte length of the UTF-8 encoding of `s` (`str::len`). */
  function ByteLen(s: string): nat
  {
    if |s| == 0 then 0 else Utf8Len(s[0]) + ByteLen(s[1..])
  }

  /** Byte offset at which character `k` of `s` starts; `Offset(s, |s|)` is
      the end of the string. */
  function Offset(s: string, k: nat): nat
    requires k <= |s|
  {
    ByteLen(s[..k])
  }

  /** `i` is a character boundary of `s`: a start offset or the end
      (`str::is_char_boundary`, the condition under which `&s[..i]` and
      `&s[i..]` do not panic). */
  ghost predicate IsBoundary(s: string, i: nat)
  {
    exists k :: 0 <= k <= |s| && Offset(s, k) == i
  }

  /** `i` is the offset at which some character of `s` starts. */
  ghost predicate IsCharStart(s: string, i: nat)
  {
    exists k :: 0 <= k < |s| && Offset(s, k) == i
  }

  lemma {:induction false} ByteLenAppend(a: string, b: string)
    ensures ByteLen(a + b) == ByteLen(a) + ByteLen(b)
  {
    if |a| == 0 {
      assert a + b == b;
    } else {
      assert (a + b)[1..] == a[1..] + b;
      ByteLenAppend(a[1..], b);
    }
  }

  /** Consecutive start offsets differ by the encoded length of the
      character between them. */
  lemma OffsetStep(s: string, k: nat)
    requires k < |s|
    ensures Offset(s, k + 1) == Offset(s, k) + Utf8Len(s[k])
  {
    assert s[..k + 1] == s[..k] + [s[k]];
    ByteLenAppend(s[..k], [s[k]]);
  }

  lemma OffsetEnd(s: string)
    ensures Offset(s, |s|) == ByteLen(s)
  {
    assert s[..|s|] == s;
  }

  /** Dropping the first character shifts every later offset down by that
      character's length. */
  lemma OffsetCons(s: string, k: nat)
    requires k < |s|
    ensures Offset(s, k + 1) == Utf8Len(s[0]) + Offset(s[1..], k)
  {
    assert s[..k + 1][1..] == s[1..][..k];
  }

  /** The start offsets are strictly increasing, and character `j` ends no
      later than any later start. */
  lemma {:induction false} OffsetIncreasing(s: string, j: nat, k: nat)
    requires j < k <= |s|
    ensures Offset(s, j) + Utf8Len(s[j]) <= Offset(s, k)
    decreases k - j
  {
    OffsetStep(s, j);
    if j + 1 < k {
      OffsetIncreasing(s, j + 1, k);
    }
  }

  lemma OffsetMonotone(s: string, j: nat, k: nat)
    requires j <= k <= |s|
    ensures Offset(s, j) <= Offset(s, k)
  {
    if j < k {
      OffsetIncreasing(s, j, k);
    }
  }

  /** A byte offset names at most one character position. */
  lemma OffsetInjective(s: string, j: nat, k: nat)
    requires j <= |s| && k <= |s|
    requires Offset(s, j) == Offset(s, k)
    ensures j == k
  {
    if j < k {
      OffsetIncreasing(s, j, k);
    } else if k < j {
      OffsetIncreasing(s, k, j);
    }
  }

  /** Character starts are exactly the boundaries before the end. */
  lemma CharStartIsInnerBoundary(s: string, i: nat)
    ensures IsCharStart(s, i) <==> IsBoundary(s, i) && i < ByteLen(s)
  {
    OffsetEnd(s);
    if IsCharStart(s, i) {
      var k :| 0 <= k < |s| && Offset(s, k) == i;
      OffsetIncreasing(s, k, |s|);
    }
    if IsBoundary(s, i) && i < ByteLen(s) {
      var k :| 0 <= k <= |s| && Offset(s, k) == i;
      assert k < |s|;
    }
  }

  lemma NoBoundaryInsideFirst(s: string, i: nat)
    requires 0 < |s| && 0 < i < Utf8Len(s[0])
    ensures !IsBoundary(s, i)
  {
    forall k | 0 <= k <= |s|
      ensures Offset(s, k) != i
    {
      if 0 < k {
        OffsetIncreasing(s, 0, k);
      }
    }
  }

  lemma NoBoundaryInTail(s: string, i: nat)
    requires 0 < |s| && Utf8Len(s[0]) <= i
    requires !IsBoundary(s[1..], i - Utf8Len(s[0]))
    ensures !IsBoundary(s, i)
  {
    forall k | 0 <= k <= |s|
      ensures Offset(s, k) != i
    {
      if 0 < k {
        OffsetCons(s, k - 1);
      }
    }
  }

  /** The character position whose start offset is byte `i`; `None` when
      `i` is not a character boundary of `s` (inside a character, or past
      the end). */
  function CharIndexAt(s: string, i: nat): (r: Option<nat>)
    ensures r.Some? ==> r.value <= |s| && Offset(s, r.value) == i
    ensures r.None? ==> !IsBoundary(s, i)
    decreases |s|
  {
    if i == 0 then
      Some(0)
    else if |s| == 0 then
      None
    else if i < Utf8Len(s[0]) then
      NoBoundaryInsideFirst(s, i);
      None
    else
      match CharIndexAt(s[1..], i - Utf8Len(s[0]))
      case Some(k) =>
        OffsetCons(s, k);
        Some(k + 1)
      case None =>
        NoBoundaryInTail(s, i);
        None
  }

  /** `str::is_char_boundary`. */
  function IsCharBoundary(s: string, i: nat): (b: bool)
    ensures b <==> IsBoundary(s, i)
  {
    CharIndexAt(s, i).Some?
  }

  /** `&s[..i]`; `None` models the panic Rust raises when `i` is not a
      character boundary. */
  function SliceTo(s: string, i: nat): (r: Option<string>)
    ensures r.Some? <==> IsBoundary(s, i)
    ensures r.Some? ==> r.value <= s && ByteLen(r.value) == i
  {
    match CharIndexAt(s, i)
    case Some(k) => Some(s[..k])
    case None => None
  }

  /** `&s[i..]`; `None` models the panic Rust raises when `i` is not a
      character boundary. */
  function SliceFrom(s: string, i: nat): (r: Option<string>)
    ensures r.Some? <==> IsBoundary(s, i)
    ensures r.Some? ==> |r.value| <= |s| && s[|s| - |r.value|..] == r.value
    ensures r.Some? ==> i + ByteLen(r.value) == ByteLen(s)
  {
    match CharIndexAt(s, i)
    case Some(k) =>
      assert s[..k] + s[k..] == s;
      ByteLenAppend(s[..k], s[k..]);
      Some(s[k..])
    case None => None
  }

  /** At a boundary, byte slicing is character slicing at the unique
      position whose start offset is `i`: the prefix and suffix are
      `s[..k]` and `s[k..]`, and together they give back `s`. */
  lemma SlicesAt(s: string, i: nat, k: nat)
    requires k <= |s| && Offset(s, k) == i
    ensures SliceTo(s, i) == Some(s[..k])
    ensures SliceFrom(s, i) == Some(s[k..])
    ensures SliceTo(s, i).value + SliceFrom(s, i).value == s
  {
    var c := CharIndexAt(s, i);
    assert c.Some?;
    OffsetInjective(s, c.value, k);
  }

  lemma SlicesAtAll(s: string, i: nat)
    ensures forall k :: 0 <= k <= |s| && Offset(s, k) == i ==>
      SliceTo(s, i) == Some(s[..k]) && SliceFrom(s, i) == Some(s[k..])
  {
    forall k | 0 <= k <= |s| && Offset(s, k) == i
      ensures SliceTo(s, i) == Some(s[..k]) && SliceFrom(s, i) == Some(s[k..])
    {
      SlicesAt(s, i, k);
    }
  }
}
