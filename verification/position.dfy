/** The position resolver `nth_char`: the character whose encoding starts
    exactly at a given byte offset of a line. */
module Position {
  import opened Utf8

  /** Which of `nth_char`'s three checks aborts the call. */
  datatype Panic =
    | IndexOutOfRange     // the up-front `string.len() > index` assertion
    | PassedIndex         // the scan reached a start offset beyond `index`
    | LastStartMismatch   // the closing `assert_eq!(last_n, index)`

  datatype Outcome = Returned(c: char) | Panicked(site: Panic)

  /** `i` lies strictly inside the encoding of character `k`. */
  ghost predicate InsideChar(s: string, k: nat, i: nat)
    requires k < |s|
  {
    Offset(s, k) < i < Offset(s, k + 1)
  }

  /** `i` lies strictly inside some character that is not the last one. */
  ghost predicate InsideEarlierChar(s: string, i: nat)
  {
    exists k :: 0 <= k && k + 1 < |s| && InsideChar(s, k, i)
  }

  /** `i` lies strictly inside the last character. */
  ghost predicate InsideLastChar(s: string, i: nat)
  {
    0 < |s| && InsideChar(s, |s| - 1, i)
  }

  /** An offset is in at most one of three places:
      a character start, inside an earlier character, inside the last one;
      being in any of them puts it below the byte length. */
  lemma Exclusive(s: string, i: nat)
    ensures IsCharStart(s, i) ==> !InsideEarlierChar(s, i) && !InsideLastChar(s, i)
    ensures InsideEarlierChar(s, i) ==> !InsideLastChar(s, i)
    ensures IsCharStart(s, i) || InsideEarlierChar(s, i) || InsideLastChar(s, i) ==> i < ByteLen(s)
  {
    OffsetEnd(s);
    if IsCharStart(s, i) {
      var j :| 0 <= j < |s| && Offset(s, j) == i;
      OffsetIncreasing(s, j, |s|);
      forall k | 0 <= k < |s| && InsideChar(s, k, i)
        ensures false
      {
        if k < j {
          OffsetMonotone(s, k + 1, j);
        } else {
          OffsetMonotone(s, j, k);
        }
      }
    }
    if InsideEarlierChar(s, i) {
      var k :| 0 <= k && k + 1 < |s| && InsideChar(s, k, i);
      OffsetMonotone(s, k + 1, |s| - 1);
      OffsetMonotone(s, k + 1, |s|);
    }
  }

  /** `nth_char(string, index)`. The scan visits the start offsets in
      order, remembering the last one in `lastN`, and stops at the first
      offset equal to `index`; `token` keeps its `'\0'` placeholder until
      then. The three failure sites are told apart so that each check's
      role can be stated: the final assertion is the only one that catches
      an offset inside the LAST character. */
  method NthChar(s: string, index: nat) returns (r: Outcome)
    ensures r.Returned? <==> IsCharStart(s, index)
    ensures r.Returned? ==> forall k :: 0 <= k < |s| && Offset(s, k) == index ==> r.c == s[k]
    ensures r.Returned? ==> index + Utf8Len(r.c) <= ByteLen(s)
    ensures r == Panicked(IndexOutOfRange) <==> ByteLen(s) <= index
    ensures r == Panicked(PassedIndex) <==> InsideEarlierChar(s, index)
    ensures r == Panicked(LastStartMismatch) <==> InsideLastChar(s, index)
  {
    Exclusive(s, index);
    if !(ByteLen(s) > index) {
      return Panicked(IndexOutOfRange);
    }
    var token := '\0';
    var lastN := 0;
    var n := 0;
    var k := 0;
    while k < |s|
      invariant k <= |s|
      invariant n == Offset(s, k)
      invariant k == 0 ==> lastN == 0
      invariant 0 < k ==> lastN == Offset(s, k - 1) < index
    {
      lastN := n;
      if n == index {
        token := s[k];
        forall j | 0 <= j < |s| && Offset(s, j) == index
          ensures j == k
        {
          OffsetInjective(s, j, k);
        }
        OffsetIncreasing(s, k, |s|);
        OffsetEnd(s);
        break;
      } else if n > index {
        OffsetStep(s, k - 1);
        assert InsideChar(s, k - 1, index);
        return Panicked(PassedIndex);
      }
      OffsetStep(s, k);
      n := n + Utf8Len(s[k]);
      k := k + 1;
    }
    if lastN != index {
      OffsetEnd(s);
      OffsetStep(s, |s| - 1);
      assert InsideChar(s, |s| - 1, index);
      return Panicked(LastStartMismatch);
    }
    return Returned(token);
  }

  /** The closing assertion is not redundant: in "aé" byte 2 lies inside
      the last character, the scan runs out without passing it, and only
      `assert_eq!(last_n, index)` rejects it. In "éa" byte 1 lies inside an
      earlier character and the in-loop panic fires first. */
  lemma FinalAssertionNeeded()
    ensures InsideLastChar("a\U{E9}", 2) && !InsideEarlierChar("a\U{E9}", 2)
    ensures InsideEarlierChar("\U{E9}a", 1) && !InsideLastChar("\U{E9}a", 1)
  {
    var s, t := "a\U{E9}", "\U{E9}a";
    OffsetStep(s, 0);
    OffsetStep(s, 1);
    assert InsideChar(s, 1, 2);
    OffsetStep(t, 0);
    assert InsideChar(t, 0, 1);
    Exclusive(s, 2);
    Exclusive(t, 1);
  }
}
