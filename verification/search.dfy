/** Substring search, the `line.find(&pattern).is_some()` test of the
    substring-based error kinds. Rust searches the UTF-8 bytes; because
    UTF-8 is self-synchronising, a byte-level match of a valid pattern in a
    valid line always starts and ends on character boundaries, so searching
    the character sequence decides the same question. */
module Search {
  import opened Wrappers

  /** `pat` occurs in `s` (the empty pattern occurs everywhere). */
  ghost predicate Occurs(pat: string, s: string)
  {
    exists i :: 0 <= i <= |s| && pat <= s[i..]
  }

  /** `str::find`, counted in characters: the leftmost position at which
      `pat` occurs in `s`, or `None` when it occurs nowhere. */
  function Find(s: string, pat: string): (r: Option<nat>)
    ensures r.Some? <==> Occurs(pat, s)
    ensures r.Some? ==> r.value <= |s| && pat <= s[r.value..]
    ensures r.Some? ==> forall j :: 0 <= j < r.value ==> !(pat <= s[j..])
    decreases |s|
  {
    if pat <= s then
      assert s[0..] == s;
      Some(0)
    else if |s| == 0 then
      assert forall i :: 0 <= i <= |s| ==> s[i..] == s;
      None
    else
      assert forall i :: 1 <= i <= |s| ==> s[i..] == s[1..][i - 1..];
      match Find(s[1..], pat)
      case Some(i) => Some(i + 1)
      case None => None
  }
}
