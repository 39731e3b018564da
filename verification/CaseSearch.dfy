/** The skip-ahead, ASCII-case-insensitive substring search behind `oil search`. */
module CaseSearch {
  import opened Common

  function Lower(b: byte): byte {
    if 65 <= b <= 90 then b + 32 else b
  }

  function Upper(b: byte): byte {
    if 97 <= b <= 122 then b - 32 else b
  }

  /** The same byte, or one letter in both cases. */
  predicate SameLetter(a: byte, b: byte) {
    a == b || (65 <= a <= 90 && b == a + 32) || (65 <= b <= 90 && a == b + 32)
  }

  /** `eq_ignore_ascii_case`. */
  predicate SameLetters(a: seq<byte>, b: seq<byte>) {
    |a| == |b| && forall i :: 0 <= i < |a| ==> SameLetter(a[i], b[i])
  }

  /** The naive definition: the needle matches the window at `i`. */
  predicate MatchesAt(haystack: seq<byte>, needle: seq<byte>, i: int) {
    0 <= i <= |haystack| - |needle| && SameLetters(haystack[i..i + |needle|], needle)
  }

  /** `memchr2`: the first position in `s` holding either byte. */
  method FindEither(a: byte, b: byte, s: seq<byte>) returns (r: Option<nat>)
    ensures r.Some? ==> r.value < |s| && (s[r.value] == a || s[r.value] == b)
    ensures forall i :: 0 <= i < (if r.Some? then r.value else |s|) ==> s[i] != a && s[i] != b
  {
    for i := 0 to |s|
      invariant forall j :: 0 <= j < i ==> s[j] != a && s[j] != b
    {
      if s[i] == a || s[i] == b {
        return Some(i);
      }
    }
    r := None;
  }

  lemma MatchSplits(haystack: seq<byte>, needle: seq<byte>, i: nat)
    requires needle != [] && i + |needle| <= |haystack|
    ensures MatchesAt(haystack, needle, i) <==>
            SameLetter(haystack[i], needle[0]) && SameLetters(haystack[i + 1..i + |needle|], needle[1..])
  {
    var window, tail := haystack[i..i + |needle|], haystack[i + 1..i + |needle|];
    assert window == [haystack[i]] + tail && needle == [needle[0]] + needle[1..];
    assert forall j :: 1 <= j < |needle| ==> window[j] == tail[j - 1] && needle[j] == needle[1..][j - 1];
    if SameLetters(window, needle) {
      forall j | 0 <= j < |tail| ensures SameLetter(tail[j], needle[1..][j]) {
        assert window[j + 1] == tail[j + 1 - 1];
      }
    }
  }

  /** `contains_ignore_ascii_case`: true exactly when some window matches; skipping to the next occurrence of the
      first byte misses none, and every slice is in bounds. */
  method ContainsIgnoreCase(haystack: seq<byte>, needle: seq<byte>) returns (found: bool)
    ensures found <==> exists i :: MatchesAt(haystack, needle, i)
  {
    if needle == [] {
      assert MatchesAt(haystack, needle, 0);
      return true;
    }
    if |haystack| < |needle| {
      return false;
    }
    var firstLower, firstUpper := Lower(needle[0]), Upper(needle[0]);
    var tail := needle[1..];
    var pos := 0;
    while pos + |needle| <= |haystack|
      invariant 0 <= pos <= |haystack| - |needle| + 1
      invariant forall i :: 0 <= i < pos ==> !MatchesAt(haystack, needle, i)
    {
      var rest := haystack[pos..|haystack| - |needle| + 1];
      var hit := FindEither(firstLower, firstUpper, rest);
      var skip := if hit.Some? then hit.value else |rest|;
      forall i | pos <= i < pos + skip
        ensures !MatchesAt(haystack, needle, i)
      {
        assert rest[i - pos] == haystack[i];
        MatchSplits(haystack, needle, i);
      }
      if hit.None? {
        break;
      }
      pos := pos + hit.value;
      MatchSplits(haystack, needle, pos);
      if SameLetters(haystack[pos + 1..pos + |needle|], tail) {
        return true;
      }
      pos := pos + 1;
    }
    assert forall i :: MatchesAt(haystack, needle, i) ==> 0 <= i <= |haystack| - |needle|;
    found := false;
  }
}
