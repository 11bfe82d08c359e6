/** The two `str` operations the loader relies on: `trim`, which strips
    `char::is_whitespace` characters from both ends, and `contains`, the
    substring test. */
module Text {

  /** `char::is_whitespace`: space, U+0009..U+000D, and above U+007F the
      characters with the Unicode White_Space property. */
  predicate IsWhitespace(c: char) {
    var v := c as int;
    || v == 0x20
    || 0x09 <= v <= 0x0D
    || (v > 0x7F &&
        (|| v == 0x85 || v == 0xA0 || v == 0x1680
         || 0x2000 <= v <= 0x200A
         || v == 0x2028 || v == 0x2029 || v == 0x202F || v == 0x205F
         || v == 0x3000))
  }

  /** Every character of `s` from index `lo` up to `hi` is whitespace. */
  predicate WhitespaceBetween(s: string, lo: int, hi: int)
    requires 0 <= lo && hi <= |s|
  {
    forall k :: lo <= k < hi ==> IsWhitespace(s[k])
  }

  predicate AllWhitespace(s: string) {
    WhitespaceBetween(s, 0, |s|)
  }

  /** Neither end of `s` is a whitespace character. */
  predicate Trimmed(s: string) {
    s == [] || (!IsWhitespace(s[0]) && !IsWhitespace(s[|s| - 1]))
  }

  /** `str::trim_start`: drops the longest all-whitespace prefix. */
  function TrimStart(s: string): (r: string)
    ensures |r| <= |s| && r == s[|s| - |r|..]
    ensures WhitespaceBetween(s, 0, |s| - |r|)
    ensures r == [] || !IsWhitespace(r[0])
    decreases |s|
  {
    if |s| > 0 && IsWhitespace(s[0]) then TrimStart(s[1..]) else s
  }

  /** `str::trim_end`: drops the longest all-whitespace suffix. */
  function TrimEnd(s: string): (r: string)
    ensures |r| <= |s| && r == s[..|r|]
    ensures WhitespaceBetween(s, |r|, |s|)
    ensures r == [] || !IsWhitespace(r[|r| - 1])
    decreases |s|
  {
    if |s| > 0 && IsWhitespace(s[|s| - 1]) then TrimEnd(s[..|s| - 1]) else s
  }

  /** `r` sits in `s` at index `i`, everything of `s` around it is
      whitespace, and `r` has no whitespace left at either end. */
  predicate TrimAt(r: string, s: string, i: int) {
    && Trimmed(r)
    && 0 <= i <= |s| - |r| && s[i..i + |r|] == r
    && WhitespaceBetween(s, 0, i) && WhitespaceBetween(s, i + |r|, |s|)
  }

  ghost predicate IsTrimOf(r: string, s: string) {
    exists i :: TrimAt(r, s, i)
  }

  /** `str::trim`. */
  function Trim(s: string): (r: string)
    ensures IsTrimOf(r, s)
  {
    var t := TrimStart(s);
    var r := TrimEnd(t);
    var i := |s| - |t|;
    assert s[i..i + |r|] == r;
    assert TrimAt(r, s, i);
    r
  }

  /** Two trims of the same string coincide. */
  lemma TrimAtUnique(r: string, t: string, s: string, i: int, j: int)
    requires TrimAt(r, s, i) && TrimAt(t, s, j)
    ensures r == t
  {
    if r != [] && t != [] {
      assert s[i] == r[0] && s[j] == t[0];
      assert i == j;
      assert s[i + |r| - 1] == r[|r| - 1] && s[j + |t| - 1] == t[|t| - 1];
      assert |r| == |t|;
    }
  }

  /** `IsTrimOf` pins the result down: `Trim` is the only function meeting
      its own contract. */
  lemma TrimUnique(r: string, s: string)
    ensures IsTrimOf(r, s) <==> r == Trim(s)
  {
    if IsTrimOf(r, s) {
      var t := Trim(s);
      var i :| TrimAt(r, s, i);
      var j :| TrimAt(t, s, j);
      TrimAtUnique(r, t, s, i, j);
    }
  }

  /** A string without whitespace at either end is its own trim. */
  lemma TrimOfTrimmed(s: string)
    requires Trimmed(s)
    ensures Trim(s) == s
  {
    assert s[0..0 + |s|] == s;
    assert TrimAt(s, s, 0);
    TrimUnique(s, s);
  }

  /** Trimming twice is trimming once. */
  lemma TrimIdempotent(s: string)
    ensures Trim(Trim(s)) == Trim(s)
  {
    TrimOfTrimmed(Trim(s));
  }

  /** Trimming leaves nothing exactly when there was nothing but whitespace. */
  lemma TrimEmptyIff(s: string)
    ensures Trim(s) == [] <==> AllWhitespace(s)
  {
    if AllWhitespace(s) {
      assert TrimAt([], s, 0);
      TrimUnique([], s);
    }
    if Trim(s) == [] {
      var i :| TrimAt([], s, i);
    }
  }

  /** A character of the trimmed string is a character of the original. */
  lemma TrimKeeps(s: string, c: char)
    requires c in Trim(s)
    ensures c in s
  {
    var r := Trim(s);
    var i :| TrimAt(r, s, i);
    var k :| 0 <= k < |r| && r[k] == c;
    assert s[i + k] == c;
  }

  /** Trimming `s` followed by whitespace is trimming `s`. */
  lemma TrimDropsTrailing(s: string, w: char)
    requires IsWhitespace(w)
    ensures Trim(s + [w]) == Trim(s)
  {
    var t := Trim(s);
    var i :| TrimAt(t, s, i);
    var sw := s + [w];
    assert sw[i..i + |t|] == t;
    assert TrimAt(t, sw, i);
    TrimUnique(t, sw);
  }

  // ---------------------------------------------------------------------
  // Substrings

  /** `t` occurs in `s` starting at index `i`. */
  predicate OccursAt<T(==)>(t: seq<T>, s: seq<T>, i: int) {
    0 <= i <= |s| - |t| && s[i..i + |t|] == t
  }

  ghost predicate IsSubstring<T>(t: seq<T>, s: seq<T>) {
    exists i :: OccursAt(t, s, i)
  }

  /** `str::contains` with a string pattern. */
  function Contains(s: string, t: string): (b: bool)
    ensures b <==> IsSubstring(t, s)
    decreases |s|
  {
    if |t| > |s| then false
    else if s[..|t|] == t then
      assert OccursAt(t, s, 0);
      true
    else
      var b := Contains(s[1..], t);
      assert IsSubstring(t, s[1..]) ==> IsSubstring(t, s) by {
        if IsSubstring(t, s[1..]) {
          var i :| OccursAt(t, s[1..], i);
          assert s[i + 1..i + 1 + |t|] == s[1..][i..i + |t|];
          assert OccursAt(t, s, i + 1);
        }
      }
      assert IsSubstring(t, s) ==> IsSubstring(t, s[1..]) by {
        if IsSubstring(t, s) {
          var i :| OccursAt(t, s, i);
          assert i != 0;
          assert s[1..][i - 1..i - 1 + |t|] == s[i..i + |t|];
          assert OccursAt(t, s[1..], i - 1);
        }
      }
      b
  }

  /** Every string contains the empty string. */
  lemma ContainsEmpty(s: string)
    ensures Contains(s, [])
  {
    assert OccursAt([], s, 0);
  }

  /** Only the empty string is contained in the empty string. */
  lemma EmptyContains(t: string)
    ensures Contains([], t) <==> t == []
  {
    ContainsEmpty([]);
  }
}
