/** JavaScript's `String.prototype.trim`, used on card names, set names, rarities and message texts. */
module Text {

  /**
   * The code points `trim` removes: the ECMAScript WhiteSpace set (tab, vertical tab,
   * form feed, the byte order mark and every space separator of category Zs) and the
   * LineTerminator set (line feed, carriage return, line and paragraph separators).
   */
  predicate IsSpace(c: char)
  {
    var n := c as int;
    n == 0x09 || n == 0x0A || n == 0x0B || n == 0x0C || n == 0x0D || n == 0x20 ||
    n == 0xA0 || n == 0x1680 || (0x2000 <= n <= 0x200A) || n == 0x2028 || n == 0x2029 ||
    n == 0x202F || n == 0x205F || n == 0x3000 || n == 0xFEFF
  }

  /** Every character of `s` is white space (vacuously so for ""). */
  predicate IsBlank(s: string)
  {
    forall i :: 0 <= i < |s| ==> IsSpace(s[i])
  }

  /** How many white-space characters `s` starts with. */
  function LeadingSpace(s: string): (n: nat)
    ensures n <= |s|
    ensures forall i :: 0 <= i < n ==> IsSpace(s[i])
    ensures n == |s| || !IsSpace(s[n])
  {
    if s != [] && IsSpace(s[0]) then
      var n := LeadingSpace(s[1..]);
      assert forall i :: 1 <= i < n + 1 ==> s[i] == s[1..][i - 1];
      n + 1
    else 0
  }

  /** How many white-space characters `s` ends with. */
  function TrailingSpace(s: string): (n: nat)
    ensures n <= |s|
    ensures forall i :: |s| - n <= i < |s| ==> IsSpace(s[i])
    ensures n == |s| || !IsSpace(s[|s| - n - 1])
  {
    if s != [] && IsSpace(s[|s| - 1]) then
      var n := TrailingSpace(s[..|s| - 1]);
      assert forall i :: |s| - 1 - n <= i < |s| - 1 ==> s[i] == s[..|s| - 1][i];
      n + 1
    else 0
  }

  /**
   * `s.trim()`: `s` without its leading and its trailing white space. The result is
   * empty or starts and ends with a character that is not white space;
   * `TrimRemovesOuterSpace` says it is the slice of `s` between white-space borders.
   */
  function Trim(s: string): (r: string)
    ensures |r| <= |s|
    ensures r == [] || (!IsSpace(r[0]) && !IsSpace(r[|r| - 1]))
  {
    var t := s[LeadingSpace(s)..];
    t[..|t| - TrailingSpace(t)]
  }

  /** What `trim` removes is white space, on both sides of the slice it keeps. */
  lemma TrimRemovesOuterSpace(s: string)
    ensures exists k :: 0 <= k <= |s| - |Trim(s)| && Trim(s) == s[k..k + |Trim(s)|]
                          && IsBlank(s[..k]) && IsBlank(s[k + |Trim(s)|..])
  {
    var k := LeadingSpace(s);
    var t := s[k..];
    var r := Trim(s);
    assert r == s[k..k + |r|];
    var before := s[..k];
    forall i | 0 <= i < |before| ensures IsSpace(before[i]) {
      assert before[i] == s[i];
    }
    var after := s[k + |r|..];
    forall i | 0 <= i < |after| ensures IsSpace(after[i]) {
      assert after[i] == t[|r| + i];
    }
    assert 0 <= k <= |s| - |r| && r == s[k..k + |r|] && IsBlank(s[..k]) && IsBlank(s[k + |r|..]);
  }

  /** A string trims to "" exactly when it is all white space. */
  lemma TrimEmptyIffBlank(s: string)
    ensures Trim(s) == [] <==> IsBlank(s)
  {
    var k := LeadingSpace(s);
    var t := s[k..];
    // Unless nothing follows the leading white space, it is followed by a character that is not.
    assert |t| > 0 ==> t[0] == s[k];
    if Trim(s) != [] {
      assert s[k] == Trim(s)[0];
    }
  }

  /** Trimming twice is trimming once. */
  lemma TrimIdempotent(s: string)
    ensures Trim(Trim(s)) == Trim(s)
  {
    var r := Trim(s);
    assert LeadingSpace(r) == 0;
    assert r[0..] == r;
    assert TrailingSpace(r) == 0;
  }
}
