/**
  The two facts about JavaScript strings the rest of the model relies on:
  what `String.prototype.trim` removes, and how `length` counts characters.
  Dafny strings are sequences of Unicode scalar values; JavaScript strings are
  sequences of UTF-16 code units, so a character outside the Basic Multilingual
  Plane has length 2 in JavaScript.
*/
module JsString {

  /** The characters `trim` removes: ECMAScript WhiteSpace and LineTerminator. */
  predicate IsSpace(c: char) {
    var n := c as int;
    || n == 0x09 || n == 0x0A || n == 0x0B || n == 0x0C || n == 0x0D
    || n == 0x20 || n == 0xA0 || n == 0x1680 || (0x2000 <= n <= 0x200A)
    || n == 0x2028 || n == 0x2029 || n == 0x202F || n == 0x205F
    || n == 0x3000 || n == 0xFEFF
  }

  /** Empty or whitespace-only. */
  predicate IsBlank(s: string) {
    forall k :: 0 <= k < |s| ==> IsSpace(s[k])
  }

  /** True when `s` neither starts nor ends with whitespace. */
  predicate HasNoEdgeSpace(s: string) {
    s == [] || (!IsSpace(s[0]) && !IsSpace(s[|s| - 1]))
  }

  /** `r` is `s` with a blank prefix and a blank suffix cut off, and `r` has no
      whitespace left at either end. */
  ghost predicate IsTrimOf(r: string, s: string) {
    && HasNoEdgeSpace(r)
    && exists i, j :: 0 <= i <= j <= |s| && r == s[i..j] && IsBlank(s[..i]) && IsBlank(s[j..])
  }

  /** The length of the whitespace run at the start of `s`. */
  function LeadingSpaces(s: string): (n: nat)
    ensures n <= |s|
    ensures forall k :: 0 <= k < n ==> IsSpace(s[k])
    ensures n < |s| ==> !IsSpace(s[n])
  {
    if |s| > 0 && IsSpace(s[0]) then 1 + LeadingSpaces(s[1..]) else 0
  }

  /** The length of the whitespace run at the end of `s`. */
  function TrailingSpaces(s: string): (n: nat)
    ensures n <= |s|
    ensures forall k :: |s| - n <= k < |s| ==> IsSpace(s[k])
    ensures n < |s| ==> !IsSpace(s[|s| - 1 - n])
  {
    if |s| > 0 && IsSpace(s[|s| - 1]) then 1 + TrailingSpaces(s[..|s| - 1]) else 0
  }

  /** A prefix made of whitespace is blank. */
  lemma BlankPrefix(s: string, n: int)
    requires 0 <= n <= |s|
    requires forall k :: 0 <= k < n ==> IsSpace(s[k])
    ensures IsBlank(s[..n])
  {
    assert forall k :: 0 <= k < n ==> s[..n][k] == s[k];
  }

  /** A suffix made of whitespace is blank. */
  lemma BlankSuffix(s: string, t: int)
    requires 0 <= t <= |s|
    requires forall k :: t <= k < |s| ==> IsSpace(s[k])
    ensures IsBlank(s[t..])
  {
    assert forall k :: t <= k < |s| ==> s[t..][k - t] == s[k];
  }

  /** The cut between the edge whitespace runs of a non-blank string has the
      properties `IsTrimOf` asks for. */
  lemma TrimCut(s: string, lead: int, t: int)
    requires lead == LeadingSpaces(s) < |s| && t == |s| - TrailingSpaces(s)
    ensures lead < t && !IsBlank(s)
    ensures HasNoEdgeSpace(s[lead..t])
    ensures IsBlank(s[..lead]) && IsBlank(s[t..])
  {
    assert !IsSpace(s[lead]);
    assert lead < t;
    var r := s[lead..t];
    assert r[0] == s[lead] && r[|r| - 1] == s[t - 1];
    assert !IsSpace(r[0]) && !IsSpace(r[|r| - 1]);
    BlankPrefix(s, lead);
    BlankSuffix(s, t);
  }

  /** `String.prototype.trim`. */
  function Trim(s: string): (r: string)
    ensures |r| <= |s|
    ensures r == [] <==> IsBlank(s)
    ensures IsTrimOf(r, s)
    // A string that is not blank keeps what lies between its edge whitespace runs.
    ensures LeadingSpaces(s) < |s| ==> r == s[LeadingSpaces(s)..|s| - TrailingSpaces(s)]
  {
    var lead := LeadingSpaces(s);
    if lead == |s| then
      assert s[..0] == [] && s[0..0] == [] && s[0..] == s;
      []
    else
      var t := |s| - TrailingSpaces(s);
      TrimCut(s, lead, t);
      s[lead..t]
  }

  /** Where a trim of a non-blank string starts and ends is determined by `s`. */
  lemma TrimBounds(s: string, i: int, j: int)
    requires 0 <= i < j <= |s|
    requires IsBlank(s[..i]) && IsBlank(s[j..])
    requires !IsSpace(s[i]) && !IsSpace(s[j - 1])
    ensures i == LeadingSpaces(s) && j == |s| - TrailingSpaces(s)
  {
    assert forall k :: 0 <= k < i ==> IsSpace(s[k]) by {
      assert forall k :: 0 <= k < i ==> s[..i][k] == s[k];
    }
    assert forall k :: j <= k < |s| ==> IsSpace(s[k]) by {
      assert forall k :: j <= k < |s| ==> s[j..][k - j] == s[k];
    }
  }

  /** Trimming a string without edge whitespace changes nothing. */
  lemma TrimNoEdgeSpace(s: string)
    requires HasNoEdgeSpace(s)
    ensures Trim(s) == s
  {
    if s != [] {
      assert LeadingSpaces(s) == 0;
      assert TrailingSpaces(s) == 0;
    }
  }

  /** Trimming twice is trimming once. */
  lemma TrimIdempotent(s: string)
    ensures Trim(Trim(s)) == Trim(s)
  {
    TrimNoEdgeSpace(Trim(s));
  }

  /** A blank prefix and a blank suffix that meet cover a blank string. */
  lemma BlankSplit(s: string, i: int, j: int)
    requires 0 <= i <= j <= |s| && i == j
    requires IsBlank(s[..i]) && IsBlank(s[j..])
    ensures IsBlank(s)
  {
    assert forall k :: 0 <= k < i ==> s[..i][k] == s[k];
    assert forall k :: i <= k < |s| ==> s[j..][k - j] == s[k];
  }

  /** A cut of `s` at given bounds that satisfies `IsTrimOf` is `Trim(s)`. */
  lemma TrimUniqueAt(r: string, s: string, i: int, j: int)
    requires 0 <= i <= j <= |s| && r == s[i..j] && IsBlank(s[..i]) && IsBlank(s[j..])
    requires HasNoEdgeSpace(r)
    ensures r == Trim(s)
  {
    if i == j {
      BlankSplit(s, i, j);
    } else {
      assert s[i] == r[0] && s[j - 1] == r[|r| - 1];
      TrimBounds(s, i, j);
    }
  }

  /** The characterisation `IsTrimOf` has exactly one solution: `Trim`. */
  lemma TrimUnique(r: string, s: string)
    requires IsTrimOf(r, s)
    ensures r == Trim(s)
  {
    var i, j :| 0 <= i <= j <= |s| && r == s[i..j] && IsBlank(s[..i]) && IsBlank(s[j..]);
    TrimUniqueAt(r, s, i, j);
  }

  /** A character's length in UTF-16 code units. */
  function Utf16Units(c: char): nat {
    if c as int > 0xFFFF then 2 else 1
  }

  /** JavaScript's `length`: the number of UTF-16 code units. */
  function Utf16Length(s: string): (n: nat)
    ensures |s| <= n <= 2 * |s|
    ensures n == |s| <==> forall k :: 0 <= k < |s| ==> s[k] as int <= 0xFFFF
  {
    if s == [] then 0 else Utf16Units(s[0]) + Utf16Length(s[1..])
  }

  /** A single character is one code unit, or two (a surrogate pair) above U+FFFF. */
  lemma Utf16LengthChar(c: char)
    ensures Utf16Length([c]) == if c as int > 0xFFFF then 2 else 1
  {
    assert [c][1..] == [];
  }

  /** Length adds up over concatenation; with `Utf16LengthChar` this fixes
      the length of every string as its number of UTF-16 code units. */
  lemma {:induction false} Utf16LengthAppend(a: string, b: string)
    ensures Utf16Length(a + b) == Utf16Length(a) + Utf16Length(b)
  {
    if a == [] {
      assert a + b == b;
    } else {
      assert (a + b)[0] == a[0] && (a + b)[1..] == a[1..] + b;
      Utf16LengthAppend(a[1..], b);
    }
  }
}
