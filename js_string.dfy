/**
 * `String.prototype.trim` and the `length` property, over strings of
 * Unicode scalar values: `trim` cuts ECMAScript whitespace from both ends,
 * and `length` counts UTF-16 code units.
 */
module JsString {
  /**
   * The characters `trim` removes: ECMAScript WhiteSpace (TAB, VT, FF,
   * ZWNBSP and the Space_Separator category) and LineTerminator (LF, CR,
   * LS, PS).
   */
  predicate IsWhitespace(c: char) {
    c == '\t' || c == '\U{000B}' || c == '\U{000C}' || c == ' ' || c == '\U{00A0}' || c == '\U{FEFF}' ||
    c == '\U{1680}' || ('\U{2000}' <= c <= '\U{200A}') || c == '\U{202F}' || c == '\U{205F}' || c == '\U{3000}' ||
    c == '\n' || c == '\r' || c == '\U{2028}' || c == '\U{2029}'
  }

  /** Every character of `s` from position `lo` up to `hi` is whitespace. */
  predicate WhitespaceBetween(s: string, lo: int, hi: int) {
    forall m :: lo <= m < hi && 0 <= m < |s| ==> IsWhitespace(s[m])
  }

  /** The number of whitespace characters at the start of `s`. */
  function LeadingWhitespace(s: string): (k: nat)
    ensures k <= |s|
    ensures forall m :: 0 <= m < k ==> IsWhitespace(s[m])
    ensures k < |s| ==> !IsWhitespace(s[k])
  {
    if s == [] || !IsWhitespace(s[0]) then 0 else 1 + LeadingWhitespace(s[1..])
  }

  /** The number of whitespace characters at the end of `s`. */
  function TrailingWhitespace(s: string): (k: nat)
    ensures k <= |s|
    ensures forall m :: |s| - k <= m < |s| ==> IsWhitespace(s[m])
    ensures k < |s| ==> !IsWhitespace(s[|s| - 1 - k])
  {
    if s == [] || !IsWhitespace(s[|s| - 1]) then 0
    else
      var k := TrailingWhitespace(s[..|s| - 1]);
      assert forall m :: |s| - 1 - k <= m < |s| - 1 ==> s[m] == s[..|s| - 1][m];
      1 + k
  }

  /**
   * `s.trim()`: the part of `s` left once whitespace is removed from both
   * ends. The result is the piece of `s` starting after its leading
   * whitespace, everything cut away on either side is whitespace, and the
   * result neither starts nor ends with whitespace.
   */
  function Trim(s: string): (t: string)
    ensures |t| <= |s|
    ensures t != [] ==> !IsWhitespace(t[0]) && !IsWhitespace(t[|t| - 1])
    ensures var i := LeadingWhitespace(s);
      i + |t| <= |s| && t == s[i..i + |t|] && WhitespaceBetween(s, 0, i) && WhitespaceBetween(s, i + |t|, |s|)
  {
    var lead, trail := LeadingWhitespace(s), TrailingWhitespace(s);
    WhitespaceOutside(s);
    if lead == |s| then
      []
    else
      s[lead..|s| - trail]
  }

  /** The whitespace prefix and suffix do not overlap. */
  lemma WhitespaceOutside(s: string)
    ensures LeadingWhitespace(s) < |s| ==> LeadingWhitespace(s) < |s| - TrailingWhitespace(s)
  {
    if LeadingWhitespace(s) < |s| {
      assert !IsWhitespace(s[LeadingWhitespace(s)]);
    }
  }

  /**
   * `s.length` in JavaScript: the number of UTF-16 code units, where a
   * character above U+FFFF takes a surrogate pair.
   */
  function Utf16Length(s: string): (n: nat)
    ensures |s| <= n <= 2 * |s|
  {
    if s == [] then 0
    else
      (if s[0] < '\U{10000}' then 1 else 2) + Utf16Length(s[1..])
  }

  /** Without characters above U+FFFF, the code-unit length is the character count. */
  lemma {:induction false} Utf16LengthOfBmp(s: string)
    requires forall c :: c in s ==> c < '\U{10000}'
    ensures Utf16Length(s) == |s|
  {
    if s != [] {
      assert s[0] in s;
      assert forall c :: c in s[1..] ==> c in s;
      Utf16LengthOfBmp(s[1..]);
    }
  }

  /** A single character takes one code unit up to U+FFFF and a surrogate pair above. */
  lemma Utf16LengthOfChar(c: char)
    ensures Utf16Length([c]) == if c < '\U{10000}' then 1 else 2
  {
    assert [c][1..] == [];
  }

  /** The positions of `s` holding a character above U+FFFF. */
  ghost function AstralPositions(s: string): set<int> {
    set i | 0 <= i < |s| && s[i] >= '\U{10000}'
  }

  /**
   * `s.length` is one code unit per character, plus one more for every
   * character above U+FFFF.
   */
  lemma {:induction false} Utf16LengthCountsAstral(s: string)
    ensures Utf16Length(s) == |s| + |AstralPositions(s)|
  {
    if s == [] {
      assert AstralPositions(s) == {};
    } else {
      var p, c := s[..|s| - 1], s[|s| - 1];
      assert s == p + [c];
      Utf16LengthCountsAstral(p);
      Utf16LengthAppend(p, [c]);
      Utf16LengthOfChar(c);
      if c >= '\U{10000}' {
        assert AstralPositions(s) == AstralPositions(p) + {|p|};
        assert |p| !in AstralPositions(p);
      } else {
        assert AstralPositions(s) == AstralPositions(p);
      }
    }
  }

  /** Code-unit length adds up over concatenation. */
  lemma {:induction false} Utf16LengthAppend(a: string, b: string)
    ensures Utf16Length(a + b) == Utf16Length(a) + Utf16Length(b)
  {
    if a == [] {
      assert a + b == b;
    } else {
      assert (a + b)[1..] == a[1..] + b;
      Utf16LengthAppend(a[1..], b);
    }
  }

  /**
   * `s` holds two non-whitespace characters, the second no earlier than
   * the first, such that the stretch from the first to the second measures
   * more than `n` UTF-16 code units.
   */
  predicate NonBlankSpanLongerThan(s: string, n: nat) {
    exists i, j :: 0 <= i <= j < |s| && !IsWhitespace(s[i]) && !IsWhitespace(s[j]) && Utf16Length(s[i..j + 1]) > n
  }

  /** A slice of a slice measures no more code units than the enclosing slice. */
  lemma Utf16LengthWithin(s: string, lo: nat, i: nat, j: nat, hi: nat)
    requires lo <= i <= j <= hi <= |s|
    ensures Utf16Length(s[i..j]) <= Utf16Length(s[lo..hi])
  {
    assert s[lo..hi] == s[lo..i] + (s[i..j] + s[j..hi]);
    Utf16LengthAppend(s[lo..i], s[i..j] + s[j..hi]);
    Utf16LengthAppend(s[i..j], s[j..hi]);
  }

  /** `s.trim().length > n`, counted in UTF-16 code units, exactly when `s` has such a stretch. */
  lemma TrimmedLengthExceeds(s: string, n: nat)
    ensures Utf16Length(Trim(s)) > n <==> NonBlankSpanLongerThan(s, n)
  {
    if Utf16Length(Trim(s)) > n {
      TrimmedStretch(s, n);
    }
    if NonBlankSpanLongerThan(s, n) {
      var i, j :| 0 <= i <= j < |s| && !IsWhitespace(s[i]) && !IsWhitespace(s[j]) && Utf16Length(s[i..j + 1]) > n;
      StretchWithinTrim(s, i, j);
    }
  }

  lemma TrimmedStretch(s: string, n: nat)
    requires Utf16Length(Trim(s)) > n
    ensures NonBlankSpanLongerThan(s, n)
  {
    var t, lead := Trim(s), LeadingWhitespace(s);
    var j := lead + |t| - 1;
    assert t[0] == s[lead] && t[|t| - 1] == s[j];
    assert s[lead..j + 1] == t;
  }

  lemma StretchWithinTrim(s: string, i: nat, j: nat)
    requires i <= j < |s| && !IsWhitespace(s[i]) && !IsWhitespace(s[j])
    ensures Utf16Length(s[i..j + 1]) <= Utf16Length(Trim(s))
  {
    var t, lead := Trim(s), LeadingWhitespace(s);
    assert lead <= i by {
      assert forall m :: 0 <= m < lead ==> IsWhitespace(s[m]);
    }
    assert j < lead + |t| by {
      assert WhitespaceBetween(s, lead + |t|, |s|);
    }
    Utf16LengthWithin(s, lead, i, j + 1, lead + |t|);
  }
}
