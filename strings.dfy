/**
 * The three string operations of the JavaScript runtime the core relies on:
 * `toLowerCase`, `includes` and `trim`. Lower-casing covers the ASCII letters;
 * trimming strips the ECMAScript white-space and line-terminator code points.
 */
module Strings {

  function LowerChar(ch: char): char
  {
    if 'A' <= ch <= 'Z' then (ch as int + 32) as char else ch
  }

  /** `String.prototype.toLowerCase`, restricted to ASCII letters. */
  function Lower(s: string): (r: string)
    ensures |r| == |s|
    ensures forall i :: 0 <= i < |s| ==> r[i] == LowerChar(s[i])
  {
    seq(|s|, i requires 0 <= i < |s| => LowerChar(s[i]))
  }

  /** No upper-case ASCII letter occurs in `s`. */
  predicate IsLowerCase(s: string)
  {
    forall i :: 0 <= i < |s| ==> !('A' <= s[i] <= 'Z')
  }

  /** Lower-casing yields lower-case text, and leaves lower-case text unchanged. */
  lemma LowerCaseFixpoints(s: string)
    ensures IsLowerCase(Lower(s))
    ensures Lower(s) == s <==> IsLowerCase(s)
    ensures Lower(Lower(s)) == Lower(s)
  {
    if IsLowerCase(s) {
      assert forall i :: 0 <= i < |s| ==> Lower(s)[i] == s[i];
    }
    assert forall i :: 0 <= i < |s| ==> Lower(Lower(s))[i] == Lower(s)[i];
  }

  /** `kw` occurs in `text` starting at position `i`. */
  predicate OccursAt(text: string, kw: string, i: int)
  {
    0 <= i && i + |kw| <= |text| && text[i..i + |kw|] == kw
  }

  /** `String.prototype.includes`: plain substring search, true for the empty needle. */
  predicate Contains(text: string, kw: string)
  {
    exists i :: 0 <= i <= |text| - |kw| && OccursAt(text, kw, i)
  }

  /** The empty needle is found in every text, the empty one included. */
  lemma ContainsEmpty(text: string)
    ensures Contains(text, "")
  {
    assert OccursAt(text, "", 0);
  }

  /** Containment is transitive: a text holding `outer` holds everything `outer` holds. */
  lemma ContainsTransitive(text: string, outer: string, inner: string)
    requires Contains(text, outer) && Contains(outer, inner)
    ensures Contains(text, inner)
  {
    var i :| 0 <= i <= |text| - |outer| && OccursAt(text, outer, i);
    var j :| 0 <= j <= |outer| - |inner| && OccursAt(outer, inner, j);
    forall k | 0 <= k < |inner|
      ensures text[i + j + k] == inner[k]
    {
      assert inner[k] == outer[j + k] == text[i..i + |outer|][j + k];
    }
    assert text[i + j..i + j + |inner|] == inner;
    assert OccursAt(text, inner, i + j);
  }

  /** A needle holding a character that the text lacks is not found in it. */
  lemma MissingCharNotFound(text: string, kw: string, ch: char)
    requires ch in kw && ch !in text
    ensures !Contains(text, kw)
  {
    var j :| 0 <= j < |kw| && kw[j] == ch;
    forall i | 0 <= i && i + |kw| <= |text|
      ensures !OccursAt(text, kw, i)
    {
      assert text[i + j] in text;
      assert text[i..i + |kw|][j] == text[i + j];
    }
  }

  /** What is found in a part of a text is found in the text. */
  lemma ContainsInConcat(x: string, y: string, kw: string)
    ensures Contains(x, kw) || Contains(y, kw) ==> Contains(x + y, kw)
  {
    if Contains(x, kw) {
      var i :| 0 <= i <= |x| - |kw| && OccursAt(x, kw, i);
      assert (x + y)[i..i + |kw|] == x[i..i + |kw|];
      assert OccursAt(x + y, kw, i);
    } else if Contains(y, kw) {
      var i :| 0 <= i <= |y| - |kw| && OccursAt(y, kw, i);
      assert (x + y)[|x| + i..|x| + i + |kw|] == y[i..i + |kw|];
      assert OccursAt(x + y, kw, |x| + i);
    }
  }

  /**
   * A needle found in two texts joined by a space lies in one of them, unless the
   * needle itself holds a space.
   */
  lemma ContainsAcrossSpace(x: string, y: string, kw: string)
    ensures Contains(x + " " + y, kw) ==> Contains(x, kw) || Contains(y, kw) || ' ' in kw
  {
    var t := x + " " + y;
    if Contains(t, kw) {
      var i :| 0 <= i <= |t| - |kw| && OccursAt(t, kw, i);
      if i + |kw| <= |x| {
        assert t[i..i + |kw|] == x[i..i + |kw|];
        assert OccursAt(x, kw, i);
      } else if i > |x| {
        assert t[i..i + |kw|] == y[i - |x| - 1..i - |x| - 1 + |kw|];
        assert OccursAt(y, kw, i - |x| - 1);
      } else {
        assert t[i..i + |kw|][|x| - i] == t[|x|] == ' ';
      }
    }
  }

  /** Every character of `s` belongs to `alphabet`. */
  ghost predicate Within(s: string, alphabet: set<char>)
  {
    forall i :: 0 <= i < |s| ==> s[i] in alphabet
  }

  lemma WithinConcat(x: string, y: string, alphabet: set<char>)
    requires Within(x, alphabet) && Within(y, alphabet)
    ensures Within(x + y, alphabet)
  {
  }

  /** A needle holding a character outside the text's alphabet is not found in it. */
  lemma OutsideAlphabetNotFound(text: string, alphabet: set<char>, kw: string, ch: char)
    requires Within(text, alphabet) && ch in kw && ch !in alphabet
    ensures !Contains(text, kw)
  {
    forall i | 0 <= i < |text|
      ensures text[i] != ch
    {
    }
    MissingCharNotFound(text, kw, ch);
  }

  /** Lower-casing works character by character, so it distributes over concatenation. */
  lemma LowerConcat(x: string, y: string)
    ensures Lower(x + y) == Lower(x) + Lower(y)
  {
    assert forall i :: 0 <= i < |x| + |y| ==> Lower(x + y)[i] == (Lower(x) + Lower(y))[i];
  }

  /** Lower-casing a text written in `alphabet` yields a text written in the lower-cased alphabet `lowered`. */
  lemma LowerWithin(s: string, alphabet: set<char>, lowered: set<char>)
    requires Within(s, alphabet)
    requires forall ch :: ch in alphabet ==> LowerChar(ch) in lowered
    ensures Within(Lower(s), lowered)
  {
  }

  /** The ECMAScript WhiteSpace and LineTerminator code points that `trim` removes. */
  predicate IsWhitespace(ch: char)
  {
    var n := ch as int;
    (9 <= n <= 13) || n == 0x20 || n == 0xA0 || n == 0x1680 || (0x2000 <= n <= 0x200A)
    || n == 0x2028 || n == 0x2029 || n == 0x202F || n == 0x205F || n == 0x3000 || n == 0xFEFF
  }

  function TrimStart(s: string): string
  {
    if |s| > 0 && IsWhitespace(s[0]) then TrimStart(s[1..]) else s
  }

  function TrimEnd(s: string): string
  {
    if |s| > 0 && IsWhitespace(s[|s| - 1]) then TrimEnd(s[..|s| - 1]) else s
  }

  /** `String.prototype.trim`. */
  function Trim(s: string): string
  {
    TrimEnd(TrimStart(s))
  }

  ghost predicate AllWhitespace(s: string)
  {
    forall i :: 0 <= i < |s| ==> IsWhitespace(s[i])
  }

  lemma {:induction false} TrimStartSlice(s: string)
    ensures var r := TrimStart(s);
      |r| <= |s| && r == s[|s| - |r|..] && AllWhitespace(s[..|s| - |r|])
      && (r != [] ==> !IsWhitespace(r[0]))
  {
    if |s| > 0 && IsWhitespace(s[0]) {
      TrimStartSlice(s[1..]);
      var r := TrimStart(s[1..]);
      assert s[1..][|s| - 1 - |r|..] == s[|s| - |r|..];
      assert s[..|s| - |r|] == [s[0]] + s[1..][..|s| - 1 - |r|];
    } else {
      assert s[..0] == [];
    }
  }

  lemma {:induction false} TrimEndSlice(s: string)
    ensures var r := TrimEnd(s);
      |r| <= |s| && r == s[..|r|] && AllWhitespace(s[|r|..])
      && (r != [] ==> !IsWhitespace(r[|r| - 1]))
  {
    if |s| > 0 && IsWhitespace(s[|s| - 1]) {
      TrimEndSlice(s[..|s| - 1]);
      var r := TrimEnd(s[..|s| - 1]);
      assert s[..|s| - 1][..|r|] == s[..|r|];
      assert s[|r|..] == s[..|s| - 1][|r|..] + [s[|s| - 1]];
    } else {
      assert s[|s|..] == [];
    }
  }

  /**
   * `Trim(s)` is the middle part of `s` left after removing white space from both
   * ends: the removed parts are white space and the kept part neither starts nor
   * ends with it. It is empty exactly when `s` is all white space.
   */
  lemma TrimSpec(s: string)
    ensures var r := Trim(s);
      exists i :: 0 <= i && i + |r| <= |s| && r == s[i..i + |r|]
        && AllWhitespace(s[..i]) && AllWhitespace(s[i + |r|..])
    ensures Trim(s) != [] ==> !IsWhitespace(Trim(s)[0]) && !IsWhitespace(Trim(s)[|Trim(s)| - 1])
    ensures Trim(s) == [] <==> AllWhitespace(s)
  {
    var t := TrimStart(s);
    TrimStartSlice(s);
    TrimEndSlice(t);
    var r := TrimEnd(t);
    var i := |s| - |t|;
    assert r == s[i..i + |r|];
    assert s[i + |r|..] == t[|r|..];
    if r == [] {
      assert s == s[..i] + t[|r|..];
    } else {
      assert !IsWhitespace(s[i]);
    }
  }
}
