/** The few JavaScript string operations the resolvers depend on, written out
    over Dafny strings (sequences of Unicode scalar values). */
module Text {

  /** Number of UTF-16 code units in `s`, which is what JavaScript's
      `String.prototype.length` counts: a character outside the Basic
      Multilingual Plane takes two. */
  function Utf16Length(s: string): (n: nat)
    ensures |s| <= n <= 2 * |s|
  {
    if |s| == 0 then 0
    else (if s[0] as int > 0xFFFF then 2 else 1) + Utf16Length(s[1..])
  }

  /** For text made only of Basic Multilingual Plane characters the JavaScript
      length is the number of characters. */
  lemma {:induction false} Utf16LengthOfBmp(s: string)
    requires forall i :: 0 <= i < |s| ==> s[i] as int <= 0xFFFF
    ensures Utf16Length(s) == |s|
  {
    if |s| > 0 {
      Utf16LengthOfBmp(s[1..]);
    }
  }

  predicate IsPrefix(p: string, s: string) {
    |p| <= |s| && s[..|p|] == p
  }

  /** `s.includes(f)`: `f` occurs in `s` as a contiguous substring. */
  predicate Contains(s: string, f: string)
    decreases |s|
  {
    IsPrefix(f, s) || (|s| > 0 && Contains(s[1..], f))
  }

  /** `f` occurs in `s` starting at position `i`. */
  predicate OccursAt(s: string, f: string, i: nat) {
    i + |f| <= |s| && s[i..i + |f|] == f
  }

  /** An occurrence at any position is found by `Contains`. */
  lemma {:induction false} ContainsAt(s: string, f: string, i: nat)
    requires OccursAt(s, f, i)
    ensures Contains(s, f)
    decreases i
  {
    if i == 0 {
      assert s[..|f|] == s[0..0 + |f|];
    } else {
      var t := s[1..];
      assert t[i - 1..i - 1 + |f|] == s[i..i + |f|];
      ContainsAt(t, f, i - 1);
    }
  }

  /** What `Contains` finds is an occurrence at some position. */
  lemma {:induction false} ContainsHasPosition(s: string, f: string) returns (i: nat)
    requires Contains(s, f)
    ensures OccursAt(s, f, i)
    decreases |s|
  {
    if IsPrefix(f, s) {
      i := 0;
      assert s[0..0 + |f|] == s[..|f|];
    } else {
      var j := ContainsHasPosition(s[1..], f);
      var t := s[1..];
      assert t[j..j + |f|] == s[j + 1..j + 1 + |f|];
      i := j + 1;
    }
  }

  /** The recursive definition of `Contains` agrees with "`f` occurs at some
      position of `s`", in both directions. */
  lemma ContainsIffOccurs(s: string, f: string)
    ensures Contains(s, f) <==> exists i: nat :: OccursAt(s, f, i)
  {
    if Contains(s, f) {
      var i := ContainsHasPosition(s, f);
    }
    forall i: nat | OccursAt(s, f, i)
      ensures Contains(s, f)
    {
      ContainsAt(s, f, i);
    }
  }

  /** A string is contained in any string that has it as a part. */
  lemma ContainsPart(a: string, f: string, b: string)
    ensures Contains(a + f + b, f)
  {
    assert OccursAt(a + f + b, f, |a|) by {
      assert (a + f + b)[|a|..|a| + |f|] == f;
    }
    ContainsAt(a + f + b, f, |a|);
  }

  /** The characters the JavaScript regular-expression class `\s` matches:
      the ECMAScript WhiteSpace and LineTerminator code points. */
  predicate IsJsWhitespace(c: char) {
    || c == ' ' || c == '\t' || c == '\n' || c == '\r'
    || c == '\U{000B}' || c == '\U{000C}' || c == '\U{00A0}' || c == '\U{1680}'
    || ('\U{2000}' <= c <= '\U{200A}')
    || c == '\U{2028}' || c == '\U{2029}' || c == '\U{202F}' || c == '\U{205F}'
    || c == '\U{3000}' || c == '\U{FEFF}'
  }

  predicate NoWhitespace(s: string) {
    forall i :: 0 <= i < |s| ==> !IsJsWhitespace(s[i])
  }

  /** `s.replace(/\s+/g, "")`: every run of whitespace removed, every other
      character kept in order. */
  function StripWhitespace(s: string): (r: string)
    ensures NoWhitespace(r)
    ensures |r| <= |s|
  {
    if |s| == 0 then ""
    else if IsJsWhitespace(s[0]) then StripWhitespace(s[1..])
    else [s[0]] + StripWhitespace(s[1..])
  }

  /** Stripping works piece by piece: what it does to a concatenation is what
      it does to each part. */
  lemma {:induction false} StripWhitespaceAppend(a: string, b: string)
    ensures StripWhitespace(a + b) == StripWhitespace(a) + StripWhitespace(b)
  {
    if |a| > 0 {
      assert (a + b)[1..] == a[1..] + b;
      StripWhitespaceAppend(a[1..], b);
    } else {
      assert a + b == b;
    }
  }

  /** Text with no whitespace comes through unchanged. */
  lemma {:induction false} StripWhitespaceKeeps(s: string)
    requires NoWhitespace(s)
    ensures StripWhitespace(s) == s
  {
    if |s| > 0 {
      StripWhitespaceKeeps(s[1..]);
    }
  }

  /** One whitespace character between two clean pieces disappears. */
  lemma StripWhitespaceSeparator(a: string, c: char, b: string)
    requires NoWhitespace(a) && NoWhitespace(b) && IsJsWhitespace(c)
    ensures StripWhitespace(a + [c] + b) == a + b
  {
    var x := a + [c];
    StripWhitespaceAppend(x, b);
    StripWhitespaceAppend(a, [c]);
    StripWhitespaceKeeps(a);
    StripWhitespaceKeeps(b);
    assert StripWhitespace([c]) == [] by {
      assert [c][1..] == [];
    }
    assert StripWhitespace(x) == a;
  }

  /** Stripping twice is stripping once. */
  lemma StripWhitespaceIdempotent(s: string)
    ensures StripWhitespace(StripWhitespace(s)) == StripWhitespace(s)
  {
    StripWhitespaceKeeps(StripWhitespace(s));
  }
}
