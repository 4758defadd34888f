/** String primitives the quiz engine relies on: JavaScript's `toLowerCase`,
    `trim` and `includes`, over the part of Unicode the quiz deals with. */
module Text {

  /** The characters `String.prototype.trim` removes: ECMAScript's WhiteSpace
      (TAB, VT, FF, SPACE, NBSP, ZWNBSP and the Zs category) and LineTerminator
      (LF, CR, LS, PS) code points. */
  predicate IsWhitespace(c: char) {
    c == '\t' || c == '\n' || c == '\U{B}' || c == '\U{C}' || c == '\r' || c == ' '
    || c == '\U{A0}' || c == '\U{1680}' || ('\U{2000}' <= c <= '\U{200A}')
    || c == '\U{2028}' || c == '\U{2029}' || c == '\U{202F}' || c == '\U{205F}'
    || c == '\U{3000}' || c == '\U{FEFF}'
  }

  /** The upper-case letters whose lower-case mapping is modelled: A-Z, the
      Latin-1 capitals U+00C0..U+00DE (which include Ä, Ö, Ü; U+00D7 is the
      multiplication sign) and the capital sharp s U+1E9E. */
  predicate IsUpper(c: char) {
    ('A' <= c <= 'Z') || ('\U{C0}' <= c <= '\U{DE}' && c != '\U{D7}') || c == '\U{1E9E}'
  }

  /** Lower-case mapping of one character, as `toLowerCase` does it on the
      modelled subset: every capital becomes its small letter, ẞ becomes ß,
      and every other character is left alone. */
  function ToLower(c: char): (r: char)
    ensures !IsUpper(r)
    ensures r == c <==> !IsUpper(c)
    ensures IsWhitespace(c) ==> r == c
    ensures 'A' <= c <= 'Z' ==> r == "abcdefghijklmnopqrstuvwxyz"[c as int - 'A' as int]
    ensures c == '\U{C4}' ==> r == '\U{E4}'  // Ä to ä
    ensures c == '\U{D6}' ==> r == '\U{F6}'  // Ö to ö
    ensures c == '\U{DC}' ==> r == '\U{FC}'  // Ü to ü
    ensures c == '\U{1E9E}' ==> r == '\U{DF}'  // ẞ to ß
  {
    if 'A' <= c <= 'Z' || ('\U{C0}' <= c <= '\U{DE}' && c != '\U{D7}') then
      (c as int + 32) as char
    else if c == '\U{1E9E}' then
      '\U{DF}'
    else
      c
  }

  /** `s.toLowerCase()`: character by character, length preserved. */
  function LowerCase(s: string): (r: string)
    ensures |r| == |s|
    ensures forall i :: 0 <= i < |s| ==> r[i] == ToLower(s[i])
    ensures forall i :: 0 <= i < |r| ==> !IsUpper(r[i])
    ensures (forall i :: 0 <= i < |s| ==> !IsUpper(s[i])) ==> r == s
  {
    seq(|s|, i requires 0 <= i < |s| => ToLower(s[i]))
  }

  /** Lower-casing distributes over concatenation. */
  lemma LowerCaseAppend(a: string, b: string)
    ensures LowerCase(a + b) == LowerCase(a) + LowerCase(b)
  {
    assert forall i :: 0 <= i < |a + b| ==> LowerCase(a + b)[i] == (LowerCase(a) + LowerCase(b))[i];
  }

  /** Whitespace-only text is unchanged by lower-casing. */
  lemma LowerCaseWhitespace(s: string)
    requires forall i :: 0 <= i < |s| ==> IsWhitespace(s[i])
    ensures LowerCase(s) == s
  {
  }

  /** Leading whitespace removal: the result is the suffix of `s` that starts
      at its first non-whitespace character. */
  function TrimStart(s: string): (r: string)
    ensures |r| <= |s| && r == s[|s| - |r|..]
    ensures forall i :: 0 <= i < |s| - |r| ==> IsWhitespace(s[i])
    ensures r != [] ==> !IsWhitespace(r[0])
    decreases |s|
  {
    if s != [] && IsWhitespace(s[0]) then TrimStart(s[1..]) else s
  }

  /** Trailing whitespace removal: the result is the prefix of `s` that ends
      at its last non-whitespace character. */
  function TrimEnd(s: string): (r: string)
    ensures |r| <= |s| && r == s[..|r|]
    ensures forall i :: |r| <= i < |s| ==> IsWhitespace(s[i])
    ensures r != [] ==> !IsWhitespace(r[|r| - 1])
    decreases |s|
  {
    if s != [] && IsWhitespace(s[|s| - 1]) then TrimEnd(s[..|s| - 1]) else s
  }

  /** `r` is the slice of `s` at offset `i`, and everything of `s` outside
      that slice is whitespace. */
  ghost predicate PaddedAt(s: string, i: int, r: string) {
    0 <= i <= |s| - |r| && r == s[i..i + |r|]
    && (forall j :: 0 <= j < i ==> IsWhitespace(s[j]))
    && (forall j :: i + |r| <= j < |s| ==> IsWhitespace(s[j]))
  }

  /** `s.trim()`: the slice of `s` left after removing whitespace at both
      ends; it neither starts nor ends with whitespace. */
  function Trim(s: string): (r: string)
    ensures exists i :: PaddedAt(s, i, r)
    ensures r != [] ==> !IsWhitespace(r[0]) && !IsWhitespace(r[|r| - 1])
  {
    var t := TrimStart(s);
    var r := TrimEnd(t);
    assert r == s[|s| - |t|..][..|r|];
    assert PaddedAt(s, |s| - |t|, r);
    r
  }

  /** The reference definition of trimming: text padded on both sides with
      whitespace trims to the padded text, provided that text has no
      whitespace at its own ends. */
  lemma TrimOfPadded(a: string, m: string, b: string)
    requires forall j :: 0 <= j < |a| ==> IsWhitespace(a[j])
    requires forall j :: 0 <= j < |b| ==> IsWhitespace(b[j])
    requires m != [] ==> !IsWhitespace(m[0]) && !IsWhitespace(m[|m| - 1])
    ensures Trim(a + m + b) == m
  {
    var s := a + m + b;
    var r := Trim(s);
    var i :| PaddedAt(s, i, r);
    if m != [] {
      assert s[|a|] == m[0] && s[|a| + |m| - 1] == m[|m| - 1];
      assert r != [];
      assert r[0] == s[i];
      assert i == |a|;
      assert r[|r| - 1] == s[i + |r| - 1];
      assert i + |r| == |a| + |m|;
      assert s[|a|..|a| + |m|] == m;
    }
  }

  /** Trimming is idempotent. */
  lemma TrimIdempotent(s: string)
    ensures Trim(Trim(s)) == Trim(s)
  {
    TrimOfPadded([], Trim(s), []);
    assert [] + Trim(s) + [] == Trim(s);
  }

  /** `text.includes(w)`: `w` occurs in `text` at some position, scanning
      from the left. The empty string occurs in every text. */
  function Contains(text: string, w: string): bool
    decreases |text|
  {
    if |w| > |text| then false
    else if text[..|w|] == w then true
    else Contains(text[1..], w)
  }

  /** `w` occurs in `text` starting at position `i`. */
  ghost predicate OccursAt(text: string, w: string, i: int) {
    0 <= i <= |text| - |w| && text[i..i + |w|] == w
  }

  /** `Contains` holds exactly when `w` is some slice of `text`. */
  lemma {:induction false} ContainsIff(text: string, w: string)
    ensures Contains(text, w) <==> exists i :: OccursAt(text, w, i)
    decreases |text|
  {
    if |w| > |text| {
    } else if text[..|w|] == w {
      assert OccursAt(text, w, 0);
    } else {
      ContainsIff(text[1..], w);
      if Contains(text[1..], w) {
        var i :| OccursAt(text[1..], w, i);
        assert text[i + 1..i + 1 + |w|] == text[1..][i..i + |w|];
        assert OccursAt(text, w, i + 1);
      } else {
        forall i | OccursAt(text, w, i)
          ensures false
        {
          assert i != 0;
          assert i + |w| <= |text|;
          forall j | 0 <= j < |w|
            ensures text[1..][i - 1..i - 1 + |w|][j] == w[j]
          {
            assert text[i..i + |w|][j] == text[i + j];
          }
          assert OccursAt(text[1..], w, i - 1);
        }
      }
    }
  }
}
