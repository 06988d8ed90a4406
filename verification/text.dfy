/** The two string primitives the chat tab relies on: Python's `str.strip()`
    (with no argument) and the substring test `k in s`. */
module Text {

  /** The characters for which Python's `str.isspace()` holds: the ASCII
      controls TAB..CR and FS..US, SPACE, NEL, NO-BREAK SPACE, and the Unicode
      space separators and line/paragraph separators. */
  predicate IsWhitespace(c: char)
  {
    ('\t' <= c <= '\r') || ('\U{1C}' <= c <= '\U{1F}') || c == ' '
    || c == '\U{85}' || c == '\U{A0}' || c == '\U{1680}'
    || ('\U{2000}' <= c <= '\U{200A}') || c == '\U{2028}' || c == '\U{2029}'
    || c == '\U{202F}' || c == '\U{205F}' || c == '\U{3000}'
  }

  /** Every character of `s` is whitespace (true of the empty string). */
  ghost predicate AllWhitespace(s: string)
  {
    forall i :: 0 <= i < |s| ==> IsWhitespace(s[i])
  }

  /** Python's `s.lstrip()`: drops the longest all-whitespace prefix. */
  function TrimStart(s: string): (r: string)
    ensures |r| <= |s| && r == s[|s| - |r|..]
    ensures AllWhitespace(s[..|s| - |r|])
    ensures r != [] ==> !IsWhitespace(r[0])
  {
    if s != [] && IsWhitespace(s[0]) then
      var r := TrimStart(s[1..]);
      assert s[..|s| - |r|] == [s[0]] + s[1..][..|s| - 1 - |r|];
      r
    else
      s
  }

  /** Python's `s.rstrip()`: drops the longest all-whitespace suffix. */
  function TrimEnd(s: string): (r: string)
    ensures |r| <= |s| && r == s[..|r|]
    ensures AllWhitespace(s[|r|..])
    ensures r != [] ==> !IsWhitespace(r[|r| - 1])
  {
    if s != [] && IsWhitespace(s[|s| - 1]) then
      var r := TrimEnd(s[..|s| - 1]);
      assert s[|r|..] == s[..|s| - 1][|r|..] + [s[|s| - 1]];
      r
    else
      s
  }

  /** Python's `s.strip()`: the slice `s[i..j]` left after removing leading and
      trailing whitespace. */
  function Strip(s: string): (r: string)
    ensures |r| <= |s|
    ensures r != [] ==> !IsWhitespace(r[0]) && !IsWhitespace(r[|r| - 1])
  {
    TrimEnd(TrimStart(s))
  }

  /** `Strip(s)` is a slice of `s` with only whitespace cut away on either
      side. */
  lemma StripIsTrimmedSlice(s: string)
    ensures exists i, j :: (0 <= i <= j <= |s| && Strip(s) == s[i..j]
                            && AllWhitespace(s[..i]) && AllWhitespace(s[j..]))
  {
    var t := TrimStart(s);
    var r := TrimEnd(t);
    var i := |s| - |t|;
    var j := i + |r|;
    assert t[|r|..] == s[j..];
    assert r == s[i..j];
  }

  /** The chat tab's blank check `user_input.strip() == ""` holds exactly when
      the input consists of whitespace only (the empty input included). */
  lemma {:induction false} StripEmptyIffBlank(s: string)
    ensures Strip(s) == [] <==> AllWhitespace(s)
  {
    var t := TrimStart(s);
    if AllWhitespace(s) {
      // the suffix `t` of an all-whitespace string is all whitespace, so it is empty
      assert t == s[|s| - |t|..];
    } else {
      var k :| 0 <= k < |s| && !IsWhitespace(s[k]);
      // `k` lies in the part TrimStart keeps, so `t` is not empty, and its first
      // character survives TrimEnd
      assert k >= |s| - |t|;
      assert t != [] && !IsWhitespace(t[0]);
      var r := TrimEnd(t);
    }
  }

  /** Python's `key in text`: `key` occurs as a contiguous, case-sensitive run
      of characters somewhere in `text`. */
  function Contains(text: string, key: string): (r: bool)
    ensures key <= text ==> r
    ensures r ==> |key| <= |text|
  {
    key <= text || (text != [] && Contains(text[1..], key))
  }

  /** `key` occurs in `text` starting at position `i`. */
  ghost predicate OccursAt(key: string, text: string, i: int)
  {
    0 <= i <= |text| - |key| && text[i..i + |key|] == key
  }

  /** Substring occurrence, stated by position. */
  ghost predicate IsSubstring(key: string, text: string)
  {
    exists i :: OccursAt(key, text, i)
  }

  /** `Contains` tests substring occurrence, no more and no less: there is no
      word-boundary check, so a key inside a longer word is found. */
  lemma {:induction false} ContainsIffSubstring(text: string, key: string)
    ensures Contains(text, key) <==> IsSubstring(key, text)
  {
    if key <= text {
      assert OccursAt(key, text, 0);
    } else if text == [] {
      // only the empty key occurs in the empty text, and it is a prefix
    } else {
      var tail := text[1..];
      ContainsIffSubstring(tail, key);
      if IsSubstring(key, tail) {
        var i :| OccursAt(key, tail, i);
        assert text[i + 1..i + 1 + |key|] == key;
        assert OccursAt(key, text, i + 1);
      }
      if IsSubstring(key, text) {
        var i :| OccursAt(key, text, i);
        // i == 0 would make `key` a prefix of `text`
        assert tail[i - 1..i - 1 + |key|] == key;
        assert OccursAt(key, tail, i - 1);
      }
    }
  }

  /** A non-empty key whose first character never appears in `text` is not
      contained in it. */
  lemma {:induction false} AbsentFirstChar(text: string, key: string)
    requires key != [] && key[0] !in text
    ensures !Contains(text, key)
  {
    if text != [] {
      assert text[0] != key[0];
      assert forall c :: c in text[1..] ==> c in text;
      AbsentFirstChar(text[1..], key);
    }
  }

  /** Adding text on either side never destroys an occurrence. */
  lemma SubstringOfExtension(key: string, pre: string, text: string, post: string)
    requires IsSubstring(key, text)
    ensures IsSubstring(key, pre + text + post)
  {
    var i :| OccursAt(key, text, i);
    var whole := pre + text + post;
    assert whole[|pre| + i..|pre| + i + |key|] == text[i..i + |key|];
    assert OccursAt(key, whole, |pre| + i);
  }
}
