/** The few operations on Python `str` values that the crawler relies on:
    `strip()`, `strip(chars)`, `rstrip(chars)`, `replace(old, new)` and the
    substring test `sub in s`. Strings are sequences of Unicode code points. */
module Text {

  /** The characters for which Python's `str.isspace()` holds; `strip()` with
      no argument removes exactly these from both ends. */
  const Whitespace: set<char> := {
    '\t', '\n', '\U{B}', '\U{C}', '\r', '\U{1C}', '\U{1D}', '\U{1E}', '\U{1F}', ' ',
    '\U{85}', '\U{A0}', '\U{1680}',
    '\U{2000}', '\U{2001}', '\U{2002}', '\U{2003}', '\U{2004}', '\U{2005}',
    '\U{2006}', '\U{2007}', '\U{2008}', '\U{2009}', '\U{200A}',
    '\U{2028}', '\U{2029}', '\U{202F}', '\U{205F}', '\U{3000}'
  }

  /** Python's `sub in s`: `sub` occurs as a contiguous piece of `s`. */
  predicate Contains(s: string, sub: string)
    ensures Contains(s, sub) ==> |sub| <= |s|
    ensures sub == [] ==> Contains(s, sub)
  {
    assert sub == [] ==> sub <= s[0..];
    exists i :: 0 <= i <= |s| && sub <= s[i..]
  }

  /** `s.lstrip(chars)`: the longest suffix of `s` that does not start with
      a character of `chars`. */
  function LStrip(s: string, chars: set<char>): (r: string)
    ensures |r| <= |s|
    ensures r == [] || r[0] !in chars
    ensures r != [] ==> r[|r| - 1] == s[|s| - 1]
    decreases |s|
  {
    if |s| > 0 && s[0] in chars then LStrip(s[1..], chars) else s
  }

  /** `s.rstrip(chars)`: the longest prefix of `s` that does not end with
      a character of `chars`. */
  function RStrip(s: string, chars: set<char>): (r: string)
    ensures |r| <= |s|
    ensures r == [] || r[|r| - 1] !in chars
    decreases |s|
  {
    if |s| > 0 && s[|s| - 1] in chars then RStrip(s[..|s| - 1], chars) else s
  }

  /** `s.strip(chars)`: both ends trimmed; `Strip(s, Whitespace)` is `s.strip()`. */
  function Strip(s: string, chars: set<char>): (r: string)
    ensures r == [] || (r[0] !in chars && r[|r| - 1] !in chars)
  {
    LStrip(RStrip(s, chars), chars)
  }

  /** `lstrip` cuts a prefix made of characters of `chars`: what is left is
      the suffix of the text from `k` on. */
  lemma {:induction false} LStripIsSuffix(s: string, chars: set<char>) returns (k: nat)
    ensures k <= |s| && LStrip(s, chars) == s[k..]
    ensures forall j :: 0 <= j < k ==> s[j] in chars
    decreases |s|
  {
    if |s| > 0 && s[0] in chars {
      var k' := LStripIsSuffix(s[1..], chars);
      k := k' + 1;
      assert s[1..][k'..] == s[k..];
      assert forall j :: 1 <= j < k ==> s[j] == s[1..][j - 1];
    } else {
      k := 0;
    }
  }

  /** `rstrip` cuts a suffix made of characters of `chars`: what is left is
      the prefix of the text up to `k`. */
  lemma {:induction false} RStripIsPrefix(s: string, chars: set<char>) returns (k: nat)
    ensures k <= |s| && RStrip(s, chars) == s[..k]
    ensures forall j :: k <= j < |s| ==> s[j] in chars
    decreases |s|
  {
    if |s| > 0 && s[|s| - 1] in chars {
      var t := s[..|s| - 1];
      k := RStripIsPrefix(t, chars);
      assert t[..k] == s[..k];
      assert forall j :: k <= j < |t| ==> s[j] == t[j];
    } else {
      k := |s|;
    }
  }

  /** `strip` cuts characters of `chars` from both ends and nothing else:
      what is left is the piece of the text from `i` up to `j`. */
  lemma StripIsSlice(s: string, chars: set<char>) returns (i: nat, j: nat)
    ensures i <= j <= |s| && Strip(s, chars) == s[i..j]
    ensures forall m :: 0 <= m < i ==> s[m] in chars
    ensures forall m :: j <= m < |s| ==> s[m] in chars
  {
    j := RStripIsPrefix(s, chars);
    var t := s[..j];
    i := LStripIsSuffix(t, chars);
    assert t[i..] == s[i..j];
    assert forall m :: 0 <= m < i ==> s[m] == t[m];
  }

  /** `lstrip` removes characters of `chars` only, and adds none. */
  lemma {:induction false} LStripKeepsOthers(s: string, chars: set<char>, c: char)
    ensures c in s && c !in chars ==> c in LStrip(s, chars)
    ensures c in LStrip(s, chars) ==> c in s
    decreases |s|
  {
    if |s| > 0 && s[0] in chars {
      assert c in s <==> c == s[0] || c in s[1..] by {
        if c in s {
          var i :| 0 <= i < |s| && s[i] == c;
          assert i == 0 || s[1..][i - 1] == c;
        }
      }
      LStripKeepsOthers(s[1..], chars, c);
    }
  }

  /** `rstrip` removes characters of `chars` only, and adds none. */
  lemma {:induction false} RStripKeepsOthers(s: string, chars: set<char>, c: char)
    ensures c in s && c !in chars ==> c in RStrip(s, chars)
    ensures c in RStrip(s, chars) ==> c in s
    decreases |s|
  {
    if |s| > 0 && s[|s| - 1] in chars {
      assert c in s <==> c == s[|s| - 1] || c in s[..|s| - 1] by {
        if c in s {
          var i :| 0 <= i < |s| && s[i] == c;
          assert i == |s| - 1 || s[..|s| - 1][i] == c;
        }
      }
      RStripKeepsOthers(s[..|s| - 1], chars, c);
    }
  }

  /** `strip` removes characters of `chars` only, and adds none. */
  lemma StripKeepsOthers(s: string, chars: set<char>)
    ensures forall c :: c in s && c !in chars ==> c in Strip(s, chars)
    ensures forall c :: c in Strip(s, chars) ==> c in s
  {
    forall c
      ensures c in s && c !in chars ==> c in Strip(s, chars)
      ensures c in Strip(s, chars) ==> c in s
    {
      RStripKeepsOthers(s, chars, c);
      LStripKeepsOthers(RStrip(s, chars), chars, c);
    }
  }

  /** A text whose two ends are outside `chars` is left alone by `Strip`. */
  lemma StripUnchanged(s: string, chars: set<char>)
    requires s != [] && s[0] !in chars && s[|s| - 1] !in chars
    ensures Strip(s, chars) == s
  {
    assert RStrip(s, chars) == s;
  }

  /** Python's `s.replace(pat, rep)` for a non-empty `pat`: occurrences are
      found from the left and replaced without overlapping, in one pass. */
  function Replace(s: string, pat: string, rep: string): (r: string)
    requires pat != []
    ensures |rep| == |pat| ==> |r| == |s|
    decreases |s|
  {
    if |s| < |pat| then s
    else if pat <= s then rep + Replace(s[|pat|..], pat, rep)
    else [s[0]] + Replace(s[1..], pat, rep)
  }

  /** A text in which `pat` does not occur comes out of `Replace` unchanged. */
  lemma {:induction false} ReplaceWithoutOccurrence(s: string, pat: string, rep: string)
    requires pat != [] && !Contains(s, pat)
    ensures Replace(s, pat, rep) == s
    decreases |s|
  {
    if |s| >= |pat| {
      assert s[0..] == s;
      assert !Contains(s[1..], pat);
      ReplaceWithoutOccurrence(s[1..], pat, rep);
    }
  }

  /** Every character of `s.replace(pat, rep)` comes from `s` or from `rep`. */
  lemma {:induction false} ReplaceIntroducesOnlyRep(s: string, pat: string, rep: string, c: char)
    requires pat != [] && c in Replace(s, pat, rep)
    ensures c in s || c in rep
    decreases |s|
  {
    if |s| >= |pat| {
      if pat <= s {
        if c !in rep {
          ReplaceIntroducesOnlyRep(s[|pat|..], pat, rep, c);
        }
      } else if c != s[0] {
        ReplaceIntroducesOnlyRep(s[1..], pat, rep, c);
      }
    }
  }

  /** `replace` brings in no character that neither the text nor the
      replacement holds. */
  lemma ReplaceKeepsAbsent(s: string, pat: string, rep: string, c: char)
    requires pat != [] && c !in s && c !in rep
    ensures c !in Replace(s, pat, rep)
  {
    if c in Replace(s, pat, rep) {
      ReplaceIntroducesOnlyRep(s, pat, rep, c);
    }
  }

  /** A character of `s` that does not occur in `pat` survives `s.replace(pat, rep)`. */
  lemma {:induction false} ReplaceKeepsOthers(s: string, pat: string, rep: string, c: char)
    requires pat != [] && c in s && c !in pat
    ensures c in Replace(s, pat, rep)
    decreases |s|
  {
    if |s| >= |pat| {
      if pat <= s {
        var i :| 0 <= i < |s| && s[i] == c;
        if i >= |pat| {
          assert s[|pat|..][i - |pat|] == c;
          ReplaceKeepsOthers(s[|pat|..], pat, rep, c);
        }
      } else if c != s[0] {
        ReplaceKeepsOthers(s[1..], pat, rep, c);
      }
    }
  }

  /** Replacing a single character by a text that does not hold it leaves
      no occurrence of that character. */
  lemma {:induction false} ReplaceRemovesChar(s: string, x: char, rep: string)
    requires x !in rep
    ensures x !in Replace(s, [x], rep)
    decreases |s|
  {
    if s != [] {
      ReplaceRemovesChar(s[1..], x, rep);
      if [x] <= s {
        assert s[1..] == s[|[x]|..];
      } else {
        assert s[0] != x;
      }
    }
  }

  /** A prefix holding no character that could start an occurrence of `pat`
      is copied through `Replace` untouched. */
  lemma {:induction false} ReplaceSkipsPrefix(a: string, b: string, pat: string, rep: string)
    requires pat != [] && pat[0] !in a
    ensures Replace(a + b, pat, rep) == a + Replace(b, pat, rep)
    decreases |a|
  {
    var s := a + b;
    if a == [] {
      assert s == b;
    } else if |s| < |pat| {
      assert Replace(b, pat, rep) == b;
    } else {
      assert s[0] == a[0] && s[1..] == a[1..] + b;
      assert !(pat <= s);
      ReplaceSkipsPrefix(a[1..], b, pat, rep);
      assert a == [a[0]] + a[1..];
    }
  }

  /** A text holding no character that could start an occurrence of `pat`
      comes out of `Replace` unchanged. */
  lemma ReplaceAbsent(s: string, pat: string, rep: string)
    requires pat != [] && pat[0] !in s
    ensures Replace(s, pat, rep) == s
  {
    ReplaceSkipsPrefix(s, [], pat, rep);
    assert s + [] == s;
  }

  /** Replacing one character by another changes exactly its occurrences,
      position by position. */
  lemma {:induction false} ReplaceCharByChar(s: string, x: char, y: char)
    ensures |Replace(s, [x], [y])| == |s|
    ensures forall j :: 0 <= j < |s| ==> Replace(s, [x], [y])[j] == if s[j] == x then y else s[j]
    decreases |s|
  {
    if s != [] {
      ReplaceCharByChar(s[1..], x, y);
      assert s[|[x]|..] == s[1..];
      var r := Replace(s, [x], [y]);
      var head := if s[0] == x then y else s[0];
      assert [x] <= s <==> s[0] == x;
      assert r == [head] + Replace(s[1..], [x], [y]);
      forall j | 1 <= j < |s|
        ensures r[j] == if s[j] == x then y else s[j]
      {
        assert r[j] == Replace(s[1..], [x], [y])[j - 1];
        assert s[j] == s[1..][j - 1];
      }
    }
  }
}
