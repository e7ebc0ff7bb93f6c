/** The few behaviours of Python's `str` that the globber relies on:
    `startswith` of one character, `lstrip` and `strip` of a character set,
    and `count` of one character. Strings are sequences of code points. */
module Text {

  /** The characters for which Python's `str.isspace()` holds: the ASCII
      controls from tab to carriage return, the four separators `\x1c`-`\x1f`,
      space, and the Unicode spaces and line and paragraph separators. */
  predicate IsSpace(c: char) {
    || '\t' <= c <= '\r' || '\U{1C}' <= c <= ' ' || c == '\U{85}' || c == '\U{A0}'
    || c == '\U{1680}' || '\U{2000}' <= c <= '\U{200A}' || c == '\U{2028}' || c == '\U{2029}'
    || c == '\U{202F}' || c == '\U{205F}' || c == '\U{3000}'
  }

  /** What `str.strip()` called without an argument removes from both ends. */
  const Whitespace: set<char> := set c: char | '\t' <= c <= '\U{3000}' && IsSpace(c)

  /** `s.startswith(c)` for a one-character prefix. */
  predicate StartsWith(s: string, c: char) {
    |s| > 0 && s[0] == c
  }

  /** Every character of `s` is one of `chars`. */
  predicate AllIn(s: string, chars: set<char>) {
    forall k :: 0 <= k < |s| ==> s[k] in chars
  }

  /** Neither end of `s` is one of `chars`: what `strip` leaves behind. */
  predicate Trimmed(s: string, chars: set<char>) {
    s == [] || (s[0] !in chars && s[|s| - 1] !in chars)
  }

  /** `n` copies of `c`. */
  function Repeat(c: char, n: nat): (r: string)
    ensures |r| == n && AllIn(r, {c})
  {
    seq(n, _ => c)
  }

  /** `s.lstrip(chars)`: `s` without its leading characters from `chars`. */
  function LStrip(s: string, chars: set<char>): (r: string)
    ensures |r| <= |s|
    ensures r == [] || r[0] !in chars
    decreases |s|
  {
    if s != [] && s[0] in chars then LStrip(s[1..], chars) else s
  }

  /** `s.rstrip(chars)`: `s` without its trailing characters from `chars`. */
  function RStrip(s: string, chars: set<char>): (r: string)
    ensures |r| <= |s|
    ensures r == [] || r[|r| - 1] !in chars
    ensures r == [] || r[0] == s[0]
    decreases |s|
  {
    if s != [] && s[|s| - 1] in chars then RStrip(s[..|s| - 1], chars) else s
  }

  /** `s.strip(chars)`: `s` with every leading and trailing character of `chars` removed. */
  function Strip(s: string, chars: set<char>): (r: string)
    ensures |r| <= |s| && Trimmed(r, chars)
  {
    RStrip(LStrip(s, chars), chars)
  }

  /** `lstrip` keeps a suffix and removes only characters of `chars`. */
  lemma {:induction false} LStripIsSuffix(s: string, chars: set<char>)
    ensures var r := LStrip(s, chars);
            r == s[|s| - |r|..] && AllIn(s[..|s| - |r|], chars)
    decreases |s|
  {
    if s != [] && s[0] in chars {
      LStripIsSuffix(s[1..], chars);
      var r := LStrip(s, chars);
      assert s[1..][..|s| - 1 - |r|] == s[1..|s| - |r|];
    }
  }

  /** `rstrip` keeps a prefix and removes only characters of `chars`. */
  lemma {:induction false} RStripIsPrefix(s: string, chars: set<char>)
    ensures var r := RStrip(s, chars);
            r == s[..|r|] && AllIn(s[|r|..], chars)
    decreases |s|
  {
    if s != [] && s[|s| - 1] in chars {
      RStripIsPrefix(s[..|s| - 1], chars);
      var r := RStrip(s, chars);
      assert s[..|s| - 1][|r|..] == s[|r|..|s| - 1];
    }
  }

  /** `strip` keeps a contiguous middle part and removes only characters of `chars` around it. */
  lemma StripIsInfix(s: string, chars: set<char>)
    ensures var r := Strip(s, chars);
            exists i :: 0 <= i <= |s| - |r| && r == s[i..i + |r|]
                        && AllIn(s[..i], chars) && AllIn(s[i + |r|..], chars)
  {
    var t := LStrip(s, chars);
    var r := RStrip(t, chars);
    LStripIsSuffix(s, chars);
    RStripIsPrefix(t, chars);
    var i := |s| - |t|;
    assert r == s[i..i + |r|] && s[i + |r|..] == t[|r|..];
  }

  /** `s.count(c)`: how many times `c` occurs in `s`. */
  function Count(s: string, c: char): nat {
    if s == [] then 0 else (if s[0] == c then 1 else 0) + Count(s[1..], c)
  }

  /** Counting distributes over concatenation. */
  lemma {:induction false} CountAppend(a: string, b: string, c: char)
    ensures Count(a + b, c) == Count(a, c) + Count(b, c)
    decreases |a|
  {
    if a == [] {
      assert a + b == b;
    } else {
      assert (a + b)[1..] == a[1..] + b;
      CountAppend(a[1..], b, c);
    }
  }

  /** Leading characters of `chars` in front of `b` vanish under `lstrip`. */
  lemma {:induction false} LStripSkips(a: string, b: string, chars: set<char>)
    requires AllIn(a, chars)
    ensures LStrip(a + b, chars) == LStrip(b, chars)
    decreases |a|
  {
    if a != [] {
      assert (a + b)[1..] == a[1..] + b;
      LStripSkips(a[1..], b, chars);
    } else {
      assert a + b == b;
    }
  }

  /** Trailing characters of `chars` after `a` vanish under `rstrip`. */
  lemma {:induction false} RStripSkips(a: string, b: string, chars: set<char>)
    requires AllIn(b, chars)
    ensures RStrip(a + b, chars) == RStrip(a, chars)
    decreases |b|
  {
    if b != [] {
      assert (a + b)[..|a + b| - 1] == a + b[..|b| - 1];
      RStripSkips(a, b[..|b| - 1], chars);
    } else {
      assert a + b == a;
    }
  }

  /** `strip` removes padding of `chars` around a trimmed core and nothing else. */
  lemma StripPadded(lead: string, t: string, trail: string, chars: set<char>)
    requires AllIn(lead, chars) && AllIn(trail, chars) && Trimmed(t, chars)
    ensures Strip(lead + t + trail, chars) == t
  {
    assert lead + t + trail == lead + (t + trail);
    LStripSkips(lead, t + trail, chars);
    if t == [] {
      assert t + trail == trail + [];
      LStripSkips(trail, [], chars);
    } else {
      assert LStrip(t + trail, chars) == t + trail;
      RStripSkips(t, trail, chars);
    }
  }
}
