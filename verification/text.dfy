/** The handful of Python `str` operations the converter relies on:
    `isspace`, `strip`, `split()` with no separator, `' '.join`, `upper`,
    the `in` test for substrings, `replace`, and the ordering `sorted` uses. */
module Text {

  /** Python's `str.isspace` for one character: the ASCII controls TAB..CR,
      the file/group/record/unit separators, SPACE, NEL, NBSP and the
      Unicode space separators and line/paragraph separators. */
  predicate IsSpace(c: char) {
    || ('\U{0009}' <= c <= '\U{000D}')
    || ('\U{001C}' <= c <= '\U{0020}')
    || c == '\U{0085}' || c == '\U{00A0}' || c == '\U{1680}'
    || ('\U{2000}' <= c <= '\U{200A}')
    || c == '\U{2028}' || c == '\U{2029}' || c == '\U{202F}' || c == '\U{205F}'
    || c == '\U{3000}'
  }

  predicate NoSpace(s: string) {
    forall k :: 0 <= k < |s| ==> !IsSpace(s[k])
  }

  predicate AllSpace(s: string) {
    forall k :: 0 <= k < |s| ==> IsSpace(s[k])
  }

  // ---------------------------------------------------------------- strip

  /** `s.strip()`: whitespace removed from both ends. */
  function Strip(s: string): (r: string)
    ensures |r| <= |s|
    ensures |r| > 0 ==> !IsSpace(r[0]) && !IsSpace(r[|r| - 1])
    decreases |s|
  {
    if |s| > 0 && IsSpace(s[0]) then Strip(s[1..])
    else if |s| > 0 && IsSpace(s[|s| - 1]) then Strip(s[..|s| - 1])
    else s
  }

  /** The stripped text is `s` with only whitespace cut from either side:
      the cut-off prefix and suffix are returned. */
  lemma {:induction false} StripCutsSpace(s: string) returns (pre: string, post: string)
    ensures s == pre + Strip(s) + post
    ensures AllSpace(pre) && AllSpace(post)
    decreases |s|
  {
    if |s| > 0 && IsSpace(s[0]) {
      var pre', post' := StripCutsSpace(s[1..]);
      pre, post := CutLeading(s, pre', post');
    } else if |s| > 0 && IsSpace(s[|s| - 1]) {
      var pre', post' := StripCutsSpace(s[..|s| - 1]);
      pre, post := CutTrailing(s, pre', post');
    } else {
      pre, post := [], [];
      assert Strip(s) == s;
    }
  }

  lemma CutLeading(s: string, pre': string, post': string) returns (pre: string, post: string)
    requires |s| > 0 && IsSpace(s[0])
    requires s[1..] == pre' + Strip(s[1..]) + post' && AllSpace(pre') && AllSpace(post')
    ensures s == pre + Strip(s) + post && AllSpace(pre) && AllSpace(post)
  {
    assert Strip(s) == Strip(s[1..]);
    SpacesAppend(s[..1], pre');
    pre, post := s[..1] + pre', post';
    assert s == s[..1] + s[1..];
  }

  lemma CutTrailing(s: string, pre': string, post': string) returns (pre: string, post: string)
    requires |s| > 0 && !IsSpace(s[0]) && IsSpace(s[|s| - 1])
    requires s[..|s| - 1] == pre' + Strip(s[..|s| - 1]) + post' && AllSpace(pre') && AllSpace(post')
    ensures s == pre + Strip(s) + post && AllSpace(pre) && AllSpace(post)
  {
    assert Strip(s) == Strip(s[..|s| - 1]);
    SpacesAppend(post', s[|s| - 1..]);
    pre, post := pre', post' + s[|s| - 1..];
    assert s == s[..|s| - 1] + s[|s| - 1..];
  }

  lemma SpacesAppend(a: string, b: string)
    requires AllSpace(a) && AllSpace(b)
    ensures AllSpace(a + b)
  {
  }

  /** A cell strips to the empty text exactly when it holds only whitespace. */
  lemma {:induction false} StripBlank(s: string)
    ensures Strip(s) == "" <==> AllSpace(s)
    decreases |s|
  {
    if |s| > 0 && IsSpace(s[0]) {
      StripBlank(s[1..]);
      assert AllSpace(s) <==> AllSpace(s[1..]) by {
        assert forall k :: 1 <= k < |s| ==> s[k] == s[1..][k - 1];
      }
    } else if |s| > 0 && IsSpace(s[|s| - 1]) {
      StripBlank(s[..|s| - 1]);
      assert AllSpace(s) <==> AllSpace(s[..|s| - 1]) by {
        assert forall k :: 0 <= k < |s| - 1 ==> s[k] == s[..|s| - 1][k];
      }
    }
  }

  // ---------------------------------------------------------------- split

  /** Length of the leading run of non-whitespace characters. */
  function WordLength(s: string): (n: nat)
    ensures n <= |s|
    ensures NoSpace(s[..n])
    ensures n < |s| ==> IsSpace(s[n])
  {
    if |s| == 0 || IsSpace(s[0]) then 0 else 1 + WordLength(s[1..])
  }

  predicate IsWord(w: string) {
    |w| > 0 && NoSpace(w)
  }

  /** `s.split()`: the maximal runs of non-whitespace characters, in order. */
  function Split(s: string): (ws: seq<string>)
    ensures forall k :: 0 <= k < |ws| ==> IsWord(ws[k])
    decreases |s|
  {
    if |s| == 0 then []
    else if IsSpace(s[0]) then Split(s[1..])
    else
      var n := WordLength(s);
      [s[..n]] + Split(s[n..])
  }

  /** `sep.join(ws)`. */
  function Join(ws: seq<string>, sep: string): string {
    if |ws| == 0 then ""
    else if |ws| == 1 then ws[0]
    else ws[0] + sep + Join(ws[1..], sep)
  }

  function Concat(ws: seq<string>): string {
    if |ws| == 0 then "" else ws[0] + Concat(ws[1..])
  }

  /** The characters of `s` that are not whitespace, in order. */
  function Visible(s: string): string {
    if |s| == 0 then ""
    else if IsSpace(s[0]) then Visible(s[1..])
    else [s[0]] + Visible(s[1..])
  }

  lemma {:induction false} VisibleOfWord(w: string, rest: string)
    requires NoSpace(w)
    ensures Visible(w + rest) == w + Visible(rest)
    decreases |w|
  {
    if |w| > 0 {
      assert !IsSpace((w + rest)[0]);
      assert (w + rest)[1..] == w[1..] + rest;
      VisibleOfWord(w[1..], rest);
      calc {
        Visible(w + rest);
        [(w + rest)[0]] + Visible((w + rest)[1..]);
        [w[0]] + Visible(w[1..] + rest);
        [w[0]] + (w[1..] + Visible(rest));
        { assert w == [w[0]] + w[1..]; }
        w + Visible(rest);
      }
    } else {
      assert w + rest == rest;
    }
  }

  /** Splitting loses exactly the whitespace: the words, glued together,
      are the visible characters of the text. */
  lemma {:induction false} SplitKeepsVisible(s: string)
    ensures Concat(Split(s)) == Visible(s)
    decreases |s|
  {
    if |s| == 0 {
    } else if IsSpace(s[0]) {
      SplitKeepsVisible(s[1..]);
    } else {
      var n := WordLength(s);
      SplitKeepsVisible(s[n..]);
      assert s == s[..n] + s[n..];
      VisibleOfWord(s[..n], s[n..]);
    }
  }

  lemma {:induction false} WordLengthOfWord(w: string, rest: string)
    requires NoSpace(w)
    requires |rest| == 0 || IsSpace(rest[0])
    ensures WordLength(w + rest) == |w|
    decreases |w|
  {
    if |w| > 0 {
      assert (w + rest)[1..] == w[1..] + rest;
      WordLengthOfWord(w[1..], rest);
    }
  }

  /** Joining words with single spaces and splitting again gives the words back. */
  lemma {:induction false} SplitJoin(ws: seq<string>)
    requires forall k :: 0 <= k < |ws| ==> IsWord(ws[k])
    ensures Split(Join(ws, " ")) == ws
    decreases |ws|
  {
    if |ws| == 0 {
    } else if |ws| == 1 {
      var w := ws[0];
      WordLengthOfWord(w, "");
      assert w + "" == w;
      assert w[|w|..] == "";
    } else {
      var w := ws[0];
      var tail := " " + Join(ws[1..], " ");
      var s := w + tail;
      assert Join(ws, " ") == s;
      WordLengthOfWord(w, tail);
      assert s[..|w|] == w;
      assert s[|w|..] == tail;
      assert tail[1..] == Join(ws[1..], " ");
      SplitJoin(ws[1..]);
    }
  }

  lemma {:induction false} VisibleBlank(s: string)
    ensures Visible(s) == "" <==> AllSpace(s)
  {
    if |s| > 0 {
      VisibleBlank(s[1..]);
      assert AllSpace(s) <==> IsSpace(s[0]) && AllSpace(s[1..]);
    }
  }

  /** A text has no words exactly when it is all whitespace. */
  lemma SplitBlank(s: string)
    ensures Split(s) == [] <==> AllSpace(s)
  {
    var ws := Split(s);
    SplitKeepsVisible(s);
    VisibleBlank(s);
    if ws != [] {
      assert |Concat(ws)| >= |ws[0]| > 0;
    }
  }

  // ------------------------------------------------------------- collapse

  /** No whitespace other than single ' ' between words, none at the ends. */
  predicate Collapsed(s: string) {
    && (|s| > 0 ==> s[0] != ' ' && s[|s| - 1] != ' ')
    && (forall k :: 0 <= k < |s| && IsSpace(s[k]) ==> s[k] == ' ')
    && (forall k :: 0 < k < |s| && s[k] == ' ' ==> s[k - 1] != ' ')
  }

  lemma {:induction false} JoinCollapsed(ws: seq<string>)
    requires forall k :: 0 <= k < |ws| ==> IsWord(ws[k])
    ensures Collapsed(Join(ws, " "))
    decreases |ws|
  {
    if |ws| > 1 {
      JoinCollapsed(ws[1..]);
      var w := ws[0];
      var j := Join(ws[1..], " ");
      var s := w + " " + j;
      assert Join(ws, " ") == s;
      assert |j| > 0 && j[0] != ' ' by {
        assert j[0] == ws[1][0];
      }
      forall k | 0 <= k < |s| && IsSpace(s[k])
        ensures s[k] == ' '
      {
        if k > |w| {
          assert s[k] == j[k - |w| - 1];
        }
      }
      forall k | 0 < k < |s| && s[k] == ' '
        ensures s[k - 1] != ' '
      {
        if k > |w| + 1 {
          assert s[k] == j[k - |w| - 1];
        }
      }
    } else if |ws| == 1 {
      assert Join(ws, " ") == ws[0];
    }
  }

  /** `' '.join(s.split())`: runs of whitespace become one space, and the
      ends are trimmed. */
  function Collapse(s: string): (r: string)
    ensures Collapsed(r)
    ensures Split(r) == Split(s)
    ensures Visible(r) == Visible(s)
  {
    var ws := Split(s);
    JoinCollapsed(ws);
    SplitJoin(ws);
    SplitKeepsVisible(s);
    SplitKeepsVisible(Join(ws, " "));
    Join(ws, " ")
  }

  /** Collapsing gives the empty text exactly when there is nothing but whitespace. */
  lemma CollapseBlank(s: string)
    ensures Collapse(s) == "" <==> AllSpace(s)
  {
    SplitBlank(s);
    var ws := Split(s);
    if |ws| > 1 {
      assert |Join(ws, " ")| >= |ws[0]|;
    }
  }

  /** Collapsing twice is the same as collapsing once. */
  lemma CollapseIdempotent(s: string)
    ensures Collapse(Collapse(s)) == Collapse(s)
  {
    SplitJoin(Split(s));
  }

  // ---------------------------------------------------------------- upper

  /** `str.upper` on one character, for ASCII and Latin-1 letters. */
  function UpperChar(c: char): char {
    if 'a' <= c <= 'z' then (c as int - 32) as char
    else if '\U{00E0}' <= c <= '\U{00FE}' && c != '\U{00F7}' then (c as int - 32) as char
    else if c == '\U{00FF}' then '\U{0178}'
    else if c == '\U{00B5}' then '\U{039C}'
    else c
  }

  /** `s.upper()`, one character at a time. */
  function Upper(s: string): (r: string)
    ensures |r| == |s|
  {
    seq(|s|, k requires 0 <= k < |s| => UpperChar(s[k]))
  }

  predicate IsUpper(s: string) {
    forall k :: 0 <= k < |s| ==> UpperChar(s[k]) == s[k]
  }

  /** Upper-casing an upper-cased text changes nothing. */
  lemma UpperIsUpper(s: string)
    ensures IsUpper(Upper(s))
    ensures Upper(Upper(s)) == Upper(s)
  {
    forall k | 0 <= k < |s|
      ensures UpperChar(Upper(s)[k]) == Upper(s)[k]
    {
      UpperCharIdempotent(s[k]);
    }
  }

  lemma UpperCharIdempotent(c: char)
    ensures UpperChar(UpperChar(c)) == UpperChar(c)
  {
  }

  /** Upper-casing leaves whitespace where it was, so it keeps the words. */
  lemma UpperKeepsSpace(s: string)
    ensures forall k :: 0 <= k < |s| ==> (IsSpace(Upper(s)[k]) <==> IsSpace(s[k]))
  {
    forall k | 0 <= k < |s|
      ensures IsSpace(Upper(s)[k]) <==> IsSpace(s[k])
    {
      UpperCharKeepsSpace(s[k]);
    }
  }

  lemma UpperCharKeepsSpace(c: char)
    ensures IsSpace(UpperChar(c)) <==> IsSpace(c)
  {
  }

  /** Stripping and upper-casing commute: `s.strip().upper()` is
      `s.upper().strip()`, since upper-casing keeps whitespace. */
  lemma {:induction false} UpperStrip(s: string)
    ensures Upper(Strip(s)) == Strip(Upper(s))
    decreases |s|
  {
    UpperKeepsSpace(s);
    if |s| > 0 && IsSpace(s[0]) {
      assert Upper(s)[1..] == Upper(s[1..]);
      UpperStrip(s[1..]);
    } else if |s| > 0 && IsSpace(s[|s| - 1]) {
      assert Upper(s)[..|s| - 1] == Upper(s[..|s| - 1]);
      UpperStrip(s[..|s| - 1]);
    }
  }

  // ------------------------------------------------------ search & replace

  predicate OccursAt(s: string, pat: string, i: int) {
    0 <= i <= |s| - |pat| && s[i..i + |pat|] == pat
  }

  /** `pat in s`. */
  predicate Contains(s: string, pat: string) {
    exists i | 0 <= i <= |s| - |pat| :: OccursAt(s, pat, i)
  }

  /** `s.replace(pat, val)` for a non-empty pattern: every non-overlapping
      occurrence, scanning left to right, is replaced. */
  function ReplaceAll(s: string, pat: string, val: string): string
    requires |pat| > 0
    decreases |s|
  {
    if |s| < |pat| then s
    else if s[..|pat|] == pat then val + ReplaceAll(s[|pat|..], pat, val)
    else [s[0]] + ReplaceAll(s[1..], pat, val)
  }

  /** A text without the pattern is left as it is. */
  lemma {:induction false} ReplaceAbsent(s: string, pat: string, val: string)
    requires |pat| > 0
    requires !Contains(s, pat)
    ensures ReplaceAll(s, pat, val) == s
    decreases |s|
  {
    if |s| >= |pat| {
      assert s[0..|pat|] == s[..|pat|];
      assert !OccursAt(s, pat, 0);
      assert !Contains(s[1..], pat) by {
        forall i | OccursAt(s[1..], pat, i)
          ensures false
        {
          assert s[1..][i..i + |pat|] == s[i + 1..i + 1 + |pat|];
          assert OccursAt(s, pat, i + 1);
        }
      }
      ReplaceAbsent(s[1..], pat, val);
    }
  }

  /** Replacing the pattern by itself is the identity. */
  lemma {:induction false} ReplaceBySelf(s: string, pat: string)
    requires |pat| > 0
    ensures ReplaceAll(s, pat, pat) == s
    decreases |s|
  {
    if |s| >= |pat| {
      if s[..|pat|] == pat {
        ReplaceBySelf(s[|pat|..], pat);
        assert s == s[..|pat|] + s[|pat|..];
      } else {
        ReplaceBySelf(s[1..], pat);
      }
    }
  }

  // -------------------------------------------------------------- slicing

  /** `s[lo:]` for `lo >= 0`: empty once `lo` is past the end. */
  function From(s: string, lo: nat): (r: string)
    ensures |r| == if lo < |s| then |s| - lo else 0
  {
    if lo < |s| then s[lo..] else ""
  }

  /** `s[lo:hi]` for `0 <= lo`, `0 <= hi`: both ends clamped to the text,
      empty when `hi <= lo`. */
  function Slice(s: string, lo: nat, hi: nat): (r: string)
    ensures |r| <= if hi <= lo then 0 else hi - lo
  {
    var h := if hi < |s| then hi else |s|;
    if lo < h then s[lo..h] else ""
  }

  /** Consecutive slices, the last one open-ended, rebuild the tail. */
  lemma SliceFrom(s: string, lo: nat, mid: nat)
    requires lo <= mid
    ensures Slice(s, lo, mid) + From(s, mid) == From(s, lo)
  {
    if lo < |s| && mid < |s| {
      assert s[lo..] == s[lo..mid] + s[mid..];
    }
  }

  // ------------------------------------------------------------- ordering

  /** Python's `<` on `str`: lexicographic by code point, a proper prefix first. */
  predicate Below(a: string, b: string) {
    if |a| == 0 then |b| > 0
    else if |b| == 0 then false
    else a[0] < b[0] || (a[0] == b[0] && Below(a[1..], b[1..]))
  }

  lemma {:induction false} BelowIrreflexive(a: string)
    ensures !Below(a, a)
  {
    if |a| > 0 {
      BelowIrreflexive(a[1..]);
    }
  }

  lemma {:induction false} BelowTransitive(a: string, b: string, c: string)
    requires Below(a, b) && Below(b, c)
    ensures Below(a, c)
  {
    if |a| > 0 && a[0] == b[0] && b[0] == c[0] {
      BelowTransitive(a[1..], b[1..], c[1..]);
    }
  }

  lemma {:induction false} BelowTotal(a: string, b: string)
    ensures a == b || Below(a, b) || Below(b, a)
  {
    if |a| > 0 && |b| > 0 && a[0] == b[0] {
      BelowTotal(a[1..], b[1..]);
      if a[1..] == b[1..] {
        assert a == [a[0]] + a[1..] && b == [b[0]] + b[1..];
      }
    }
  }
}
