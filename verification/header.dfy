/** The patient data read from the header of the attendance document. The
    regular expressions that find the name, birth date, month and diagnosis
    are not modelled: their captured groups are the input, and what is
    modelled is the clean-up applied to them and the "nothing found" rule. */
module Header {
  import opened Outcomes
  import opened Text

  /** The first group of each pattern, or `None` when the pattern did not match. */
  datatype Captures = Captures(
    name: Option<string>,
    birthDate: Option<string>,
    monthYear: Option<string>,
    diagnosis: Option<string>)

  datatype HeaderData = HeaderData(
    name: string,
    initials: string,
    birthDate: string,
    monthYear: string,
    diagnosis: string)
  {
    predicate IsEmpty() {
      name == "" && initials == "" && birthDate == "" && monthYear == "" && diagnosis == ""
    }
  }

  /** One upper-cased first letter per word, in order. */
  function FirstLetters(words: seq<string>): (r: string)
    requires forall k :: 0 <= k < |words| ==> |words[k]| > 0
    ensures |r| == |words|
    ensures forall k :: 0 <= k < |words| ==> r[k] == UpperChar(words[k][0])
  {
    if |words| == 0 then "" else [UpperChar(words[0][0])] + FirstLetters(words[1..])
  }

  /** The initials generated from a full name. */
  function Initials(name: string): (r: string)
    ensures |r| == |Split(name)|
    ensures forall k :: 0 <= k < |r| ==> r[k] == UpperChar(Split(name)[k][0])
    ensures IsUpper(r)
  {
    FirstLetters(Split(name))
  }

  /** The diagnosis line: stripped, then every run of whitespace made one
      space. It keeps the capture's words and is already in that form. */
  function Diagnosis(raw: string): (r: string)
    ensures Collapsed(r)
    ensures Split(r) == Split(raw)
    ensures Visible(r) == Visible(Strip(raw))
    ensures Collapse(r) == r
  {
    CollapseIdempotent(Strip(raw));
    SplitStrip(raw);
    Collapse(Strip(raw))
  }

  /** The cleaned diagnosis is empty exactly when the capture is all whitespace. */
  lemma DiagnosisBlank(raw: string)
    ensures Diagnosis(raw) == "" <==> AllSpace(raw)
  {
    var s := Strip(raw);
    StripBlank(raw);
    CollapseBlank(s);
    if |s| > 0 {
      assert !IsSpace(s[0]);
    }
  }

  function OrEmpty(o: Option<string>): string {
    if o.Some? then o.value else ""
  }

  /** `r` is `s` with nothing but whitespace cut from its two ends. */
  ghost predicate Trimmed(s: string, r: string) {
    && (|r| > 0 ==> !IsSpace(r[0]) && !IsSpace(r[|r| - 1]))
    && exists a, b :: 0 <= a <= b <= |s| && r == s[a..b] && AllSpace(s[..a]) && AllSpace(s[b..])
  }

  /** `strip` cuts whitespace only, and all of it, from the two ends. */
  lemma StripTrimmed(s: string)
    ensures Trimmed(s, Strip(s))
  {
    var pre, post := StripCutsSpace(s);
    var a, b := |pre|, |pre| + |Strip(s)|;
    assert s[..a] == pre && s[a..b] == Strip(s) && s[b..] == post;
  }

  /** The five header fields computed from the captures: the name is the
      capture trimmed, the initials are the first letters of its words,
      the birth date is taken as captured, the month is the capture in
      upper case, and the diagnosis keeps the capture's words with single
      spaces between them. An absent capture gives an empty field. */
  function Fields(c: Captures): (h: HeaderData)
    ensures Trimmed(OrEmpty(c.name), h.name)
    ensures |h.initials| == |Split(OrEmpty(c.name))|
    ensures forall k :: 0 <= k < |h.initials| ==> h.initials[k] == UpperChar(Split(OrEmpty(c.name))[k][0])
    ensures h.birthDate == OrEmpty(c.birthDate)
    ensures IsUpper(h.monthYear) && Upper(h.monthYear) == Upper(OrEmpty(c.monthYear))
    ensures Collapsed(h.diagnosis) && Split(h.diagnosis) == Split(OrEmpty(c.diagnosis))
  {
    StripTrimmed(OrEmpty(c.name));
    SplitStrip(OrEmpty(c.name));
    UpperIsUpper(OrEmpty(c.monthYear));
    var name := if c.name.Some? then Strip(c.name.value) else "";
    var initials := if c.name.Some? then Initials(name) else "";
    var birth := if c.birthDate.Some? then c.birthDate.value else "";
    var month := if c.monthYear.Some? then Upper(c.monthYear.value) else "";
    var diag := if c.diagnosis.Some? then Diagnosis(c.diagnosis.value) else "";
    HeaderData(name, initials, birth, month, diag)
  }

  /** A capture that yields no text once cleaned: absent or whitespace only. */
  predicate Blank(o: Option<string>) {
    o.None? || AllSpace(o.value)
  }

  /** The header data, or `None` when every field came out empty. */
  function Extract(c: Captures): (r: Option<HeaderData>)
    ensures r.Some? ==> r.value == Fields(c) && !r.value.IsEmpty()
    ensures r.None? <==> && Blank(c.name) && Blank(c.diagnosis)
                         && (c.birthDate.None? || c.birthDate.value == "")
                         && (c.monthYear.None? || c.monthYear.value == "")
  {
    var h := Fields(c);
    StripBlank(OrEmpty(c.name));
    SplitBlank(h.name);
    DiagnosisBlank(OrEmpty(c.diagnosis));
    if h.IsEmpty() then None else Some(h)
  }

  /** Surrounding whitespace does not change the words of a text. */
  lemma {:induction false} SplitStrip(s: string)
    ensures Split(Strip(s)) == Split(s)
    decreases |s|
  {
    if |s| > 0 && IsSpace(s[0]) {
      SplitStrip(s[1..]);
      SplitBlankPrefix(s, 1);
    } else if |s| > 0 && IsSpace(s[|s| - 1]) {
      var p := s[..|s| - 1];
      SplitStrip(p);
      assert s == p + s[|s| - 1..];
      SplitBlankSuffix(p, s[|s| - 1..]);
    }
  }

  lemma {:induction false} SplitBlankPrefix(s: string, a: nat)
    requires a <= |s| && AllSpace(s[..a])
    ensures Split(s) == Split(s[a..])
  {
    if a > 0 {
      assert s[1..][..a - 1] == s[1..a];
      assert s[1..][a - 1..] == s[a..];
      assert IsSpace(s[..a][0]);
      SplitBlankPrefix(s[1..], a - 1);
    }
  }

  lemma {:induction false} SplitBlankSuffix(mid: string, post: string)
    requires AllSpace(post)
    ensures Split(mid + post) == Split(mid)
    decreases |mid|
  {
    if |mid| == 0 {
      assert mid + post == post;
      SplitBlank(post);
    } else if IsSpace(mid[0]) {
      assert (mid + post)[1..] == mid[1..] + post;
      SplitBlankSuffix(mid[1..], post);
    } else {
      var n := WordLength(mid);
      WordLengthBlankSuffix(mid, post);
      assert (mid + post)[..n] == mid[..n];
      assert (mid + post)[n..] == mid[n..] + post;
      SplitBlankSuffix(mid[n..], post);
    }
  }

  lemma {:induction false} WordLengthBlankSuffix(mid: string, post: string)
    requires AllSpace(post)
    ensures WordLength(mid + post) == WordLength(mid)
    decreases |mid|
  {
    if |mid| == 0 {
      assert mid + post == post;
    } else if !IsSpace(mid[0]) {
      assert (mid + post)[1..] == mid[1..] + post;
      WordLengthBlankSuffix(mid[1..], post);
    }
  }
}
