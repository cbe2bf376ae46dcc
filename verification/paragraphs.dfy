/** Paragraphs as runs of formatted text: the substitution of `{...}`
    placeholders in a paragraph, with the new text spread back over the
    paragraph's runs, and the filling of a table row's cells. A run keeps
    its formatting when its text is set; setting the text of a run replaces
    its content, so a drawing it held is gone. */
module Paragraphs {
  import opened Outcomes
  import opened Text
  import opened Header

  /** A run: its text, whether it holds a drawing, and an identifier for
      its character formatting. */
  datatype Run = Run(text: string, image: bool, format: nat)

  type Paragraph = seq<Run>

  /** The formatting of a run added to a paragraph that had none. */
  const PlainFormat: nat := 0

  /** `run.text = s`. */
  function WithText(r: Run, s: string): Run {
    Run(s, false, r.format)
  }

  /** `para.text`: the texts of the runs, joined. */
  function Joined(runs: Paragraph): string {
    if |runs| == 0 then "" else runs[0].text + Joined(runs[1..])
  }

  lemma {:induction false} JoinedAppend(a: Paragraph, b: Paragraph)
    ensures Joined(a + b) == Joined(a) + Joined(b)
  {
    if |a| > 0 {
      JoinedAppend(a[1..], b);
      assert (a + b)[1..] == a[1..] + b;
    } else {
      assert a + b == b;
    }
  }

  /** The joined text is empty exactly when every run's text is. */
  lemma {:induction false} JoinedEmpty(runs: Paragraph)
    ensures Joined(runs) == "" <==> forall k :: 0 <= k < |runs| ==> runs[k].text == ""
  {
    if |runs| > 0 {
      JoinedEmpty(runs[1..]);
      assert forall k :: 1 <= k < |runs| ==> runs[k] == runs[1..][k - 1];
    }
  }

  // ----------------------------------------------------------- placeholders

  /** The substitutions, in the order they are applied. Placeholders are
      non-empty. */
  datatype Variable = Variable(key: string, value: string)

  predicate Keyed(vars: seq<Variable>) {
    forall i :: 0 <= i < |vars| ==> |vars[i].key| > 0
  }

  /** One substitution: `if var in text: text = text.replace(var, value)`. */
  function Step(text: string, v: Variable): string
    requires |v.key| > 0
  {
    if Contains(text, v.key) then ReplaceAll(text, v.key, v.value) else text
  }

  /** Every substitution applied in turn to the text the previous ones left. */
  function Substitute(text: string, vars: seq<Variable>): string
    requires Keyed(vars)
    decreases |vars|
  {
    if |vars| == 0 then text else Substitute(Step(text, vars[0]), vars[1..])
  }

  /** The same chain with every `replace` applied unconditionally. */
  function ReplaceChain(text: string, vars: seq<Variable>): string
    requires Keyed(vars)
    decreases |vars|
  {
    if |vars| == 0 then text else ReplaceChain(ReplaceAll(text, vars[0].key, vars[0].value), vars[1..])
  }

  /** The `in` test before each `replace` changes nothing: the chain of
      guarded substitutions is the chain of plain `replace` calls. */
  lemma {:induction false} SubstituteIsReplaceChain(text: string, vars: seq<Variable>)
    requires Keyed(vars)
    ensures Substitute(text, vars) == ReplaceChain(text, vars)
    decreases |vars|
  {
    if |vars| > 0 {
      if !Contains(text, vars[0].key) {
        ReplaceAbsent(text, vars[0].key, vars[0].value);
      }
      SubstituteIsReplaceChain(Step(text, vars[0]), vars[1..]);
    }
  }

  /** Some placeholder occurs in the text. */
  predicate AnyOccurs(text: string, vars: seq<Variable>) {
    exists i :: 0 <= i < |vars| && Contains(text, vars[i].key)
  }

  /** A text with no placeholder comes out as it went in. */
  lemma {:induction false} SubstituteAbsent(text: string, vars: seq<Variable>)
    requires Keyed(vars) && !AnyOccurs(text, vars)
    ensures Substitute(text, vars) == text
    decreases |vars|
  {
    if |vars| > 0 {
      assert !Contains(text, vars[0].key);
      assert !AnyOccurs(text, vars[1..]) by {
        forall i | 0 <= i < |vars[1..]|
          ensures !Contains(text, vars[1..][i].key)
        {
          assert vars[1..][i] == vars[i + 1];
        }
      }
      SubstituteAbsent(text, vars[1..]);
    }
  }

  /** Nothing occurs in the empty text. */
  lemma EmptyHasNoPlaceholder(vars: seq<Variable>)
    requires Keyed(vars)
    ensures !AnyOccurs("", vars)
  {
    forall i | 0 <= i < |vars|
      ensures !Contains("", vars[i].key)
    {
    }
  }

  // --------------------------------------------------------- redistribution

  /** The share of the new text given to a run of length `n` out of a text
      of length `orig`. */
  function Share(n: nat, total: nat, orig: nat): nat
    requires orig > 0
  {
    n * total / orig
  }

  /** What one run receives, and where the next run's share starts. */
  datatype Cut = Cut(text: string, next: nat)

  /** The share of run `i`: an empty run gets nothing; the run at index
      `last` gets all the rest of the new text; any other run of length `n`
      gets the next `n * |target| / orig` characters (the float
      `int(n / orig * |target|)` taken exactly). */
  function Piece(runs: Paragraph, target: string, orig: nat, i: nat, pos: nat, last: int): Cut
    requires i < |runs| && orig > 0
  {
    if |runs[i].text| == 0 then Cut("", pos)
    else if i == last then Cut(From(target, pos), pos)
    else
      var size := Share(|runs[i].text|, |target|, orig);
      Cut(Slice(target, pos, pos + size), pos + size)
  }

  /** The runs `i ..` after the substitution, each given its share of the
      new text from position `pos` on. */
  function DistributeFrom(runs: Paragraph, target: string, orig: nat, i: nat, pos: nat, last: int)
    : (r: Paragraph)
    requires i <= |runs| && orig > 0
    ensures |r| == |runs| - i
    decreases |runs| - i
  {
    if i == |runs| then []
    else
      var c := Piece(runs, target, orig, i, pos, last);
      [WithText(runs[i], c.text)] + DistributeFrom(runs, target, orig, i + 1, c.next, last)
  }

  lemma JoinedCons(x: Run, rest: Paragraph)
    ensures Joined([x] + rest) == x.text + Joined(rest)
  {
    assert ([x] + rest)[1..] == rest;
  }

  /** The text of the runs from `i` on: this run's share, then the rest. */
  lemma DistributeStep(runs: Paragraph, target: string, orig: nat, i: nat, pos: nat, last: int)
    requires i < |runs| && orig > 0
    ensures var c := Piece(runs, target, orig, i, pos, last);
            Joined(DistributeFrom(runs, target, orig, i, pos, last))
            == c.text + Joined(DistributeFrom(runs, target, orig, i + 1, c.next, last))
  {
    var c := Piece(runs, target, orig, i, pos, last);
    JoinedCons(WithText(runs[i], c.text), DistributeFrom(runs, target, orig, i + 1, c.next, last));
  }

  /** The spread keeps every run's formatting, leaves the empty runs empty
      and holds no drawing. */
  lemma {:induction false} DistributeShape(runs: Paragraph, target: string, orig: nat, i: nat,
                                           pos: nat, last: int, k: nat)
    requires i <= |runs| && orig > 0 && k < |runs| - i
    ensures var r := DistributeFrom(runs, target, orig, i, pos, last);
            && r[k].format == runs[i + k].format
            && !r[k].image
            && (runs[i + k].text == "" ==> r[k].text == "")
    decreases k
  {
    if k > 0 {
      var c := Piece(runs, target, orig, i, pos, last);
      var rest := DistributeFrom(runs, target, orig, i + 1, c.next, last);
      assert DistributeFrom(runs, target, orig, i, pos, last)[k] == rest[k - 1];
      DistributeShape(runs, target, orig, i + 1, c.next, last, k - 1);
      assert i + 1 + (k - 1) == i + k;
    }
  }

  /** Runs that are all empty come out all empty. */
  lemma {:induction false} DistributeBlank(runs: Paragraph, target: string, orig: nat, i: nat,
                                           pos: nat, last: int)
    requires i <= |runs| && orig > 0
    requires forall j :: i <= j < |runs| ==> runs[j].text == ""
    ensures Joined(DistributeFrom(runs, target, orig, i, pos, last)) == ""
    decreases |runs| - i
  {
    if i < |runs| {
      var c := Piece(runs, target, orig, i, pos, last);
      DistributeBlank(runs, target, orig, i + 1, c.next, last);
      DistributeStep(runs, target, orig, i, pos, last);
    }
  }

  /** When the run taking the rest has text and every run after it is
      empty, the runs from `i` on hold exactly the new text from `pos` on. */
  lemma {:induction false} DistributeJoined(runs: Paragraph, target: string, orig: nat, i: nat,
                                            pos: nat, last: nat)
    requires i <= last < |runs| && orig > 0 && runs[last].text != ""
    requires forall j :: last < j < |runs| ==> runs[j].text == ""
    ensures Joined(DistributeFrom(runs, target, orig, i, pos, last)) == From(target, pos)
    decreases |runs| - i
  {
    var c := Piece(runs, target, orig, i, pos, last);
    if i == last {
      DistributeBlank(runs, target, orig, i + 1, c.next, last);
    } else {
      DistributeJoined(runs, target, orig, i + 1, c.next, last);
    }
    DistributeCombine(runs, target, orig, i, pos, last);
  }

  /** One run's share put in front of the text of the runs after it: the
      shares tile the new text. */
  lemma DistributeCombine(runs: Paragraph, target: string, orig: nat, i: nat, pos: nat, last: int)
    requires i < |runs| && orig > 0
    requires var c := Piece(runs, target, orig, i, pos, last);
             var tail := Joined(DistributeFrom(runs, target, orig, i + 1, c.next, last));
             if |runs[i].text| != 0 && i == last then tail == "" else tail == From(target, c.next)
    ensures Joined(DistributeFrom(runs, target, orig, i, pos, last)) == From(target, pos)
  {
    var c := Piece(runs, target, orig, i, pos, last);
    DistributeStep(runs, target, orig, i, pos, last);
    if |runs[i].text| == 0 {
      assert c == Cut("", pos);
    } else if i == last {
      assert c == Cut(From(target, pos), pos);
    } else {
      SliceFrom(target, pos, c.next);
    }
  }

  /** Index of the last run with text, or `|runs|` when there is none. */
  function LastNonEmpty(runs: Paragraph): (k: nat)
    ensures k <= |runs|
    ensures k < |runs| ==> runs[k].text != ""
    ensures forall j :: k < j < |runs| ==> runs[j].text == ""
    ensures k == |runs| ==> forall j :: 0 <= j < |runs| ==> runs[j].text == ""
    decreases |runs|
  {
    if |runs| == 0 then 0
    else if runs[|runs| - 1].text != "" then |runs| - 1
    else
      var k := LastNonEmpty(runs[..|runs| - 1]);
      if k == |runs| - 1 then |runs| else k
  }

  // -------------------------------------------------------------- paragraphs

  predicate HasImage(runs: Paragraph) {
    exists k :: 0 <= k < |runs| && runs[k].image
  }

  /** The substitution run by run, skipping the runs that hold a drawing. */
  function PerRun(runs: Paragraph, vars: seq<Variable>): (r: Paragraph)
    requires Keyed(vars)
    ensures |r| == |runs|
  {
    seq(|runs|, k requires 0 <= k < |runs| =>
      if runs[k].image then runs[k] else WithText(runs[k], Substitute(runs[k].text, vars)))
  }

  /** The substitution in one paragraph, with the run at index `last` taking
      the rest of the new text when the text is spread back over the runs. */
  function SubstituteWith(runs: Paragraph, vars: seq<Variable>, last: int): Paragraph
    requires Keyed(vars)
  {
    var full := Joined(runs);
    if !AnyOccurs(full, vars) then runs
    else if HasImage(runs) then PerRun(runs, vars)
    else if |full| == 0 then runs
    else DistributeFrom(runs, Substitute(full, vars), |full|, 0, 0, last)
  }

  /** The substitution as the converter writes it: the rest of the text
      goes to the run at the last index, even when that run is empty. */
  function SubstituteAsWritten(runs: Paragraph, vars: seq<Variable>): Paragraph
    requires Keyed(vars)
  {
    SubstituteWith(runs, vars, |runs| - 1)
  }

  /** The substitution with the rest of the text going to the last run that
      has text, so that nothing is lost. */
  function SubstituteParagraph(runs: Paragraph, vars: seq<Variable>): Paragraph
    requires Keyed(vars)
  {
    SubstituteWith(runs, vars, LastNonEmpty(runs))
  }

  /** Whichever run takes the rest of the text, a paragraph without
      placeholders is left alone; otherwise it keeps its runs, their
      formatting and their drawings, and a run that was empty stays empty. */
  lemma ParagraphShape(runs: Paragraph, vars: seq<Variable>, last: int, k: nat)
    requires Keyed(vars) && k < |runs|
    ensures !AnyOccurs(Joined(runs), vars) ==> SubstituteWith(runs, vars, last) == runs
    ensures var r := SubstituteWith(runs, vars, last);
            && |r| == |runs|
            && r[k].format == runs[k].format
            && (runs[k].image ==> r[k] == runs[k])
            && (runs[k].text == "" ==> r[k].text == "")
  {
    var full := Joined(runs);
    if AnyOccurs(full, vars) && !HasImage(runs) && |full| > 0 {
      DistributeShape(runs, Substitute(full, vars), |full|, 0, 0, last, k);
    } else if AnyOccurs(full, vars) && HasImage(runs) && runs[k].text == "" {
      EmptyHasNoPlaceholder(vars);
      SubstituteAbsent("", vars);
    }
  }

  /** Without drawings, the paragraph's new text is the substituted text:
      the runs' texts, joined, are the old joined text with every
      placeholder replaced. */
  lemma ParagraphText(runs: Paragraph, vars: seq<Variable>)
    requires Keyed(vars) && !HasImage(runs)
    ensures Joined(SubstituteParagraph(runs, vars)) == Substitute(Joined(runs), vars)
  {
    var full := Joined(runs);
    if !AnyOccurs(full, vars) {
      SubstituteAbsent(full, vars);
    } else if |full| > 0 {
      var last := LastNonEmpty(runs);
      JoinedEmpty(runs);
      DistributeJoined(runs, Substitute(full, vars), |full|, 0, 0, last);
    }
  }

  /** With a drawing in the paragraph, each run without one has its own text
      substituted, and the runs with one are kept, whichever run would have
      taken the rest. */
  lemma ParagraphWithImage(runs: Paragraph, vars: seq<Variable>, last: int, k: nat)
    requires Keyed(vars) && HasImage(runs) && AnyOccurs(Joined(runs), vars) && k < |runs|
    ensures var r := SubstituteWith(runs, vars, last);
            && (runs[k].image ==> r[k] == runs[k])
            && (!runs[k].image ==> r[k] == Run(Substitute(runs[k].text, vars), false, runs[k].format))
  {
  }

  /** When no run after the one taking the rest has text, the runs from `i`
      on hold a prefix of the new text from `pos` on: the shares never
      overlap or skip, they can only stop short. */
  lemma {:induction false} DistributePrefix(runs: Paragraph, target: string, orig: nat, i: nat,
                                            pos: nat, last: int)
    requires i <= |runs| && orig > 0
    requires forall j :: 0 <= j < |runs| && last < j ==> runs[j].text == ""
    ensures Joined(DistributeFrom(runs, target, orig, i, pos, last)) <= From(target, pos)
    decreases |runs| - i
  {
    if i < |runs| {
      var c := Piece(runs, target, orig, i, pos, last);
      if |runs[i].text| != 0 && i == last {
        DistributeBlank(runs, target, orig, i + 1, c.next, last);
      } else {
        DistributePrefix(runs, target, orig, i + 1, c.next, last);
      }
      PrefixCombine(runs, target, orig, i, pos, last);
    }
  }

  /** One run's share put in front of a prefix of the text after it. */
  lemma PrefixCombine(runs: Paragraph, target: string, orig: nat, i: nat, pos: nat, last: int)
    requires i < |runs| && orig > 0
    requires var c := Piece(runs, target, orig, i, pos, last);
             var tail := Joined(DistributeFrom(runs, target, orig, i + 1, c.next, last));
             if |runs[i].text| != 0 && i == last then tail == "" else tail <= From(target, c.next)
    ensures Joined(DistributeFrom(runs, target, orig, i, pos, last)) <= From(target, pos)
  {
    var c := Piece(runs, target, orig, i, pos, last);
    var tail := Joined(DistributeFrom(runs, target, orig, i + 1, c.next, last));
    DistributeStep(runs, target, orig, i, pos, last);
    if |runs[i].text| == 0 {
      assert c == Cut("", pos);
    } else if i == last {
      assert c == Cut(From(target, pos), pos);
    } else {
      SliceFrom(target, pos, c.next);
      PrefixAppend(c.text, tail, From(target, c.next));
    }
  }

  lemma PrefixAppend(a: string, b: string, c: string)
    requires b <= c
    ensures a + b <= a + c
  {
    assert (a + c)[..|a + b|] == a + c[..|b|];
  }

  /** The converter's spread, without drawings: the runs' new texts, joined,
      are always a prefix of the substituted text, and all of it when the
      last run has text. */
  lemma AsWrittenText(runs: Paragraph, vars: seq<Variable>)
    requires Keyed(vars) && !HasImage(runs)
    ensures Joined(SubstituteAsWritten(runs, vars)) <= Substitute(Joined(runs), vars)
    ensures |runs| > 0 && runs[|runs| - 1].text != "" ==>
              Joined(SubstituteAsWritten(runs, vars)) == Substitute(Joined(runs), vars)
  {
    var full := Joined(runs);
    if !AnyOccurs(full, vars) {
      SubstituteAbsent(full, vars);
    } else if |full| > 0 {
      DistributePrefix(runs, Substitute(full, vars), |full|, 0, 0, |runs| - 1);
    }
    if |runs| > 0 && runs[|runs| - 1].text != "" {
      AsWrittenAgrees(runs, vars);
      ParagraphText(runs, vars);
    }
  }

  /** When the last run has text, the converter's spread is the corrected one. */
  lemma AsWrittenAgrees(runs: Paragraph, vars: seq<Variable>)
    requires Keyed(vars) && |runs| > 0 && runs[|runs| - 1].text != ""
    ensures SubstituteAsWritten(runs, vars) == SubstituteParagraph(runs, vars)
  {
    assert LastNonEmpty(runs) == |runs| - 1;
  }

  /** The runs of the example below: the placeholder sits in the middle run
      and the last run is empty. */
  function ExampleRuns(): Paragraph {
    [Run("Nome ", false, 1), Run("{INICIAIS}", false, 2), Run("", false, 3)]
  }

  function ExampleVars(): seq<Variable> {
    [Variable(InitialsKey, "JP")]
  }

  /** A paragraph `Nome {INICIAIS}` whose last run is empty: the converter
      gives the runs `No`, `me J` and ``, losing the final `P`, where the
      corrected spread keeps it. */
  lemma AsWrittenLosesText()
    ensures Substitute(Joined(ExampleRuns()), ExampleVars()) == "Nome JP"
    ensures Joined(SubstituteAsWritten(ExampleRuns(), ExampleVars())) == "Nome J"
    ensures Joined(SubstituteParagraph(ExampleRuns(), ExampleVars())) == "Nome JP"
  {
    var runs, vars := ExampleRuns(), ExampleVars();
    ExampleSubstitute();
    assert !HasImage(runs);
    ExampleSpread();
    ParagraphText(runs, vars);
  }

  lemma ExampleSubstitute()
    ensures AnyOccurs(Joined(ExampleRuns()), ExampleVars())
    ensures Substitute(Joined(ExampleRuns()), ExampleVars()) == "Nome JP"
  {
    var runs, vars := ExampleRuns(), ExampleVars();
    var full := Joined(runs);
    assert full == "Nome " + "{INICIAIS}" by {
      JoinedCons(runs[0], runs[1..]);
      JoinedCons(runs[1], runs[2..]);
      JoinedCons(runs[2], runs[3..]);
    }
    assert OccursAt(full, vars[0].key, 5);
    assert Contains(full, vars[0].key);
    ReplaceAtEnd("Nome ", "{INICIAIS}", "JP");
  }

  lemma ExampleSpread()
    ensures Joined(DistributeFrom(ExampleRuns(), "Nome JP", 15, 0, 0, 2)) == "Nome J"
  {
    var runs, target := ExampleRuns(), "Nome JP";
    assert Piece(runs, target, 15, 0, 0, 2) == Cut("No", 2) by {
      assert Share(5, 7, 15) == 2;
      assert target[0..2] == "No";
    }
    assert Piece(runs, target, 15, 1, 2, 2) == Cut("me J", 6) by {
      assert Share(10, 7, 15) == 4;
      assert target[2..6] == "me J";
    }
    assert Piece(runs, target, 15, 2, 6, 2) == Cut("", 6);
    assert DistributeFrom(runs, target, 15, 3, 6, 2) == [];
    DistributeStep(runs, target, 15, 2, 6, 2);
    var j2 := Joined(DistributeFrom(runs, target, 15, 2, 6, 2));
    assert j2 == "";
    DistributeStep(runs, target, 15, 1, 2, 2);
    var j1 := Joined(DistributeFrom(runs, target, 15, 1, 2, 2));
    assert j1 == "me J" + j2;
    DistributeStep(runs, target, 15, 0, 0, 2);
    assert Joined(DistributeFrom(runs, target, 15, 0, 0, 2)) == "No" + j1;
  }

  /** `(p + pat).replace(pat, val)` when no character of `p` starts the pattern. */
  lemma {:induction false} ReplaceAtEnd(p: string, pat: string, val: string)
    requires |pat| > 0
    requires forall i :: 0 <= i < |p| ==> p[i] != pat[0]
    ensures ReplaceAll(p + pat, pat, val) == p + val
    decreases |p|
  {
    var s := p + pat;
    if |p| == 0 {
      assert s == pat;
      assert s[..|pat|] == pat;
      assert s[|pat|..] == [];
    } else {
      assert s[..|pat|][0] == p[0];
      assert s[1..] == p[1..] + pat;
      ReplaceAtEnd(p[1..], pat, val);
      assert [s[0]] + (p[1..] + val) == p + val;
    }
  }

  // ------------------------------------------------------------ header data

  const MonthYearKey := "{MES_ANO}"
  const PatientKey := "{NOME_PACIENTE}"
  const InitialsKey := "{INICIAIS}"
  const BirthDateKey := "{DATA_NASCIMENTO}"
  const DiagnosisKey := "{CODIGOS_CID_E_DESCRICAO}"

  /** The five header placeholders and their values, in the order they are
      applied. */
  function HeaderVariables(h: HeaderData): (vars: seq<Variable>)
    ensures Keyed(vars)
  {
    [ Variable(MonthYearKey, h.monthYear),
      Variable(PatientKey, h.name),
      Variable(InitialsKey, h.initials),
      Variable(BirthDateKey, h.birthDate),
      Variable(DiagnosisKey, h.diagnosis) ]
  }

  /** The header data substituted, as the converter spreads it, into every
      paragraph of the page headers and of the body; nothing changes when
      there is no header data. */
  function SubstituteHeader(paras: seq<Paragraph>, h: Option<HeaderData>): (r: seq<Paragraph>)
    ensures |r| == |paras|
  {
    match h
    case None => paras
    case Some(data) =>
      seq(|paras|, k requires 0 <= k < |paras| => SubstituteAsWritten(paras[k], HeaderVariables(data)))
  }

  /** Each paragraph is substituted on its own. A paragraph without drawings
      ends up holding a prefix of its old text with the five placeholders
      replaced, and all of that text when its last run has text. Without
      header data nothing changes. */
  lemma HeaderParagraph(paras: seq<Paragraph>, h: Option<HeaderData>, k: nat)
    requires k < |paras| && !HasImage(paras[k])
    ensures h.None? ==> SubstituteHeader(paras, h) == paras
    ensures h.Some? ==>
              var r := Joined(SubstituteHeader(paras, h)[k]);
              var full := ReplaceChain(Joined(paras[k]), HeaderVariables(h.value));
              && r <= full
              && (|paras[k]| > 0 && paras[k][|paras[k]| - 1].text != "" ==> r == full)
  {
    if h.Some? {
      AsWrittenText(paras[k], HeaderVariables(h.value));
      SubstituteIsReplaceChain(Joined(paras[k]), HeaderVariables(h.value));
    }
  }

  // ------------------------------------------------------------ table cells

  /** A cell as its paragraphs, and a table row as its cells. */
  type Cell = seq<Paragraph>
  type TableRow = seq<Cell>

  /** Every run's text cleared, then the value put in the first run; a
      paragraph without runs gets one run holding the value. */
  function FillParagraph(runs: Paragraph, value: string): (r: Paragraph)
  {
    if |runs| == 0 then [Run(value, false, PlainFormat)]
    else [WithText(runs[0], value)]
         + seq(|runs| - 1, k requires 0 <= k < |runs| - 1 => WithText(runs[k + 1], ""))
  }

  /** The value goes into the cell's first paragraph; a cell without
      paragraphs is left as it is. */
  function FillCell(cell: Cell, value: string): Cell {
    if |cell| == 0 then cell else [FillParagraph(cell[0], value)] + cell[1..]
  }

  /** `preencher_linha_tabela`: value `i` into cell `i`, for the positions
      both have. */
  function FillRow(row: TableRow, values: seq<string>): (r: TableRow)
    ensures |r| == |row|
  {
    seq(|row|, i requires 0 <= i < |row| => if i < |values| then FillCell(row[i], values[i]) else row[i])
  }

  /** A filled paragraph holds exactly the value, all of it in its first
      run and none in the others; it keeps the formatting of its runs, holds
      no drawing, and adds a run, of plain formatting, only when it had none. */
  lemma FillParagraphText(runs: Paragraph, value: string)
    ensures var r := FillParagraph(runs, value);
            && Joined(r) == value
            && |r| == (if |runs| == 0 then 1 else |runs|)
            && r[0].text == value
            && (forall k :: 1 <= k < |r| ==> r[k].text == "")
            && (forall k :: 0 <= k < |r| ==> !r[k].image)
            && (forall k :: 0 <= k < |runs| ==> r[k].format == runs[k].format)
            && (|runs| == 0 ==> r[0].format == PlainFormat)
  {
    var r := FillParagraph(runs, value);
    if |runs| > 0 {
      JoinedEmpty(r[1..]);
      assert r == [r[0]] + r[1..];
    }
  }

  /** Each cell with a paragraph and a value now shows the value in its first
      paragraph; its other paragraphs and the cells past the values are
      unchanged. */
  lemma FillRowCells(row: TableRow, values: seq<string>, i: nat)
    requires i < |row|
    ensures var c := FillRow(row, values)[i];
            && (i >= |values| || |row[i]| == 0 ==> c == row[i])
            && (i < |values| && |row[i]| > 0 ==>
                  |c| == |row[i]| && Joined(c[0]) == values[i] && c[1..] == row[i][1..])
  {
    if i < |values| && |row[i]| > 0 {
      FillParagraphText(row[i][0], values[i]);
    }
  }
}
