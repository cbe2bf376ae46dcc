/** The evolution document: the records grouped by specialty, in sorted
    order, each group under a copy of the template's title paragraph and in a
    copy of the template's table trimmed to its header row, one row per
    record with its date, start and end time. */
module Evolution {
  import opened Outcomes
  import opened Text
  import opened Clock
  import opened Header
  import opened Paragraphs
  import Attendance

  type Record = Attendance.Record

  // ------------------------------------------------------------ specialties

  /** Strictly increasing in code-point order. */
  predicate Increasing(s: seq<string>) {
    forall i :: 0 < i < |s| ==> Below(s[i - 1], s[i])
  }

  function Elements(s: seq<string>): set<string> {
    set x | x in s
  }

  /** `x` put in its place in an increasing list, unless already there. */
  function Insert(s: seq<string>, x: string): seq<string>
    decreases |s|
  {
    if |s| == 0 then [x]
    else if s[0] == x then s
    else if Below(x, s[0]) then [x] + s
    else [s[0]] + Insert(s[1..], x)
  }

  /** Insertion keeps the list increasing and adds exactly `x`. */
  lemma {:induction false} InsertIncreasing(s: seq<string>, x: string)
    requires Increasing(s)
    ensures Increasing(Insert(s, x))
    ensures Elements(Insert(s, x)) == Elements(s) + {x}
    ensures |Insert(s, x)| > 0 && (Insert(s, x)[0] == x || (|s| > 0 && Insert(s, x)[0] == s[0]))
    decreases |s|
  {
    if |s| > 0 && s[0] != x && !Below(x, s[0]) {
      var t := s[1..];
      assert Increasing(t) by {
        forall i | 0 < i < |t| ensures Below(t[i - 1], t[i]) {
          assert t[i - 1] == s[i] && t[i] == s[i + 1];
        }
      }
      InsertIncreasing(t, x);
      BelowTotal(x, s[0]);
      assert |t| > 0 ==> Below(s[0], t[0]) by {
        if |t| > 0 {
          assert t[0] == s[1];
        }
      }
      ConsIncreasing(s[0], Insert(t, x));
      assert s == [s[0]] + t;
      assert Elements(Insert(s, x)) == {s[0]} + Elements(Insert(t, x));
      assert Elements(s) == {s[0]} + Elements(t);
    } else if |s| > 0 && s[0] != x {
      ConsIncreasing(x, s);
    }
  }

  /** An element below the head of an increasing list can go in front of it. */
  lemma ConsIncreasing(a: string, rest: seq<string>)
    requires Increasing(rest) && (|rest| > 0 ==> Below(a, rest[0]))
    ensures Increasing([a] + rest)
  {
    var r := [a] + rest;
    forall i | 0 < i < |r| ensures Below(r[i - 1], r[i]) {
      if i > 1 {
        assert r[i - 1] == rest[i - 2] && r[i] == rest[i - 1];
      }
    }
  }

  /** In an increasing list every earlier element is below every later one,
      so no element appears twice. */
  lemma {:induction false} IncreasingPairs(s: seq<string>, i: nat, j: nat)
    requires Increasing(s) && i < j < |s|
    ensures Below(s[i], s[j]) && s[i] != s[j]
    decreases j - i
  {
    if i + 1 < j {
      IncreasingPairs(s, i, j - 1);
      BelowTransitive(s[i], s[j - 1], s[j]);
    }
    BelowIrreflexive(s[i]);
  }

  /** The procedures of the records. */
  function Procedures(recs: seq<Record>): set<string> {
    set r | r in recs :: r.procedure
  }

  /** `sorted(set(d['procedimento'] for d in dados))`. */
  function Specialties(recs: seq<Record>): seq<string>
    decreases |recs|
  {
    if |recs| == 0 then []
    else Insert(Specialties(recs[..|recs| - 1]), recs[|recs| - 1].procedure)
  }

  /** The specialties are increasing (hence sorted and distinct) and are
      exactly the records' procedures. */
  lemma {:induction false} SpecialtiesSorted(recs: seq<Record>)
    ensures Increasing(Specialties(recs))
    ensures Elements(Specialties(recs)) == Procedures(recs)
    decreases |recs|
  {
    if |recs| > 0 {
      var init := recs[..|recs| - 1];
      var last := recs[|recs| - 1];
      SpecialtiesSorted(init);
      InsertIncreasing(Specialties(init), last.procedure);
      assert recs == init + [last];
      assert Procedures(recs) == Procedures(init) + {last.procedure};
    }
  }

  /** The tail of an increasing list is increasing and lacks the head. */
  lemma IncreasingTail(s: seq<string>)
    requires Increasing(s) && |s| > 0
    ensures Increasing(s[1..])
    ensures s[0] !in Elements(s[1..])
    ensures Elements(s) == {s[0]} + Elements(s[1..])
  {
    var t := s[1..];
    forall i | 0 < i < |t| ensures Below(t[i - 1], t[i]) {
      assert t[i - 1] == s[i];
    }
    forall k | 0 <= k < |t| ensures t[k] != s[0] {
      IncreasingPairs(s, 0, k + 1);
    }
    assert s == [s[0]] + t;
  }

  /** Two increasing lists with the same elements are the same list: the
      specialties are the one sorted list of the distinct procedures. */
  lemma {:induction false} IncreasingUnique(a: seq<string>, b: seq<string>)
    requires Increasing(a) && Increasing(b) && Elements(a) == Elements(b)
    ensures a == b
    decreases |a|
  {
    if |a| > 0 {
      assert a[0] in Elements(a);
    }
    if |b| > 0 {
      assert b[0] in Elements(b);
    }
    if |a| > 0 && |b| > 0 {
      assert a[0] == b[0] by {
        if a[0] != b[0] {
          var i :| 0 <= i < |b| && b[i] == a[0];
          var j :| 0 <= j < |a| && a[j] == b[0];
          IncreasingPairs(b, 0, i);
          IncreasingPairs(a, 0, j);
          BelowTransitive(a[0], b[0], a[0]);
          BelowIrreflexive(a[0]);
        }
      }
      IncreasingTail(a);
      IncreasingTail(b);
      IncreasingUnique(a[1..], b[1..]);
      assert a == [a[0]] + a[1..] && b == [b[0]] + b[1..];
    }
  }

  // --------------------------------------------------------------- grouping

  /** `[d for d in dados if d['procedimento'] == esp]`. */
  function Group(recs: seq<Record>, p: string): (g: seq<Record>)
    ensures |g| <= |recs|
    decreases |recs|
  {
    if |recs| == 0 then []
    else (if recs[0].procedure == p then [recs[0]] else []) + Group(recs[1..], p)
  }

  /** A group holds every record of its procedure, as often as the records
      do, and no other record. */
  lemma {:induction false} GroupCount(recs: seq<Record>, p: string, r: Record)
    ensures multiset(Group(recs, p))[r] == if r.procedure == p then multiset(recs)[r] else 0
    decreases |recs|
  {
    if |recs| > 0 {
      GroupCount(recs[1..], p, r);
      assert recs == [recs[0]] + recs[1..];
    }
  }

  /** Position in `recs` of the `k`-th record of the group. */
  function Pos(recs: seq<Record>, p: string, k: nat): nat
    requires k < |Group(recs, p)|
    decreases |recs|
  {
    if recs[0].procedure == p then
      if k == 0 then 0 else 1 + Pos(recs[1..], p, k - 1)
    else 1 + Pos(recs[1..], p, k)
  }

  /** The `k`-th record of a group is the record at its position. */
  lemma {:induction false} PosAt(recs: seq<Record>, p: string, k: nat)
    requires k < |Group(recs, p)|
    ensures Pos(recs, p, k) < |recs| && recs[Pos(recs, p, k)] == Group(recs, p)[k]
    decreases |recs|
  {
    if recs[0].procedure == p {
      if k > 0 {
        PosAt(recs[1..], p, k - 1);
      }
    } else {
      PosAt(recs[1..], p, k);
    }
  }

  /** A group keeps the records in their original order: later records of
      the group sit at later positions. */
  lemma {:induction false} PosIncreasing(recs: seq<Record>, p: string, k: nat)
    requires k + 1 < |Group(recs, p)|
    ensures Pos(recs, p, k) < Pos(recs, p, k + 1)
    decreases |recs|
  {
    if recs[0].procedure == p {
      if k > 0 {
        PosIncreasing(recs[1..], p, k - 1);
      }
    } else {
      PosIncreasing(recs[1..], p, k);
    }
  }

  /** The groups of `specs`, one after the other. */
  function Flat(recs: seq<Record>, specs: seq<string>): seq<Record>
    decreases |specs|
  {
    if |specs| == 0 then [] else Group(recs, specs[0]) + Flat(recs, specs[1..])
  }

  /** The records whose procedure is among `ps`. */
  function Among(recs: seq<Record>, ps: set<string>): seq<Record>
    decreases |recs|
  {
    if |recs| == 0 then []
    else (if recs[0].procedure in ps then [recs[0]] else []) + Among(recs[1..], ps)
  }

  lemma {:induction false} AmongSplit(recs: seq<Record>, p: string, ps: set<string>)
    requires p !in ps
    ensures multiset(Among(recs, {p} + ps)) == multiset(Group(recs, p)) + multiset(Among(recs, ps))
    decreases |recs|
  {
    if |recs| > 0 {
      AmongSplit(recs[1..], p, ps);
    }
  }

  lemma {:induction false} AmongAll(recs: seq<Record>, ps: set<string>)
    requires Procedures(recs) <= ps
    ensures Among(recs, ps) == recs
    decreases |recs|
  {
    if |recs| > 0 {
      assert recs[0] in recs;
      assert Procedures(recs[1..]) <= Procedures(recs) by {
        forall r | r in recs[1..] ensures r in recs { }
      }
      AmongAll(recs[1..], ps);
      assert recs == [recs[0]] + recs[1..];
    }
  }

  lemma {:induction false} FlatAmong(recs: seq<Record>, specs: seq<string>)
    requires Increasing(specs)
    ensures multiset(Flat(recs, specs)) == multiset(Among(recs, Elements(specs)))
    decreases |specs|
  {
    if |specs| == 0 {
      AmongNone(recs);
      assert Elements(specs) == {};
    } else {
      IncreasingTail(specs);
      FlatAmong(recs, specs[1..]);
      AmongSplit(recs, specs[0], Elements(specs[1..]));
    }
  }

  lemma {:induction false} AmongNone(recs: seq<Record>)
    ensures Among(recs, {}) == []
    decreases |recs|
  {
    if |recs| > 0 {
      AmongNone(recs[1..]);
    }
  }

  /** The groups, taken in specialty order, are a rearrangement of the
      records: every record falls in exactly one group. */
  lemma GroupsPartition(recs: seq<Record>)
    ensures multiset(Flat(recs, Specialties(recs))) == multiset(recs)
  {
    SpecialtiesSorted(recs);
    FlatAmong(recs, Specialties(recs));
    AmongAll(recs, Elements(Specialties(recs)));
  }

  // -------------------------------------------------------------- the rows

  /** The records whose start time parses with `%H:%M`. */
  function Timed(recs: seq<Record>): seq<Record>
    decreases |recs|
  {
    if |recs| == 0 then []
    else (if ParseTime(recs[0].start).Some? then [recs[0]] else []) + Timed(recs[1..])
  }

  lemma {:induction false} TimedGroup(recs: seq<Record>, p: string)
    ensures Timed(Group(recs, p)) == Group(Timed(recs), p)
    decreases |recs|
  {
    if |recs| > 0 {
      var r := recs[0];
      var g0 := if r.procedure == p then [r] else [];
      var t0 := if ParseTime(r.start).Some? then [r] else [];
      TimedGroup(recs[1..], p);
      TimedAppend(g0, Group(recs[1..], p));
      GroupAppend(t0, Timed(recs[1..]), p);
      assert Timed(g0) == Group(t0, p) by {
        if |g0| > 0 {
          assert g0[1..] == [];
        }
        if |t0| > 0 {
          assert t0[1..] == [];
        }
      }
    }
  }

  lemma {:induction false} GroupAppend(a: seq<Record>, b: seq<Record>, p: string)
    ensures Group(a + b, p) == Group(a, p) + Group(b, p)
    decreases |a|
  {
    if |a| > 0 {
      GroupAppend(a[1..], b, p);
      assert (a + b)[1..] == a[1..] + b;
    } else {
      assert a + b == b;
    }
  }

  lemma {:induction false} TimedAppend(a: seq<Record>, b: seq<Record>)
    ensures Timed(a + b) == Timed(a) + Timed(b)
    decreases |a|
  {
    if |a| > 0 {
      TimedAppend(a[1..], b);
      assert (a + b)[1..] == a[1..] + b;
    } else {
      assert a + b == b;
    }
  }

  /** The five cells of an output row: date, start as written, end time,
      and the two columns left for the clinician. */
  function RowValues(r: Record, duration: int): (v: seq<string>)
    requires ParseTime(r.start).Some?
    ensures |v| == 5
  {
    [r.date, r.start, EndTime(r.start, duration).value, "", ""]
  }

  /** One copy of the model row per record, filled, skipping the records
      whose start does not parse (the error is logged and the loop goes on). */
  function Rows(group: seq<Record>, model: TableRow, duration: int): seq<TableRow>
    decreases |group|
  {
    if |group| == 0 then []
    else if ParseTime(group[0].start).Some? then
      [FillRow(model, RowValues(group[0], duration))] + Rows(group[1..], model, duration)
    else Rows(group[1..], model, duration)
  }

  /** Row `k` is the model row filled with the values of the `k`-th record
      whose start parses, and there is one row per such record. */
  lemma {:induction false} RowsAt(group: seq<Record>, model: TableRow, duration: int, k: nat)
    ensures |Rows(group, model, duration)| == |Timed(group)|
    ensures k < |Timed(group)| ==>
              var r := Timed(group)[k];
              ParseTime(r.start).Some? && Rows(group, model, duration)[k] == FillRow(model, RowValues(r, duration))
    decreases |group|
  {
    if |group| > 0 {
      if ParseTime(group[0].start).Some? && k > 0 {
        RowsAt(group[1..], model, duration, k - 1);
      } else {
        RowsAt(group[1..], model, duration, k);
      }
      assert Timed(group) == (if ParseTime(group[0].start).Some? then [group[0]] else []) + Timed(group[1..]);
    }
  }

  /** The end-time cell reads back as the start moved forward by the
      duration, modulo a day. */
  lemma RowEnd(r: Record, duration: int)
    requires ParseTime(r.start).Some?
    ensures var v := RowValues(r, duration);
            && v[0] == r.date && v[1] == r.start && v[3] == "" && v[4] == ""
            && ParseTime(v[2]).Some?
            && ParseTime(v[2]).value.Minutes() == (ParseTime(r.start).value.Minutes() + duration) % MinutesPerDay
  {
    EndTimeMinutes(r.start, duration);
  }

  /** The loop that removes the second row of the cloned table `n` times,
      while it has more than one row. */
  function RemoveSecond(rows: seq<TableRow>, n: nat): seq<TableRow>
    decreases n
  {
    if n == 0 then rows
    else RemoveSecond(if |rows| > 1 then [rows[0]] + rows[2..] else rows, n - 1)
  }

  /** Running that loop `|rows| - 1` times leaves the header row alone. */
  lemma TrimToHeader(rows: seq<TableRow>)
    requires |rows| > 0
    ensures RemoveSecond(rows, |rows| - 1) == rows[..1]
  {
    RemoveSecondShrinks(rows, |rows| - 1);
  }

  lemma {:induction false} RemoveSecondShrinks(rows: seq<TableRow>, n: nat)
    requires 0 < |rows| <= n + 1
    ensures RemoveSecond(rows, n) == rows[..1]
    decreases n
  {
    if n > 0 {
      var next := if |rows| > 1 then [rows[0]] + rows[2..] else rows;
      RemoveSecondShrinks(next, n - 1);
      assert next[..1] == rows[..1];
    } else {
      assert rows == rows[..1];
    }
  }

  // ------------------------------------------------------------- the title

  const TitleKey := "{NOME_ESPECIALIDADE}"

  /** The title of one specialty: the template's title paragraph with the
      placeholder replaced inside each run that holds all of it, or, when
      the template has no title paragraph, a plain paragraph with the
      specialty's name. */
  function Title(model: Option<Paragraph>, esp: string): (t: Paragraph)
    ensures model.Some? ==> |t| == |model.value|
  {
    match model
    case None => [Run(esp, false, PlainFormat)]
    case Some(p) =>
      seq(|p|, k requires 0 <= k < |p| =>
        if Contains(p[k].text, TitleKey) then WithText(p[k], ReplaceAll(p[k].text, TitleKey, esp))
        else p[k])
  }

  /** Every run of the copied title has the placeholder replaced in its
      own text and keeps its formatting; runs without the placeholder are
      kept whole, drawing included. Without a model the title reads just
      the specialty. */
  lemma TitleRuns(model: Option<Paragraph>, esp: string, k: nat)
    ensures model.None? ==> Joined(Title(model, esp)) == esp
    ensures model.Some? && k < |model.value| ==>
              var t := Title(model, esp);
              && t[k].text == ReplaceAll(model.value[k].text, TitleKey, esp)
              && t[k].format == model.value[k].format
              && (!Contains(model.value[k].text, TitleKey) ==> t[k] == model.value[k])
  {
    if model.Some? && k < |model.value| && !Contains(model.value[k].text, TitleKey) {
      ReplaceAbsent(model.value[k].text, TitleKey, esp);
    }
    if model.None? {
      JoinedCons(Run(esp, false, PlainFormat), []);
    }
  }

  // ---------------------------------------------------------- the document

  /** A body element: a paragraph, a table of rows of cells, or the body's
      closing section properties (`w:sectPr`). A paragraph added with
      `add_paragraph` goes in before the section properties; an element
      appended to the body goes after them. */
  datatype Block = Para(runs: Paragraph) | Grid(rows: seq<TableRow>) | SectionEnd

  /** The page-header paragraphs and the body of a document. */
  datatype Document = Document(headers: seq<Paragraph>, body: seq<Block>)

  /** Why no document is written. */
  datatype Refusal = NoData | TemplateMissing | NoModelTable | ModelTableTooShort

  /** One specialty's part of the output: its title and its table. */
  datatype Section = Section(title: Paragraph, table: seq<TableRow>)

  /** The body paragraphs with the header data substituted as the converter
      spreads it; tables and section properties are not touched. */
  function SubstituteBlocks(body: seq<Block>, h: Option<HeaderData>): (r: seq<Block>)
    ensures |r| == |body|
  {
    seq(|body|, k requires 0 <= k < |body| =>
      if body[k].Para? && h.Some? then Para(SubstituteAsWritten(body[k].runs, HeaderVariables(h.value)))
      else body[k])
  }

  /** Index of the first table. */
  function FirstGrid(body: seq<Block>, i: nat): (r: Option<nat>)
    requires i <= |body|
    ensures r.Some? ==> i <= r.value < |body| && body[r.value].Grid?
    ensures r.Some? ==> forall j :: i <= j < r.value ==> !body[j].Grid?
    ensures r.None? ==> forall j :: i <= j < |body| ==> !body[j].Grid?
    decreases |body| - i
  {
    if i == |body| then None
    else if body[i].Grid? then Some(i)
    else FirstGrid(body, i + 1)
  }

  /** Index of the first section properties, before which `add_paragraph`
      puts a new paragraph. */
  function FirstEnd(blocks: seq<Block>, i: nat): (r: Option<nat>)
    requires i <= |blocks|
    ensures r.Some? ==> i <= r.value < |blocks| && blocks[r.value].SectionEnd?
    ensures r.Some? ==> forall j :: i <= j < r.value ==> !blocks[j].SectionEnd?
    ensures r.None? ==> forall j :: i <= j < |blocks| ==> !blocks[j].SectionEnd?
    decreases |blocks| - i
  {
    if i == |blocks| then None
    else if blocks[i].SectionEnd? then Some(i)
    else FirstEnd(blocks, i + 1)
  }

  predicate IsTitle(b: Block) {
    b.Para? && Contains(Joined(b.runs), TitleKey)
  }

  /** Index of the first paragraph holding the title placeholder. */
  function FindTitle(body: seq<Block>, i: nat): (r: Option<nat>)
    requires i <= |body|
    ensures r.Some? ==> i <= r.value < |body| && IsTitle(body[r.value])
    ensures r.Some? ==> forall j :: i <= j < r.value ==> !IsTitle(body[j])
    ensures r.None? ==> forall j :: i <= j < |body| ==> !IsTitle(body[j])
    decreases |body| - i
  {
    if i == |body| then None
    else if IsTitle(body[i]) then Some(i)
    else FindTitle(body, i + 1)
  }

  /** The index of the title paragraph, or -1 when there is none. */
  function TitleIndex(body: seq<Block>): int {
    match FindTitle(body, 0)
    case None => -1
    case Some(t) => t
  }

  /** The title paragraph of the template, if it has one. */
  function TitleModel(body: seq<Block>): Option<Paragraph> {
    match FindTitle(body, 0)
    case None => None
    case Some(t) => Some(body[t].runs)
  }

  /** The body without its tables and without the block at index `t`. */
  function Kept(body: seq<Block>, i: nat, t: int): (r: seq<Block>)
    requires i <= |body|
    ensures forall k :: 0 <= k < |r| ==> !r[k].Grid?
    decreases |body| - i
  {
    if i == |body| then []
    else (if body[i].Grid? || i == t then [] else [body[i]]) + Kept(body, i + 1, t)
  }

  /** What is kept is every block but the tables and the one at `t`, and
      nothing else. */
  lemma {:induction false} KeptMembers(body: seq<Block>, i: nat, t: int, b: Block)
    requires i <= |body|
    ensures b in Kept(body, i, t) <==> exists j :: i <= j < |body| && j != t && body[j] == b && !b.Grid?
    decreases |body| - i
  {
    if i < |body| {
      KeptMembers(body, i + 1, t, b);
    }
  }

  /** The section of one specialty: its title, and the model table trimmed
      to its header row with one filled row per record of the specialty. */
  function SectionOf(recs: seq<Record>, esp: string, title: Option<Paragraph>, model: seq<TableRow>,
                     duration: int): Section
    requires |model| >= 2
  {
    Section(Title(title, esp),
            RemoveSecond(model, |model| - 1) + Rows(Group(recs, esp), model[1], duration))
  }

  function Sections(recs: seq<Record>, specs: seq<string>, title: Option<Paragraph>,
                    model: seq<TableRow>, duration: int): (r: seq<Section>)
    requires |model| >= 2
    ensures |r| == |specs|
    decreases |specs|
  {
    if |specs| == 0 then []
    else [SectionOf(recs, specs[0], title, model, duration)] + Sections(recs, specs[1..], title, model, duration)
  }

  lemma {:induction false} SectionsAt(recs: seq<Record>, specs: seq<string>, title: Option<Paragraph>,
                                      model: seq<TableRow>, duration: int, k: nat)
    requires |model| >= 2 && k < |specs|
    ensures Sections(recs, specs, title, model, duration)[k] == SectionOf(recs, specs[k], title, model, duration)
    decreases k
  {
    if k > 0 {
      SectionsAt(recs, specs[1..], title, model, duration, k - 1);
    }
  }

  /** The sections as body blocks: each title paragraph followed by its table. */
  function Render(ss: seq<Section>): (r: seq<Block>)
    ensures |r| == 2 * |ss|
  {
    seq(2 * |ss|, i requires 0 <= i < 2 * |ss| =>
      if i % 2 == 0 then Para(ss[i / 2].title) else Grid(ss[i / 2].table))
  }

  /** The sections' titles, in order. */
  function TitleBlocks(ss: seq<Section>): (r: seq<Block>)
    ensures |r| == |ss|
  {
    seq(|ss|, k requires 0 <= k < |ss| => Para(ss[k].title))
  }

  /** The sections' tables, in order. */
  function TableBlocks(ss: seq<Section>): (r: seq<Block>)
    ensures |r| == |ss|
  {
    seq(|ss|, k requires 0 <= k < |ss| => Grid(ss[k].table))
  }

  /** The sections put into the body after the kept blocks. A copy of the
      template's title paragraph is appended to the body, as every table is,
      so each title is followed by its table. A plain title is added with
      `add_paragraph`: when the body has section properties, the plain
      titles gather in order before them and the tables follow at the end. */
  function Place(kept: seq<Block>, ss: seq<Section>, copied: bool): (r: seq<Block>)
    ensures |r| == |kept| + 2 * |ss|
  {
    var e := FirstEnd(kept, 0);
    if !copied && e.Some? then kept[..e.value] + TitleBlocks(ss) + kept[e.value..] + TableBlocks(ss)
    else kept + Render(ss)
  }

  /** Where kept block `j` lands: past the `n` plain titles when they were
      put in before it, in place otherwise. */
  function KeptAt(kept: seq<Block>, n: nat, copied: bool, j: nat): nat {
    var e := FirstEnd(kept, 0);
    if !copied && e.Some? && e.value <= j then j + n else j
  }

  /** The kept blocks stay in order around the sections. */
  lemma PlaceKept(kept: seq<Block>, ss: seq<Section>, copied: bool, j: nat)
    requires j < |kept|
    ensures KeptAt(kept, |ss|, copied, j) < |kept| + 2 * |ss|
    ensures Place(kept, ss, copied)[KeptAt(kept, |ss|, copied, j)] == kept[j]
  {
    var e := FirstEnd(kept, 0);
    if !copied && e.Some? {
      var front := kept[..e.value] + TitleBlocks(ss);
      assert Place(kept, ss, copied) == front + (kept[e.value..] + TableBlocks(ss));
      if j >= e.value {
        assert kept[e.value..][j - e.value] == kept[j];
      }
    } else {
      assert Place(kept, ss, copied) == kept + Render(ss);
    }
  }

  /** Where section `k` lands: its title right before its table when the
      titles are copies or the body has no section properties; otherwise
      its title is the `k`-th before the section properties and its table
      the `k`-th after the kept blocks. */
  lemma PlaceAt(kept: seq<Block>, ss: seq<Section>, copied: bool, k: nat) returns (titleAt: nat, tableAt: nat)
    requires k < |ss|
    ensures titleAt < |kept| + 2 * |ss| && tableAt < |kept| + 2 * |ss|
    ensures Place(kept, ss, copied)[titleAt] == Para(ss[k].title)
    ensures Place(kept, ss, copied)[tableAt] == Grid(ss[k].table)
    ensures var e := FirstEnd(kept, 0);
            if !copied && e.Some? then titleAt == e.value + k && tableAt == |kept| + |ss| + k
            else titleAt == |kept| + 2 * k && tableAt == titleAt + 1
  {
    var e := FirstEnd(kept, 0);
    if !copied && e.Some? {
      titleAt, tableAt := e.value + k, |kept| + |ss| + k;
      GatheredAt(kept, ss, e.value, k);
    } else {
      titleAt, tableAt := |kept| + 2 * k, |kept| + 2 * k + 1;
      RenderAt(ss, k);
      ConcatAt(kept, Render(ss), 2 * k);
      ConcatAt(kept, Render(ss), 2 * k + 1);
    }
  }

  /** With the titles gathered before index `e`, title `k` is at `e + k`
      and table `k` is the `k`-th after the kept blocks. */
  lemma GatheredAt(kept: seq<Block>, ss: seq<Section>, e: nat, k: nat)
    requires e <= |kept| && k < |ss|
    ensures var r := kept[..e] + TitleBlocks(ss) + kept[e..] + TableBlocks(ss);
            && r[e + k] == Para(ss[k].title)
            && r[|kept| + |ss| + k] == Grid(ss[k].table)
  {
    var front := kept[..e] + TitleBlocks(ss);
    var back := kept[e..] + TableBlocks(ss);
    assert kept[..e] + TitleBlocks(ss) + kept[e..] + TableBlocks(ss) == front + back;
    assert front[e + k] == TitleBlocks(ss)[k];
    assert back[|kept| - e + k] == TableBlocks(ss)[k];
  }

  /** The data rows of the output: every table row but the header. */
  function DataRows(ss: seq<Section>): nat
    decreases |ss|
  {
    if |ss| == 0 then 0
    else (if |ss[0].table| > 0 then |ss[0].table| - 1 else 0) + DataRows(ss[1..])
  }

  lemma {:induction false} DataRowsGroups(recs: seq<Record>, specs: seq<string>, title: Option<Paragraph>,
                                          model: seq<TableRow>, duration: int)
    requires |model| >= 2
    ensures DataRows(Sections(recs, specs, title, model, duration)) == |Flat(Timed(recs), specs)|
    decreases |specs|
  {
    if |specs| > 0 {
      DataRowsGroups(recs, specs[1..], title, model, duration);
      var s := SectionOf(recs, specs[0], title, model, duration);
      TrimToHeader(model);
      RowsAt(Group(recs, specs[0]), model[1], duration, 0);
      TimedGroup(recs, specs[0]);
      assert |s.table| - 1 == |Group(Timed(recs), specs[0])|;
    }
  }

  /** The body of the output: the template's blocks but its tables and
      title paragraph, with one section per specialty placed among them. */
  function Compose(recs: seq<Record>, body: seq<Block>, model: seq<TableRow>, duration: int): seq<Block>
    requires |model| >= 2
  {
    Place(Kept(body, 0, TitleIndex(body)),
          Sections(recs, Specialties(recs), TitleModel(body), model, duration),
          TitleModel(body).Some?)
  }

  /** `gerar_word_evolucao` up to the save: the checks that stop it, then
      the template with the header data substituted, its tables and title
      paragraph removed, and one section per specialty added. Whether the
      template file exists is a parameter. */
  function Generate(recs: seq<Record>, template: Document, templateExists: bool,
                    header: Option<HeaderData>, duration: int): (r: Result<Document, Refusal>)
    ensures r.Success? ==> |r.value.headers| == |template.headers|
  {
    if |recs| == 0 then Failure(NoData)
    else if !templateExists then Failure(TemplateMissing)
    else
      var body := SubstituteBlocks(template.body, header);
      match FirstGrid(body, 0)
      case None => Failure(NoModelTable)
      case Some(g) =>
        var model := body[g].rows;
        if |model| < 2 then Failure(ModelTableTooShort)
        else Success(Document(SubstituteHeader(template.headers, header), Compose(recs, body, model, duration)))
  }

  /** The document is refused exactly when there are no records, no
      template, no table in the template, or a first table with fewer than
      two rows; the header substitution does not touch tables. */
  lemma GenerateRefusals(recs: seq<Record>, template: Document, templateExists: bool,
                         header: Option<HeaderData>, duration: int)
    ensures var r := Generate(recs, template, templateExists, header, duration);
            var g := FirstGrid(template.body, 0);
            && (r == Failure(NoData) <==> |recs| == 0)
            && (r == Failure(TemplateMissing) <==> |recs| > 0 && !templateExists)
            && (r == Failure(NoModelTable) <==> |recs| > 0 && templateExists && g.None?)
            && (r == Failure(ModelTableTooShort) <==>
                  |recs| > 0 && templateExists && g.Some? && |template.body[g.value].rows| < 2)
  {
    var body := SubstituteBlocks(template.body, header);
    SameGrids(template.body, body, 0);
  }

  lemma {:induction false} SameGrids(a: seq<Block>, b: seq<Block>, i: nat)
    requires |a| == |b| && i <= |a|
    requires forall k :: 0 <= k < |a| ==> (a[k].Grid? <==> b[k].Grid?) && (a[k].Grid? ==> a[k] == b[k])
    ensures FirstGrid(a, i) == FirstGrid(b, i)
    decreases |a| - i
  {
    if i < |a| {
      SameGrids(a, b, i + 1);
    }
  }

  /** A successful run writes the body composed from the substituted
      template body and the template's first table, which has two rows at
      least. */
  lemma GenerateBody(recs: seq<Record>, template: Document, templateExists: bool,
                     header: Option<HeaderData>, duration: int)
    returns (body: seq<Block>, model: seq<TableRow>)
    requires Generate(recs, template, templateExists, header, duration).Success?
    ensures body == SubstituteBlocks(template.body, header)
    ensures FirstGrid(template.body, 0).Some? && model == template.body[FirstGrid(template.body, 0).value].rows
    ensures |model| >= 2
    ensures Generate(recs, template, templateExists, header, duration).value.body
            == Compose(recs, body, model, duration)
  {
    body := SubstituteBlocks(template.body, header);
    SameGrids(template.body, body, 0);
    model := body[FirstGrid(body, 0).value].rows;
  }

  /** Section `k` of a composed body: the title of the `k`-th specialty and
      its table, the model's header row followed by the filled rows of that
      specialty, at the places `Place` gives them. */
  lemma ComposeSection(recs: seq<Record>, body: seq<Block>, model: seq<TableRow>, duration: int, k: nat)
    returns (titleAt: nat, tableAt: nat)
    requires |model| >= 2 && k < |Specialties(recs)|
    ensures var out := Compose(recs, body, model, duration);
            var esp := Specialties(recs)[k];
            var kept := Kept(body, 0, TitleIndex(body));
            var e := FirstEnd(kept, 0);
            && |out| == |kept| + 2 * |Specialties(recs)|
            && titleAt < |out| && tableAt < |out|
            && out[titleAt] == Para(Title(TitleModel(body), esp))
            && out[tableAt] == Grid([model[0]] + Rows(Group(recs, esp), model[1], duration))
            && (if TitleModel(body).None? && e.Some?
                then titleAt == e.value + k && tableAt == |kept| + |Specialties(recs)| + k
                else titleAt == |kept| + 2 * k && tableAt == titleAt + 1)
  {
    var specs := Specialties(recs);
    var kept := Kept(body, 0, TitleIndex(body));
    var ss := Sections(recs, specs, TitleModel(body), model, duration);
    var s := SectionAt(recs, specs, TitleModel(body), model, duration, k);
    titleAt, tableAt := PlaceAt(kept, ss, TitleModel(body).Some?, k);
  }

  lemma ConcatAt(a: seq<Block>, b: seq<Block>, i: nat)
    requires i < |b|
    ensures (a + b)[|a| + i] == b[i]
  {
  }

  /** Section `k` holds the title of specialty `k` and its trimmed, filled table. */
  lemma SectionAt(recs: seq<Record>, specs: seq<string>, title: Option<Paragraph>, model: seq<TableRow>,
                  duration: int, k: nat) returns (s: Section)
    requires |model| >= 2 && k < |specs|
    ensures s == Sections(recs, specs, title, model, duration)[k]
    ensures s.title == Title(title, specs[k])
    ensures s.table == [model[0]] + Rows(Group(recs, specs[k]), model[1], duration)
  {
    SectionsAt(recs, specs, title, model, duration, k);
    TrimToHeader(model);
    s := Sections(recs, specs, title, model, duration)[k];
  }

  lemma RenderAt(ss: seq<Section>, k: nat)
    requires k < |ss|
    ensures Render(ss)[2 * k] == Para(ss[k].title)
    ensures Render(ss)[2 * k + 1] == Grid(ss[k].table)
  {
    assert (2 * k) / 2 == k && (2 * k) % 2 == 0;
    assert (2 * k + 1) / 2 == k && (2 * k + 1) % 2 == 1;
  }

  /** A generated document holds one title and one table per specialty, in
      sorted order. The title is the template's title paragraph with the
      specialty's name in it, or a plain paragraph with the name; the table
      is the header row of the template's first table followed by one copy
      of its second row, filled, per record of that specialty whose start
      parses. A copied title sits right before its table. Plain titles sit
      in order before the template's section properties when it has them,
      and the tables in order after everything else. */
  lemma GenerateSection(recs: seq<Record>, template: Document, templateExists: bool,
                        header: Option<HeaderData>, duration: int, k: nat)
    returns (kept: seq<Block>, model: seq<TableRow>, titleAt: nat, tableAt: nat)
    requires Generate(recs, template, templateExists, header, duration).Success?
    requires k < |Specialties(recs)|
    ensures FirstGrid(template.body, 0).Some? && model == template.body[FirstGrid(template.body, 0).value].rows
    ensures |model| >= 2
    ensures var body := SubstituteBlocks(template.body, header);
            kept == Kept(body, 0, TitleIndex(body))
    ensures var out := Generate(recs, template, templateExists, header, duration).value.body;
            var body := SubstituteBlocks(template.body, header);
            var esp := Specialties(recs)[k];
            var e := FirstEnd(kept, 0);
            && |out| == |kept| + 2 * |Specialties(recs)|
            && titleAt < |out| && tableAt < |out|
            && out[titleAt] == Para(Title(TitleModel(body), esp))
            && out[tableAt] == Grid([model[0]] + Rows(Group(recs, esp), model[1], duration))
            && (if TitleModel(body).None? && e.Some?
                then titleAt == e.value + k && tableAt == |kept| + |Specialties(recs)| + k
                else titleAt == |kept| + 2 * k && tableAt == titleAt + 1)
  {
    var body;
    body, model := GenerateBody(recs, template, templateExists, header, duration);
    kept := Kept(body, 0, TitleIndex(body));
    titleAt, tableAt := ComposeSection(recs, body, model, duration, k);
  }

  /** The template's blocks other than its tables and title paragraph stay
      in the output in their order, shifted past the plain titles put in
      before them. */
  lemma GenerateKept(recs: seq<Record>, template: Document, templateExists: bool,
                     header: Option<HeaderData>, duration: int, j: nat)
    returns (kept: seq<Block>)
    requires Generate(recs, template, templateExists, header, duration).Success?
    ensures var body := SubstituteBlocks(template.body, header);
            kept == Kept(body, 0, TitleIndex(body))
    ensures var out := Generate(recs, template, templateExists, header, duration).value.body;
            var body := SubstituteBlocks(template.body, header);
            var at := KeptAt(kept, |Specialties(recs)|, TitleModel(body).Some?, j);
            j < |kept| ==> at < |out| && out[at] == kept[j]
  {
    var body, model := GenerateBody(recs, template, templateExists, header, duration);
    kept := Kept(body, 0, TitleIndex(body));
    var ss := Sections(recs, Specialties(recs), TitleModel(body), model, duration);
    if j < |kept| {
      PlaceKept(kept, ss, TitleModel(body).Some?, j);
    }
  }

  /** The generated tables hold, beyond their header rows, exactly one row
      per record whose start time parses. */
  lemma GenerateRowCount(recs: seq<Record>, template: Document, templateExists: bool,
                         header: Option<HeaderData>, duration: int)
    returns (kept: seq<Block>, ss: seq<Section>, copied: bool)
    requires Generate(recs, template, templateExists, header, duration).Success?
    ensures Generate(recs, template, templateExists, header, duration).value.body == Place(kept, ss, copied)
    ensures forall j :: 0 <= j < |kept| ==> !kept[j].Grid?
    ensures |ss| == |Specialties(recs)|
    ensures DataRows(ss) == |Timed(recs)|
  {
    var body, model := GenerateBody(recs, template, templateExists, header, duration);
    kept := Kept(body, 0, TitleIndex(body));
    copied := TitleModel(body).Some?;
    var specs := Specialties(recs);
    ss := Sections(recs, specs, TitleModel(body), model, duration);
    DataRowsGroups(recs, specs, TitleModel(body), model, duration);
    SpecialtiesSorted(recs);
    TimedProcedures(recs);
    FlatAmong(Timed(recs), specs);
    AmongAll(Timed(recs), Elements(specs));
    assert |multiset(Flat(Timed(recs), specs))| == |multiset(Timed(recs))|;
  }

  lemma {:induction false} TimedProcedures(recs: seq<Record>)
    ensures Procedures(Timed(recs)) <= Procedures(recs)
    decreases |recs|
  {
    if |recs| > 0 {
      TimedProcedures(recs[1..]);
      var t0 := if ParseTime(recs[0].start).Some? then [recs[0]] else [];
      assert Timed(recs) == t0 + Timed(recs[1..]);
      forall r | r in Timed(recs) ensures r.procedure in Procedures(recs) {
        if r in t0 {
          assert r == recs[0] && recs[0] in recs;
        } else {
          assert r.procedure in Procedures(recs[1..]);
          var q :| q in recs[1..] && q.procedure == r.procedure;
          assert q in recs;
        }
      }
    }
  }
}
