/** Table cleanup (`_extract_tables_camelot`): every table Camelot finds is
    normalised cell by cell, stripped of columns that hold nothing and rows that
    are entirely missing, relabelled "Column 1" ... "Column K", and kept only
    when something is left. */
module Tables {
  import opened Wrappers
  import opened Text
  import Seqs

  /** A DataFrame cell: a string, or None for a missing value (NaN). */
  type Cell = Option<string>

  /** A column label: a position, as a fresh DataFrame has, or a name. */
  datatype Label = Position(index: nat) | Named(name: string)

  /** A DataFrame as its column labels and its rows. A row shorter than the
      labels reads as missing beyond its end. */
  datatype Frame = Frame(columns: seq<Label>, rows: seq<seq<Cell>>)

  /** The cell of row `i` in column `j`. */
  function At(f: Frame, i: nat, j: nat): Cell
    requires i < |f.rows|
  {
    if j < |f.rows[i]| then f.rows[i][j] else None
  }

  predicate Rectangular(f: Frame) {
    forall i :: 0 <= i < |f.rows| ==> |f.rows[i]| == |f.columns|
  }

  /** `df.empty`: no rows or no columns. */
  predicate Empty(f: Frame) {
    f.rows == [] || f.columns == []
  }

  // ---------------------------------------------------------------------------
  // The cleanup steps, in the order the source applies them

  /** One cell's text cleanup: each newline becomes a space, then each run of
      whitespace becomes one space. */
  function CleanText(s: string): string {
    Collapse(ReplaceChar(s, '\n', ' '))
  }

  /** The regular-expression replacements touch strings only; a missing cell
      stays missing. */
  function CleanCell(c: Cell): Cell {
    match c
    case None => None
    case Some(s) => Some(CleanText(s))
  }

  function Normalise(f: Frame): Frame {
    Frame(f.columns, seq(|f.rows|, i requires 0 <= i < |f.rows| =>
      seq(|f.rows[i]|, j requires 0 <= j < |f.rows[i]| => CleanCell(f.rows[i][j]))))
  }

  /** The frame made of the columns at `ix`, in that order. */
  function Select(f: Frame, ix: seq<nat>): Frame
    requires forall k :: 0 <= k < |ix| ==> ix[k] < |f.columns|
  {
    Frame(seq(|ix|, k requires 0 <= k < |ix| => f.columns[ix[k]]),
          seq(|f.rows|, i requires 0 <= i < |f.rows| => seq(|ix|, k requires 0 <= k < |ix| => At(f, i, ix[k]))))
  }

  /** Every cell of column `j` is missing. */
  predicate MissingColumn(f: Frame, j: nat) {
    forall i :: 0 <= i < |f.rows| ==> At(f, i, j).None?
  }

  /** Column `j` has a cell other than '' (a missing cell counts: NaN != ''). */
  predicate NonEmptyColumn(f: Frame, j: nat) {
    exists i :: 0 <= i < |f.rows| && At(f, i, j) != Some("")
  }

  function NotMissing(f: Frame): nat -> bool {
    (j: nat) => !MissingColumn(f, j)
  }

  function NotBlank(f: Frame): nat -> bool {
    (j: nat) => NonEmptyColumn(f, j)
  }

  /** The columns of `f` whose index passes `keep`, in increasing order. */
  function Columns(f: Frame, keep: nat -> bool): (r: seq<nat>)
    ensures forall k :: 0 <= k < |r| ==> r[k] < |f.columns| && keep(r[k])
    ensures forall k, l :: 0 <= k < l < |r| ==> r[k] < r[l]
    ensures forall j :: 0 <= j < |f.columns| && keep(j) ==> j in r
  {
    var ix := Seqs.Positions(keep, Seqs.Range(|f.columns|));
    assert forall k :: 0 <= k < |ix| ==> Seqs.Range(|f.columns|)[ix[k]] == ix[k];
    ix
  }

  /** Drops the columns in which every cell is missing. */
  function DropMissingColumns(f: Frame): Frame {
    Select(f, Columns(f, NotMissing(f)))
  }

  /** Keeps the columns that have a cell other than ''. */
  function DropBlankColumns(f: Frame): Frame {
    Select(f, Columns(f, NotBlank(f)))
  }

  /** Some cell of the row is present. */
  predicate HasPresent(row: seq<Cell>) {
    exists j :: 0 <= j < |row| && row[j].Some?
  }

  /** Drops the rows in which every cell is missing: the rows with a present
      cell remain, in order. */
  function DropMissingRows(f: Frame): Frame {
    var ix := Seqs.Positions(HasPresent, f.rows);
    Frame(f.columns, seq(|ix|, k requires 0 <= k < |ix| => f.rows[ix[k]]))
  }

  /** The label of column `i` (0-based): "Column " and the 1-based number. */
  function ColumnLabel(i: nat): string {
    "Column " + Decimal(i + 1)
  }

  function Relabel(f: Frame): Frame {
    Frame(seq(|f.columns|, i requires 0 <= i < |f.columns| => Named(ColumnLabel(i))), f.rows)
  }

  /** One table through all the steps; None when the result is empty. */
  function Tidy(f: Frame): Option<Frame> {
    var g := Relabel(DropMissingRows(DropBlankColumns(DropMissingColumns(Normalise(f)))));
    if Empty(g) then None else Some(g)
  }

  /** The tables kept, in the order Camelot found them. */
  function CleanTables(tables: seq<Frame>): seq<Frame> {
    Seqs.FilterMap(Tidy, tables)
  }

  // ---------------------------------------------------------------------------
  // Cells

  /** A cleaned string is the whitespace-collapsed original: no newline is left,
      every whitespace run is one ' ', the words are those of the original, and
      only '' cleans to ''. */
  lemma CleanTextSpec(s: string)
    ensures CleanText(s) == Collapse(s)
    ensures Collapsed(CleanText(s)) && '\n' !in CleanText(s)
    ensures Words(CleanText(s)) == Words(s)
    ensures CleanText(s) == "" <==> s == ""
  {
    CollapseAfterNewlines(s);
    WordsOfCollapse(s);
    NoNewline(CleanText(s));
  }

  lemma NoNewline(s: string)
    requires Collapsed(s)
    ensures '\n' !in s
  {
    if '\n' in s {
      var i :| 0 <= i < |s| && s[i] == '\n';
      assert IsSpace(s[i]);
    }
  }

  /** Cleaning is idempotent. */
  lemma CleanTextIdempotent(s: string)
    ensures CleanText(CleanText(s)) == CleanText(s)
  {
    CollapseAfterNewlines(s);
    CollapseAfterNewlines(Collapse(s));
    CollapseIdempotent(s);
  }

  // ---------------------------------------------------------------------------
  // Columns

  /** The columns that survive both column filters, decided on the normalised
      frame: not entirely missing, and not entirely ''. */
  predicate KeepColumn(f: Frame, j: nat) {
    !MissingColumn(f, j) && NonEmptyColumn(f, j)
  }

  function Keep(f: Frame): nat -> bool {
    (j: nat) => KeepColumn(f, j)
  }

  /** Column `k` of a selection is column `ix[k]` of the frame. */
  lemma SelectColumn(f: Frame, ix: seq<nat>, k: nat)
    requires forall m :: 0 <= m < |ix| ==> ix[m] < |f.columns|
    requires k < |ix|
    ensures MissingColumn(Select(f, ix), k) <==> MissingColumn(f, ix[k])
    ensures NonEmptyColumn(Select(f, ix), k) <==> NonEmptyColumn(f, ix[k])
  {
    var g := Select(f, ix);
    assert forall i :: 0 <= i < |f.rows| ==> At(g, i, k) == At(f, i, ix[k]);
  }

  /** Selecting twice is selecting the composed positions. */
  lemma SelectSelect(f: Frame, a: seq<nat>, b: seq<nat>)
    requires forall m :: 0 <= m < |a| ==> a[m] < |f.columns|
    requires forall m :: 0 <= m < |b| ==> b[m] < |a|
    ensures Select(Select(f, a), b) == Select(f, seq(|b|, k requires 0 <= k < |b| => a[b[k]]))
  {
    var c := seq(|b|, k requires 0 <= k < |b| => a[b[k]]);
    var g := Select(f, a);
    var l, r := Select(g, b), Select(f, c);
    assert l.columns == r.columns;
    forall i | 0 <= i < |f.rows|
      ensures l.rows[i] == r.rows[i]
    {
      assert forall k :: 0 <= k < |b| ==> At(g, i, b[k]) == At(f, i, c[k]);
    }
    assert l.rows == r.rows;
  }

  /** The two column drops together keep exactly the columns of `KeepColumn`, in
      their original order. */
  lemma ColumnsKept(f: Frame)
    ensures DropBlankColumns(DropMissingColumns(f)) == Select(f, Columns(f, Keep(f)))
  {
    var ix := Columns(f, NotMissing(f));
    var g := DropMissingColumns(f);
    var jx := Seqs.Positions(NotBlank(f), ix);
    BlankAfterMissing(f);
    KeepComposed(f);
    SelectSelect(f, ix, jx);
  }

  /** The '' filter, run on the columns the first drop left, judges each of
      them as it would have in the original frame. */
  lemma BlankAfterMissing(f: Frame)
    ensures var g := DropMissingColumns(f);
            Columns(g, NotBlank(g)) == Seqs.Positions(NotBlank(f), Columns(f, NotMissing(f)))
  {
    var ix := Columns(f, NotMissing(f));
    var g := DropMissingColumns(f);
    forall k | 0 <= k < |ix|
      ensures NotBlank(g)(Seqs.Range(|g.columns|)[k]) == NotBlank(f)(ix[k])
    {
      SelectColumn(f, ix, k);
    }
    Seqs.PositionsCongruent(NotBlank(g), Seqs.Range(|g.columns|), NotBlank(f), ix);
  }

  /** Filtering the surviving columns by the '' test picks, in the original
      numbering, exactly the columns of `KeepColumn`. */
  lemma KeepComposed(f: Frame)
    ensures var ix := Columns(f, NotMissing(f));
            var jx := Seqs.Positions(NotBlank(f), ix);
            Columns(f, Keep(f)) == seq(|jx|, k requires 0 <= k < |jx| => ix[jx[k]])
  {
    var r := Seqs.Range(|f.columns|);
    var ix := Columns(f, NotMissing(f));
    Seqs.PositionsThen(NotMissing(f), NotBlank(f), Keep(f), r, ix);
  }

  // ---------------------------------------------------------------------------
  // Labels

  /** The labels are "Column " followed by the decimal numeral of the 1-based
      position, so they are pairwise distinct. */
  lemma ColumnLabelSpec(i: nat, k: nat)
    ensures StartsWith(ColumnLabel(i), "Column ")
    ensures DecimalValue(ColumnLabel(i)[7..]) == i + 1
    ensures ColumnLabel(i) == ColumnLabel(k) <==> i == k
  {
    assert ColumnLabel(i)[7..] == Decimal(i + 1);
    assert ColumnLabel(k)[7..] == Decimal(k + 1);
    DecimalRoundTrip(i + 1);
    if ColumnLabel(i) == ColumnLabel(k) {
      DecimalInjective(i + 1, k + 1);
    }
  }

  // ---------------------------------------------------------------------------
  // The whole cleanup

  /** The frame `Tidy` keeps, before relabelling: the kept rows of the kept
      columns of the normalised frame. */
  function Kept(f: Frame): Frame {
    var n := Normalise(f);
    DropMissingRows(Select(n, Columns(n, Keep(n))))
  }

  lemma TidyKept(f: Frame)
    ensures var g := Kept(f);
            Tidy(f) == if Empty(g) then None else Some(Relabel(g))
  {
    ColumnsKept(Normalise(f));
  }

  /** What a kept table holds: exactly the kept columns of the normalised frame
      (those neither all missing nor all ''), and of them exactly the rows with a
      present cell, both in their original order, labelled "Column 1" onwards;
      it is dropped exactly when no such row or column is left. */
  lemma TidySpec(f: Frame)
    ensures var n := Normalise(f);
            var ci := Columns(n, Keep(n));
            var s := Select(n, ci);
            var ri := Seqs.Positions(HasPresent, s.rows);
            && (Tidy(f).None? <==> ci == [] || ri == [])
            && (Tidy(f).Some? ==>
                 var g := Tidy(f).value;
                 && |g.columns| == |ci| && |g.rows| == |ri|
                 && (forall k :: 0 <= k < |ci| ==> g.columns[k] == Named(ColumnLabel(k)))
                 && (forall r, k :: 0 <= r < |ri| && 0 <= k < |ci| ==>
                       |g.rows[r]| == |ci| && g.rows[r][k] == At(n, ri[r], ci[k])))
  {
    TidyKept(f);
  }

  /** A row of the normalised frame is kept exactly when one of its cells in the
      kept columns is present. */
  lemma RowKeptIff(f: Frame, i: nat)
    requires i < |Normalise(f).rows|
    ensures var n := Normalise(f);
            var ci := Columns(n, Keep(n));
            var s := Select(n, ci);
            i in Seqs.Positions(HasPresent, s.rows) <==> exists k :: 0 <= k < |ci| && At(n, i, ci[k]).Some?
  {
    var n := Normalise(f);
    var ci := Columns(n, Keep(n));
    var s := Select(n, ci);
    assert forall k :: 0 <= k < |ci| ==> s.rows[i][k] == At(n, i, ci[k]);
  }

  /** A row of '' strings, which is how Camelot reports an empty row, has no
      missing cell: once some column survives the column drops, the row drop
      keeps it, and so the table is kept. */
  lemma EmptyStringRowKept(f: Frame, i: nat)
    requires i < |f.rows|
    requires forall j :: 0 <= j < |f.columns| ==> At(f, i, j) == Some("")
    requires Columns(Normalise(f), Keep(Normalise(f))) != []
    ensures var n := Normalise(f);
            i in Seqs.Positions(HasPresent, Select(n, Columns(n, Keep(n))).rows)
    ensures Tidy(f).Some?
  {
    var n := Normalise(f);
    var ci := Columns(n, Keep(n));
    var j := ci[0];
    assert At(f, i, j) == Some("");
    CleanTextSpec("");
    assert At(n, i, j) == CleanCell(Some("")) == Some("");
    RowKeptIff(f, i);
    TidySpec(f);
  }

  /** A kept table is rectangular and not empty; each of its present cells is a
      cleaned string; each row has a present cell, and so does each column. */
  lemma TidyShape(f: Frame)
    requires Tidy(f).Some?
    ensures var g := Tidy(f).value;
            && Rectangular(g) && !Empty(g)
            && (forall r, k :: 0 <= r < |g.rows| && 0 <= k < |g.rows[r]| && g.rows[r][k].Some? ==>
                  Collapsed(g.rows[r][k].value) && '\n' !in g.rows[r][k].value)
            && (forall r :: 0 <= r < |g.rows| ==> HasPresent(g.rows[r]))
            && (forall k :: 0 <= k < |g.columns| ==> !MissingColumn(g, k))
  {
    TidySpec(f);
    TidyCellsClean(f);
    TidyRowsPresent(f);
    TidyColumnsPresent(f);
  }

  lemma TidyCellsClean(f: Frame)
    requires Tidy(f).Some?
    ensures var g := Tidy(f).value;
            forall r, k :: 0 <= r < |g.rows| && 0 <= k < |g.rows[r]| && g.rows[r][k].Some? ==>
              Collapsed(g.rows[r][k].value) && '\n' !in g.rows[r][k].value
  {
    TidySpec(f);
    var n := Normalise(f);
    var ci := Columns(n, Keep(n));
    var ri := Seqs.Positions(HasPresent, Select(n, ci).rows);
    var g := Tidy(f).value;
    forall r, k | 0 <= r < |g.rows| && 0 <= k < |g.rows[r]| && g.rows[r][k].Some?
      ensures Collapsed(g.rows[r][k].value) && '\n' !in g.rows[r][k].value
    {
      NormaliseCell(f, ri[r], ci[k]);
    }
  }

  lemma TidyRowsPresent(f: Frame)
    requires Tidy(f).Some?
    ensures var g := Tidy(f).value;
            forall r :: 0 <= r < |g.rows| ==> HasPresent(g.rows[r])
  {
    TidyKept(f);
    var k := Kept(f);
    assert Tidy(f).value.rows == k.rows;
    forall r | 0 <= r < |k.rows|
      ensures HasPresent(k.rows[r])
    {
      var s := Select(Normalise(f), Columns(Normalise(f), Keep(Normalise(f))));
      var ri := Seqs.Positions(HasPresent, s.rows);
      assert k.rows[r] == s.rows[ri[r]];
    }
  }

  lemma TidyColumnsPresent(f: Frame)
    requires Tidy(f).Some?
    ensures var g := Tidy(f).value;
            forall k :: 0 <= k < |g.columns| ==> !MissingColumn(g, k)
  {
    TidySpec(f);
    var n := Normalise(f);
    var ci := Columns(n, Keep(n));
    var ri := Seqs.Positions(HasPresent, Select(n, ci).rows);
    var g := Tidy(f).value;
    forall k | 0 <= k < |g.columns|
      ensures !MissingColumn(g, k)
    {
      assert !MissingColumn(n, ci[k]);
      var i :| 0 <= i < |n.rows| && At(n, i, ci[k]).Some?;
      RowKeptIff(f, i);
      var r :| 0 <= r < |ri| && ri[r] == i;
      assert At(g, r, k) == At(n, i, ci[k]);
    }
  }

  /** A present cell of the normalised frame is a cleaned string. */
  lemma NormaliseCell(f: Frame, i: nat, j: nat)
    requires i < |f.rows|
    requires At(Normalise(f), i, j).Some?
    ensures Collapsed(At(Normalise(f), i, j).value) && '\n' !in At(Normalise(f), i, j).value
  {
    CleanTextSpec(f.rows[i][j].value);
  }

  /** A missing cell stays missing and a present cell stays present. */
  lemma NormaliseKeepsMissing(f: Frame, i: nat, j: nat)
    requires i < |f.rows|
    ensures At(Normalise(f), i, j).None? <==> At(f, i, j).None?
  {
  }

  /** A column whose cells are all '' or missing, with at least one of each,
      survives both column drops: a '' cell makes it not all missing, and a
      missing cell counts as different from ''. Its cells stay '' or missing, so
      the kept table has a column with no text in it. */
  lemma BlankColumnAfterRowDrop(f: Frame, j: nat)
    requires j < |f.columns|
    requires forall i :: 0 <= i < |f.rows| ==> At(f, i, j) == None || At(f, i, j) == Some("")
    requires exists i :: 0 <= i < |f.rows| && At(f, i, j) == Some("")
    requires exists i :: 0 <= i < |f.rows| && At(f, i, j) == None
    ensures var n := Normalise(f);
            j in Columns(n, Keep(n))
    ensures var n := Normalise(f);
            forall i :: 0 <= i < |n.rows| ==> At(n, i, j) == None || At(n, i, j) == Some("")
  {
    var n := Normalise(f);
    CleanExamples();
    var a :| 0 <= a < |f.rows| && At(f, a, j) == Some("");
    var b :| 0 <= b < |f.rows| && At(f, b, j) == None;
    assert At(n, a, j) == Some("");
    assert At(n, b, j) == None;
    assert Keep(n)(j);
    forall i | 0 <= i < |n.rows|
      ensures At(n, i, j) == None || At(n, i, j) == Some("")
    {
      assert At(n, i, j) == CleanCell(At(f, i, j));
    }
  }

  /** The kept tables are, in order, the cleaned versions of the tables that
      clean to something. */
  lemma CleanTablesInOrder(tables: seq<Frame>)
    ensures var ix := Seqs.Positions(Seqs.Defined(Tidy), tables);
            && |CleanTables(tables)| == |ix|
            && forall k :: 0 <= k < |ix| ==> CleanTables(tables)[k] == Tidy(tables[ix[k]]).value
  {
    Seqs.FilterMapInOrder(Tidy, tables);
  }

  // ---------------------------------------------------------------------------
  // Three concrete frames

  /** A frame in which the '' row sits below a row with content. */
  lemma EmptyStringRowExample()
    ensures var f := Frame([Position(0)], [[Some("a")], [Some("")]]);
            Tidy(f) == Some(Frame([Named("Column 1")], [[Some("a")], [Some("")]]))
  {
    var f := Frame([Position(0)], [[Some("a")], [Some("")]]);
    NormaliseRowExample(f);
    ColumnsRowExample(f);
    RowsRowExample(f);
    RelabelOne(f);
    TidyOf(f, f);
  }

  lemma NormaliseRowExample(f: Frame)
    requires f == Frame([Position(0)], [[Some("a")], [Some("")]])
    ensures Normalise(f) == f
  {
    CleanExamples();
    var n := Normalise(f);
    assert n.rows[0] == [CleanCell(Some("a"))];
    assert n.rows[1] == [CleanCell(Some(""))];
  }

  lemma ColumnsRowExample(f: Frame)
    requires f == Frame([Position(0)], [[Some("a")], [Some("")]])
    ensures DropMissingColumns(f) == f && DropBlankColumns(f) == f
  {
    assert NotMissing(f)(0) && NotBlank(f)(0) by {
      assert At(f, 0, 0) == Some("a");
    }
    KeepAllColumns(f, NotMissing(f));
    KeepAllColumns(f, NotBlank(f));
  }

  lemma RowsRowExample(f: Frame)
    requires f == Frame([Position(0)], [[Some("a")], [Some("")]])
    ensures DropMissingRows(f) == f
  {
    assert HasPresent(f.rows[0]) by {
      assert f.rows[0][0].Some?;
    }
    assert HasPresent(f.rows[1]) by {
      assert f.rows[1][0].Some?;
    }
    PositionsPair(HasPresent, f.rows);
  }

  /** A table holding nothing but one '' cell is discarded: its only column
      fails the '' filter, and with no column left the row has no present cell. */
  lemma LoneEmptyRowDropped()
    ensures Tidy(Frame([Position(0)], [[Some("")]])).None?
  {
    var f := Frame([Position(0)], [[Some("")]]);
    LoneNormalise(f);
    LoneColumns(f);
    var g := Frame([], [[]]);
    assert DropMissingRows(g).rows == [] by {
      assert !HasPresent(g.rows[0]);
      assert Seqs.Positions(HasPresent, g.rows) == [];
    }
  }

  lemma LoneNormalise(f: Frame)
    requires f == Frame([Position(0)], [[Some("")]])
    ensures Normalise(f) == f
  {
    CleanExamples();
    assert Normalise(f).rows[0] == [CleanCell(Some(""))];
  }

  lemma LoneColumns(f: Frame)
    requires f == Frame([Position(0)], [[Some("")]])
    ensures DropMissingColumns(f) == f
    ensures DropBlankColumns(f) == Frame([], [[]])
  {
    assert NotMissing(f)(0) by {
      assert At(f, 0, 0) == Some("");
    }
    KeepAllColumns(f, NotMissing(f));
    assert !NotBlank(f)(0) by {
      assert forall i :: 0 <= i < |f.rows| ==> At(f, i, 0) == Some("");
    }
    assert Columns(f, NotBlank(f)) == [];
  }

  /** The frame of `BlankColumnAfterRowDrop`: the first column passes the ''
      filter through its missing cell, the row drop removes that cell's row, and
      the kept table has a column holding only ''. */
  lemma BlankColumnExample()
    ensures var f := Frame([Position(0), Position(1)], [[Some(""), Some("a")], [None, None]]);
            Tidy(f) == Some(Frame([Named("Column 1"), Named("Column 2")], [[Some(""), Some("a")]]))
  {
    var f := Frame([Position(0), Position(1)], [[Some(""), Some("a")], [None, None]]);
    NormaliseColumnExample(f);
    ColumnsColumnExample(f);
    RowsColumnExample(f);
    var g := Frame(f.columns, [f.rows[0]]);
    RelabelPair(g);
    TidyOf(f, g);
  }

  lemma NormaliseColumnExample(f: Frame)
    requires f == Frame([Position(0), Position(1)], [[Some(""), Some("a")], [None, None]])
    ensures Normalise(f) == f
  {
    CleanExamples();
    var n := Normalise(f);
    assert n.rows[0] == [CleanCell(Some("")), CleanCell(Some("a"))];
    assert n.rows[1] == [CleanCell(None), CleanCell(None)];
  }

  lemma ColumnsColumnExample(f: Frame)
    requires f == Frame([Position(0), Position(1)], [[Some(""), Some("a")], [None, None]])
    ensures DropMissingColumns(f) == f && DropBlankColumns(f) == f
  {
    MissingColumnExample(f);
    NotBlankExample(f);
    KeepAllColumns(f, NotMissing(f));
    KeepAllColumns(f, NotBlank(f));
  }

  lemma MissingColumnExample(f: Frame)
    requires f == Frame([Position(0), Position(1)], [[Some(""), Some("a")], [None, None]])
    ensures NotMissing(f)(0) && NotMissing(f)(1)
  {
    assert At(f, 0, 0) == Some("") && At(f, 0, 1) == Some("a");
  }

  lemma NotBlankExample(f: Frame)
    requires f == Frame([Position(0), Position(1)], [[Some(""), Some("a")], [None, None]])
    ensures NotBlank(f)(0) && NotBlank(f)(1)
  {
    assert At(f, 1, 0) == None && At(f, 0, 1) == Some("a");
  }

  lemma RowsColumnExample(f: Frame)
    requires f == Frame([Position(0), Position(1)], [[Some(""), Some("a")], [None, None]])
    ensures DropMissingRows(f) == Frame(f.columns, [f.rows[0]])
  {
    assert HasPresent(f.rows[0]) by {
      assert f.rows[0][1].Some?;
    }
    PositionsPair(HasPresent, f.rows);
  }

  lemma CleanExamples()
    ensures CleanCell(Some("")) == Some("") && CleanCell(Some("a")) == Some("a")
  {
    CleanTextSpec("a");
    CleanTextSpec("");
    assert !IsSpace('a');
    assert Collapse("a") == "a";
  }

  /** `Tidy` is the relabelled result of the three drops, when that is not empty. */
  lemma TidyOf(f: Frame, g: Frame)
    requires DropMissingRows(DropBlankColumns(DropMissingColumns(Normalise(f)))) == g
    requires g.rows != [] && g.columns != []
    ensures Tidy(f) == Some(Relabel(g))
  {
  }

  /** Selecting every column of a rectangular frame gives the frame back. */
  lemma KeepAllColumns(f: Frame, keep: nat -> bool)
    requires Rectangular(f)
    requires forall j :: 0 <= j < |f.columns| ==> keep(j)
    ensures Select(f, Columns(f, keep)) == f
  {
    ColumnsAll(f, keep);
    SelectAll(f);
  }

  lemma ColumnsAll(f: Frame, keep: nat -> bool)
    requires forall j :: 0 <= j < |f.columns| ==> keep(j)
    ensures Columns(f, keep) == Seqs.Range(|f.columns|)
  {
    var all := Seqs.Range(|f.columns|);
    var ix := Columns(f, keep);
    forall x
      ensures x in ix <==> x in all
    {
      if x in all {
        var k :| 0 <= k < |all| && all[k] == x;
      }
    }
    Seqs.IncreasingUnique(ix, all);
  }

  lemma SelectAll(f: Frame)
    requires Rectangular(f)
    ensures Select(f, Seqs.Range(|f.columns|)) == f
  {
    var g := Select(f, Seqs.Range(|f.columns|));
    forall i | 0 <= i < |f.rows|
      ensures g.rows[i] == f.rows[i]
    {
    }
  }

  lemma RelabelOne(g: Frame)
    requires |g.columns| == 1
    ensures Relabel(g) == Frame([Named("Column 1")], g.rows)
  {
    assert ColumnLabel(0) == "Column 1";
  }

  lemma RelabelPair(g: Frame)
    requires |g.columns| == 2
    ensures Relabel(g) == Frame([Named("Column 1"), Named("Column 2")], g.rows)
  {
    assert ColumnLabel(0) == "Column 1" && ColumnLabel(1) == "Column 2";
  }

  /** `Positions` on a sequence of two. */
  lemma PositionsPair<T>(p: T -> bool, s: seq<T>)
    requires |s| == 2
    ensures Seqs.Positions(p, s) == (if p(s[0]) then [0] else []) + (if p(s[1]) then [1] else [])
  {
    assert s[..1][..0] == [];
  }
}
