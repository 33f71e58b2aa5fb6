/** The fallback table builder (`_extract_tables_basic`): each page's text is
    cut into lines, the blank lines are dropped, each remaining line is split
    into whitespace-separated tokens, and the token rows of a page form one
    DataFrame. */
module Basic {
  import opened Wrappers
  import opened Text
  import opened Tables
  import Seqs

  /** The row of one line: its whitespace-separated tokens, when the line is not
      blank. */
  function LineRow(line: string): Option<seq<string>> {
    if Blank(line) then None else Some(Words(line))
  }

  /** The token lists of the lines of `text` that are not blank, in order. */
  function TextRows(text: string): seq<seq<string>> {
    Seqs.FilterMap(LineRow, SplitOn(text, '\n'))
  }

  /** The length of the longest row; 0 when there are none. */
  function MaxLen(rows: seq<seq<string>>): (w: nat)
    ensures forall r :: 0 <= r < |rows| ==> |rows[r]| <= w
    ensures rows != [] ==> exists r :: 0 <= r < |rows| && |rows[r]| == w
    ensures rows == [] ==> w == 0
  {
    if rows == [] then 0
    else
      var t := MaxLen(rows[1..]);
      assert forall r :: 1 <= r < |rows| ==> rows[r] == rows[1..][r - 1];
      if |rows[0]| >= t then |rows[0]| else t
  }

  /** The DataFrame pandas builds from a list of rows: one column per position up
      to the longest row, the shorter rows padded with missing cells. */
  function Grid(rows: seq<seq<string>>): Frame {
    var w := MaxLen(rows);
    Frame(seq(w, j requires 0 <= j < w => Position(j)),
          seq(|rows|, r requires 0 <= r < |rows| =>
            seq(w, j requires 0 <= j < w => if j < |rows[r]| then Some(rows[r][j]) else None)))
  }

  /** The table of one page, if it has rows and the frame is not empty. */
  function PageTable(text: string): Option<Frame> {
    var rows := TextRows(text);
    if rows == [] then None
    else
      var df := Grid(rows);
      if Empty(df) then None else Some(df)
  }

  /** One table per page that yields one, in page order. */
  function BasicTables(texts: seq<string>): seq<Frame> {
    Seqs.FilterMap(PageTable, texts)
  }

  // ---------------------------------------------------------------------------
  // Lemmas

  /** A line gives a row exactly when it does not strip to nothing, and that row
      is a non-empty list of tokens. */
  lemma LineRowSpec(line: string)
    ensures LineRow(line).Some? <==> Strip(line) != []
    ensures LineRow(line).Some? ==>
              LineRow(line).value != [] && forall k :: 0 <= k < |LineRow(line).value| ==> IsToken(LineRow(line).value[k])
  {
    StripEmptyIffBlank(line);
    WordsEmptyIffBlank(line);
  }

  /** The rows are, in order, the tokens of the lines that are not blank. */
  lemma TextRowsInOrder(text: string)
    ensures var lines := SplitOn(text, '\n');
            var ix := Seqs.Positions(Seqs.Defined(LineRow), lines);
            && |TextRows(text)| == |ix|
            && forall k :: 0 <= k < |ix| ==> !Blank(lines[ix[k]]) && TextRows(text)[k] == Words(lines[ix[k]])
  {
    Seqs.FilterMapInOrder(LineRow, SplitOn(text, '\n'));
  }

  /** Every row is non-empty and every entry of it is a token. */
  lemma TextRowsShape(text: string)
    ensures forall k :: 0 <= k < |TextRows(text)| ==> TextRows(text)[k] != []
    ensures forall k, j :: 0 <= k < |TextRows(text)| && 0 <= j < |TextRows(text)[k]| ==> IsToken(TextRows(text)[k][j])
  {
    TextRowsInOrder(text);
    var lines := SplitOn(text, '\n');
    var ix := Seqs.Positions(Seqs.Defined(LineRow), lines);
    forall k | 0 <= k < |ix|
      ensures TextRows(text)[k] != []
    {
      WordsEmptyIffBlank(lines[ix[k]]);
    }
  }

  lemma {:induction false} RowsFlatten(lines: seq<string>)
    ensures Seqs.Flatten(Seqs.FilterMap(LineRow, lines)) == Seqs.Flatten(WordsEach(lines))
  {
    if lines != [] {
      var l, t := lines[0], lines[1..];
      RowsFlatten(t);
      assert lines == [l] + t;
      Seqs.FilterMapCons(LineRow, l, t);
      var h := if LineRow(l).Some? then [LineRow(l).value] else [];
      Seqs.FlattenAppend(h, Seqs.FilterMap(LineRow, t));
      LineRowWords(l);
      assert WordsEach(lines) == [Words(l)] + WordsEach(t);
      Seqs.FlattenCons(Words(l), WordsEach(t));
    }
  }

  /** A line contributes its words whether or not it gives a row. */
  lemma LineRowWords(line: string)
    ensures Seqs.Flatten(if LineRow(line).Some? then [LineRow(line).value] else []) == Words(line)
  {
    WordsEmptyIffBlank(line);
    if LineRow(line).Some? {
      Seqs.FlattenCons(LineRow(line).value, []);
      assert [LineRow(line).value] == [LineRow(line).value] + [];
    }
  }

  /** The rows hold exactly the words of the page text, in order: no token is
      lost, split or merged. */
  lemma TextRowsWords(text: string)
    ensures Seqs.Flatten(TextRows(text)) == Words(text)
  {
    RowsFlatten(SplitOn(text, '\n'));
    WordsOfPieces(text, '\n');
  }

  /** A page yields no rows exactly when its text is blank. */
  lemma TextRowsEmptyIff(text: string)
    ensures TextRows(text) == [] <==> Blank(text)
  {
    TextRowsWords(text);
    WordsEmptyIffBlank(text);
    var rows := TextRows(text);
    if rows != [] {
      TextRowsShape(text);
      assert Seqs.Flatten(rows) == rows[0] + Seqs.Flatten(rows[1..]);
    }
  }

  /** A text is blank exactly when each of its lines is. */
  lemma BlankIffLinesBlank(text: string)
    ensures Blank(text) ==> forall i :: 0 <= i < |SplitOn(text, '\n')| ==> Blank(SplitOn(text, '\n')[i])
    ensures (forall i :: 0 <= i < |SplitOn(text, '\n')| ==> Blank(SplitOn(text, '\n')[i])) ==> Blank(text)
  {
    TextRowsEmptyIff(text);
    var lines := SplitOn(text, '\n');
    var row := LineRow;
    Seqs.FilterMapEmptyIff(row, lines);
    if Blank(text) {
      forall i | 0 <= i < |lines|
        ensures Blank(lines[i])
      {
        assert row(lines[i]).None?;
      }
    } else {
      var i :| 0 <= i < |lines| && row(lines[i]).Some?;
      assert !Blank(lines[i]);
    }
  }

  /** The frame of a non-empty list of rows is rectangular and never empty, so
      the `df.empty` test cannot fail; row `r` holds the tokens of `rows[r]`
      followed by missing cells. */
  lemma GridSpec(rows: seq<seq<string>>)
    requires rows != []
    requires forall k :: 0 <= k < |rows| ==> rows[k] != []
    ensures var g := Grid(rows);
            && Rectangular(g) && !Empty(g)
            && |g.rows| == |rows|
            && (forall r :: 0 <= r < |rows| ==> |rows[r]| <= |g.columns|)
            && (forall r, j :: 0 <= r < |rows| && 0 <= j < |g.columns| ==>
                  g.rows[r][j] == if j < |rows[r]| then Some(rows[r][j]) else None)
  {
    var r :| 0 <= r < |rows| && |rows[r]| == MaxLen(rows);
  }

  /** A page gives a table exactly when its text is not blank, and that table is
      the grid of its token rows. */
  lemma PageTableIff(text: string)
    ensures PageTable(text).Some? <==> !Blank(text)
    ensures PageTable(text).Some? ==> PageTable(text).value == Grid(TextRows(text))
  {
    TextRowsEmptyIff(text);
    if TextRows(text) != [] {
      TextRowsShape(text);
      GridSpec(TextRows(text));
    }
  }

  /** The tables are, in order, the grids of the pages whose text is not blank. */
  lemma BasicTablesInOrder(texts: seq<string>)
    ensures var ix := Seqs.Positions(Seqs.Defined(PageTable), texts);
            && |BasicTables(texts)| == |ix|
            && forall k :: 0 <= k < |ix| ==>
                 !Blank(texts[ix[k]]) && BasicTables(texts)[k] == Grid(TextRows(texts[ix[k]]))
  {
    Seqs.FilterMapInOrder(PageTable, texts);
    var ix := Seqs.Positions(Seqs.Defined(PageTable), texts);
    forall k | 0 <= k < |ix|
      ensures !Blank(texts[ix[k]]) && BasicTables(texts)[k] == Grid(TextRows(texts[ix[k]]))
    {
      PageTableIff(texts[ix[k]]);
    }
  }
}
