/** The CSV text both recorders produce: every cell wrapped in double quotes
    with nothing inside escaped, cells joined by ',' and rows by '\n', with no
    newline after the last row. This resembles RFC 4180 but differs from it:
    an embedded '"' is not doubled (section 2, rule 7 of RFC 4180), and rows
    end in LF rather than CRLF. */
module Csv {
  import opened Text

  /** What the page hands to the browser's download link. */
  datatype Download = Download(fileName: string, content: string)

  function Quote(cell: string): (r: string)
    ensures |r| == |cell| + 2
  {
    "\"" + cell + "\""
  }

  /** Drops one pair of surrounding double quotes, if there is one. */
  function Unquote(q: string): string
  {
    if |q| >= 2 && q[0] == '"' && q[|q| - 1] == '"' then q[1..|q| - 1] else q
  }

  /** Whatever the cell holds, the quotes Quote adds are the ones Unquote drops. */
  lemma UnquoteQuote(cell: string)
    ensures Unquote(Quote(cell)) == cell
  {
    assert Quote(cell)[1..|cell| + 1] == cell;
  }

  function QuoteAll(cells: seq<string>): (r: seq<string>)
    ensures |r| == |cells|
  {
    seq(|cells|, k requires 0 <= k < |cells| => Quote(cells[k]))
  }

  function UnquoteAll(cells: seq<string>): (r: seq<string>)
    ensures |r| == |cells|
  {
    seq(|cells|, k requires 0 <= k < |cells| => Unquote(cells[k]))
  }

  /** `row.map(cell => '"' + cell + '"').join(",")` */
  function FormatRow(cells: seq<string>): string
  {
    JoinWith(QuoteAll(cells), ',')
  }

  function FormatRows(rows: seq<seq<string>>): (r: seq<string>)
    ensures |r| == |rows|
  {
    seq(|rows|, k requires 0 <= k < |rows| => FormatRow(rows[k]))
  }

  /** `csvRows.map(FormatRow).join("\n")` */
  function Serialize(rows: seq<seq<string>>): string
  {
    JoinWith(FormatRows(rows), '\n')
  }

  /** A reader for this format: split into lines at '\n', each line into cells
      at ',', and drop each cell's surrounding quotes. */
  function ParseRow(line: string): seq<string>
  {
    UnquoteAll(Split(line, ','))
  }

  function ParseCsv(text: string): seq<seq<string>>
  {
    var lines := Split(text, '\n');
    seq(|lines|, k requires 0 <= k < |lines| => ParseRow(lines[k]))
  }

  /** One row per item, in the items' order. */
  function RowsOf<E>(items: seq<E>, cells: E -> seq<string>): (r: seq<seq<string>>)
    ensures |r| == |items|
  {
    if |items| == 0 then [] else RowsOf(items[..|items| - 1], cells) + [cells(items[|items| - 1])]
  }

  /** Row `k` holds the cells of item `k`. */
  lemma {:induction false} RowsOfAt<E>(items: seq<E>, cells: E -> seq<string>, k: nat)
    requires k < |items|
    ensures RowsOf(items, cells)[k] == cells(items[k])
  {
    if k < |items| - 1 {
      RowsOfAt(items[..|items| - 1], cells, k);
    }
  }

  /** The rows of more items extend the rows of fewer. */
  lemma {:induction false} RowsOfAppend<E>(items: seq<E>, more: seq<E>, cells: E -> seq<string>)
    ensures RowsOf(items + more, cells) == RowsOf(items, cells) + RowsOf(more, cells)
  {
    if |more| == 0 {
      assert items + more == items;
    } else {
      var init := more[..|more| - 1];
      assert (items + more)[..|items + more| - 1] == items + init;
      RowsOfAppend(items, init, cells);
    }
  }

  /** After a header, line `k + 1` is the formatted row of item `k`. */
  lemma FormatRowsOfAt<E>(header: seq<string>, items: seq<E>, cells: E -> seq<string>, k: nat)
    requires k < |items|
    ensures FormatRows([header] + RowsOf(items, cells))[k + 1] == FormatRow(cells(items[k]))
  {
    var rows := [header] + RowsOf(items, cells);
    var row := cells(items[k]);
    RowsOfAt(items, cells, k);
    assert rows[k + 1] == row;
    FormatRowAt(rows, k + 1, row);
  }

  lemma FormatRowAt(rows: seq<seq<string>>, k: nat, row: seq<string>)
    requires k < |rows| && rows[k] == row
    ensures FormatRows(rows)[k] == FormatRow(row)
  {
  }

  lemma FormatRowsOf<E>(header: seq<string>, items: seq<E>, cells: E -> seq<string>)
    ensures forall k :: 0 <= k < |items| ==> FormatRows([header] + RowsOf(items, cells))[k + 1] == FormatRow(cells(items[k]))
  {
    forall k | 0 <= k < |items| {
      FormatRowsOfAt(header, items, cells, k);
    }
  }

  /** No cell of the row holds a line break. */
  predicate OneLineRow(row: seq<string>)
  {
    forall c :: 0 <= c < |row| ==> '\n' !in row[c]
  }

  /** A header and one row per item, no cell holding a line break, give
      exactly one line per row: the header's line, then item `k`'s line. */
  lemma HeaderRowsLines<E>(header: seq<string>, items: seq<E>, cells: E -> seq<string>)
    requires OneLineRow(header)
    requires forall k :: 0 <= k < |items| ==> OneLineRow(cells(items[k]))
    ensures |Split(Serialize([header] + RowsOf(items, cells)), '\n')| == |items| + 1
    ensures Split(Serialize([header] + RowsOf(items, cells)), '\n')[0] == FormatRow(header)
    ensures forall k :: 0 <= k < |items| ==>
              Split(Serialize([header] + RowsOf(items, cells)), '\n')[k + 1] == FormatRow(cells(items[k]))
  {
    var rows := [header] + RowsOf(items, cells);
    forall r, c | 0 <= r < |rows| && 0 <= c < |rows[r]| ensures '\n' !in rows[r][c] {
      if r > 0 {
        RowsOfAt(items, cells, r - 1);
      }
    }
    SerializeLines(rows);
    FormatRowsOf(header, items, cells);
  }

  /** Decodes every row, failing if any row fails. */
  function DecodeRows<E>(rows: seq<seq<string>>, decode: seq<string> -> Option<E>): Option<seq<E>>
  {
    if |rows| == 0 then Some([])
    else
      var init, last := DecodeRows(rows[..|rows| - 1], decode), decode(rows[|rows| - 1]);
      if init.Some? && last.Some? then Some(init.value + [last.value]) else None
  }

  /** Rows that decode one by one to the items decode together to them. */
  lemma {:induction false} DecodeRowsOf<E>(rows: seq<seq<string>>, items: seq<E>, decode: seq<string> -> Option<E>)
    requires |rows| == |items|
    requires forall k :: 0 <= k < |rows| ==> decode(rows[k]) == Some(items[k])
    ensures DecodeRows(rows, decode) == Some(items)
  {
    if |rows| > 0 {
      var n := |rows| - 1;
      DecodeRowsOf(rows[..n], items[..n], decode);
      assert items == items[..n] + [items[n]];
    }
  }

  /** A cell this format can carry: without escaping, a ',' or a line break
      inside a cell would be read as a cell or row boundary. */
  predicate PlainCell(cell: string)
  {
    ',' !in cell && '\n' !in cell
  }

  predicate PlainRow(cells: seq<string>)
  {
    |cells| > 0 && forall k :: 0 <= k < |cells| ==> PlainCell(cells[k])
  }

  /** A row without line breaks formats to one line. */
  lemma FormatRowOneLine(cells: seq<string>)
    requires forall k :: 0 <= k < |cells| ==> '\n' !in cells[k]
    ensures '\n' !in FormatRow(cells)
  {
    var q := QuoteAll(cells);
    forall k | 0 <= k < |q| ensures '\n' !in q[k] {
      assert q[k] == "\"" + cells[k] + "\"";
    }
    JoinWithAvoids(q, ',', '\n');
  }

  /** Reading a formatted row gives back its cells. */
  lemma ParseFormatRow(cells: seq<string>)
    requires PlainRow(cells)
    ensures ParseRow(FormatRow(cells)) == cells
  {
    var q := QuoteAll(cells);
    forall k | 0 <= k < |q| ensures ',' !in q[k] {
      assert q[k] == "\"" + cells[k] + "\"";
    }
    SplitJoin(q, ',');
    forall k | 0 <= k < |cells| ensures UnquoteAll(q)[k] == cells[k] {
      UnquoteQuote(cells[k]);
    }
  }

  /** The text has one line per row, in order, and no trailing line break:
      splitting it at '\n' gives exactly the formatted rows. */
  lemma SerializeLines(rows: seq<seq<string>>)
    requires |rows| > 0
    requires forall r, k :: 0 <= r < |rows| && 0 <= k < |rows[r]| ==> '\n' !in rows[r][k]
    ensures Split(Serialize(rows), '\n') == FormatRows(rows)
  {
    var lines := FormatRows(rows);
    forall r | 0 <= r < |lines| ensures '\n' !in lines[r] {
      FormatRowOneLine(rows[r]);
    }
    SplitJoin(lines, '\n');
  }

  /** Reading the text back recovers every row and every cell, provided the
      cells are plain. */
  lemma ParseSerialize(rows: seq<seq<string>>)
    requires |rows| > 0
    requires forall r :: 0 <= r < |rows| ==> PlainRow(rows[r])
    ensures ParseCsv(Serialize(rows)) == rows
  {
    SerializeLines(rows);
    var lines := FormatRows(rows);
    forall r | 0 <= r < |rows| ensures ParseRow(lines[r]) == rows[r] {
      ParseFormatRow(rows[r]);
    }
  }

  /** Appending rows only appends text: an earlier export is a prefix of a
      later one made from more rows. */
  lemma SerializePrefix(rows: seq<seq<string>>, more: seq<seq<string>>)
    ensures Serialize(rows) <= Serialize(rows + more)
  {
    if |rows| == 0 {
      return;
    }
    assert FormatRows(rows + more) == FormatRows(rows) + FormatRows(more);
    JoinWithPrefix(FormatRows(rows), FormatRows(more), '\n');
  }

  /** Appending a row appends a line break and that row's line. */
  lemma SerializeSnoc(rows: seq<seq<string>>, row: seq<string>)
    requires |rows| > 0
    ensures Serialize(rows + [row]) == Serialize(rows) + "\n" + FormatRow(row)
  {
    assert FormatRows(rows + [row]) == FormatRows(rows) + [FormatRow(row)];
    JoinWithSnoc(FormatRows(rows), FormatRow(row), '\n');
  }

  /** Because embedded quotes are not escaped, a one-cell row holding `a","b`
      and the two-cell row `a`, `b` are written identically. */
  lemma QuotingIsAmbiguous()
    ensures FormatRow(["a\",\"b"]) == FormatRow(["a", "b"])
    ensures ["a\",\"b"] != ["a", "b"]
  {
    var one, two := QuoteAll(["a\",\"b"]), QuoteAll(["a", "b"]);
    assert one[0] == Quote("a\",\"b");
    assert two[0] == Quote("a") && two[1] == Quote("b");
    assert Quote("a\",\"b") == "\"a\",\"b\"";
    assert Quote("a") == "\"a\"" && Quote("b") == "\"b\"";
    assert one == ["\"a\",\"b\""];
    assert two == ["\"a\"", "\"b\""];
    assert two[1..] == ["\"b\""];
  }
}
