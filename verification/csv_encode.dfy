/** The table encoder of the backup job (backup.js, lines 51-58): a header
    line of column names, then one line per record whose fields are
    `JSON.stringify(r[k] ?? "")` joined by commas. Strings are therefore
    quoted with backslash escapes (not RFC 4180 doubling); numbers and
    booleans are bare; a null or absent field becomes `""`. */
module CsvEncode {
  import opened Wrappers
  import opened Text
  import opened Js

  /** The archive member holding table `t`: `${t}.csv`. */
  function MemberName(t: string): string {
    t + ".csv"
  }

  /** `Object.keys(data[0] || {})`: the column list is the key order of the
      first record, or empty for an empty table. */
  function Columns(data: seq<Record>): seq<string> {
    if |data| == 0 then [] else Keys(data[0])
  }

  /** `r[k] ?? ""` */
  function OrEmpty(v: Option<Value>): Value {
    match v
    case None => Str("")
    case Some(Null) => Str("")
    case Some(x) => x
  }

  /** One field: `JSON.stringify(r[k] ?? "")`. */
  function Cell(r: Record, k: string): string {
    Stringify(OrEmpty(Lookup(r, k)))
  }

  function Cells(r: Record, cols: seq<string>): (cs: seq<string>)
    ensures |cs| == |cols|
  {
    seq(|cols|, j requires 0 <= j < |cols| => Cell(r, cols[j]))
  }

  /** One data line: the record's fields in column order. */
  function Row(r: Record, cols: seq<string>): string {
    Join(Cells(r, cols), ',')
  }

  function DataLines(data: seq<Record>, cols: seq<string>): (rs: seq<string>)
    ensures |rs| == |data|
  {
    seq(|data|, i requires 0 <= i < |data| => Row(data[i], cols))
  }

  /** `header + rows`, with `header = keys.join(",") + "\n"` and the data
      lines joined by "\n" (no trailing line feed). */
  function EncodeTable(data: seq<Record>): string {
    var cols := Columns(data);
    Join(cols, ',') + "\n" + Join(DataLines(data, cols), '\n')
  }

  /** No field contains a line feed: JSON escapes it inside strings. */
  lemma CellHasNoLineFeed(r: Record, k: string)
    ensures '\n' !in Cell(r, k)
  {
    match OrEmpty(Lookup(r, k))
    case Str(s) => EscapeQuotesAndLines(s);
    case Num(n) =>
      NatToDecimalReadsBack(if n < 0 then -n else n);
      assert forall c | c in IntToDecimal(n) :: c == '-' || IsDigit(c);
    case Bool(b) =>
    case Null =>
  }

  lemma RowHasNoLineFeed(r: Record, cols: seq<string>)
    ensures '\n' !in Row(r, cols)
  {
    forall j | 0 <= j < |cols|
      ensures '\n' !in Cells(r, cols)[j]
    {
      CellHasNoLineFeed(r, cols[j]);
    }
    JoinAvoids(Cells(r, cols), ',', '\n');
  }

  /** The member text splits into the header line and exactly one line per
      record; an empty table is the single line feed "\n", i.e. an empty
      header followed by one empty line. */
  lemma EncodeLines(data: seq<Record>)
    requires forall k | k in Columns(data) :: '\n' !in k
    ensures var lines := Split(EncodeTable(data), '\n');
      && lines[0] == Join(Columns(data), ',')
      && (|data| == 0 ==> EncodeTable(data) == "\n" && lines == ["", ""])
      && (|data| > 0 ==> lines == [Join(Columns(data), ',')] + DataLines(data, Columns(data)))
  {
    var cols := Columns(data);
    var header := Join(cols, ',');
    var rows := DataLines(data, cols);
    JoinAvoids(cols, ',', '\n');
    SplitAfterPiece(header, Join(rows, '\n'), '\n');
    if |data| == 0 {
      assert cols == [];
      assert EncodeTable(data) == "" + "\n" + "";
    } else {
      forall i | 0 <= i < |rows|
        ensures '\n' !in rows[i]
      {
        RowHasNoLineFeed(data[i], cols);
      }
      SplitJoin(rows, '\n');
    }
  }
}
