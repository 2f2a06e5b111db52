/** What the bucket restore's decoder makes of the backup job's encoder
    output. The quote-toggle scanner strips the quotes that JSON put around
    strings, so a string comes back as its JSON-escaped body; numbers and
    booleans come back as their text; null, an absent property and the empty
    string all come back as null. Keys that only later records carry are
    lost, because the header is the first record's key list. */
module RoundTrip {
  import opened Wrappers
  import opened Text
  import opened Js
  import opened CsvEncode
  import opened CsvScan
  import opened CsvDecode

  /** The text the scanner keeps of one encoded field. */
  function Recovered(v: Option<Value>): string {
    match OrEmpty(v)
    case Str(s) => Escape(s)
    case Num(n) => IntToDecimal(n)
    case Bool(b) => if b then "true" else "false"
    case Null => ""
  }

  /** The value one field decodes to: its recovered text, or null when empty. */
  function Normalize(v: Option<Value>): Value {
    if Recovered(v) == "" then Null else Str(Recovered(v))
  }

  /** The object one record decodes to under the header `cols`. */
  function Normalized(r: Record, cols: seq<string>): Record {
    seq(|cols|, j requires 0 <= j < |cols| => (cols[j], Normalize(Lookup(r, cols[j]))))
  }

  /** A field the scanner can split correctly: no string containing `"`. */
  predicate Scannable(v: Option<Value>) {
    !(OrEmpty(v).Str? && '"' in OrEmpty(v).s)
  }

  /** Tables the encoder writes and the decoder reads back column by column:
      a non-empty key list of distinct names free of commas and line feeds,
      and no string field with a double quote in it. */
  predicate Encodable(data: seq<Record>) {
    var cols := Columns(data);
    && |cols| >= 1
    && Distinct(cols)
    && (forall j | 0 <= j < |cols| :: ',' !in cols[j] && '\n' !in cols[j])
    && (forall i, j | 0 <= i < |data| && 0 <= j < |cols| :: Scannable(Lookup(data[i], cols[j])))
  }

  // ---------------------------------------------------------------------------
  // scanning one encoded field and one encoded line
  // ---------------------------------------------------------------------------

  /** Outside quotes, text without quotes or commas is appended to the field;
      inside quotes, text without quotes is appended, commas included. */
  lemma {:induction false} RunPlain(fs: seq<string>, cur: string, q: bool, body: string)
    requires '"' !in body
    requires !q ==> ',' !in body
    ensures Run(Scan(fs, cur, q), body) == Scan(fs, cur + body, q)
    decreases |body|
  {
    if |body| == 0 {
      assert cur + body == cur;
    } else {
      assert body[0] != '"' && (!q ==> body[0] != ',');
      assert Step(Scan(fs, cur, q), body[0]) == Scan(fs, cur + [body[0]], q);
      assert '"' !in body[1..] && (!q ==> ',' !in body[1..]);
      RunPlain(fs, cur + [body[0]], q, body[1..]);
      assert cur + [body[0]] + body[1..] == cur + body;
    }
  }

  /** Integers are written with digits and a minus sign only. */
  lemma DecimalIsBare(n: int)
    ensures |IntToDecimal(n)| >= 1
    ensures '"' !in IntToDecimal(n) && ',' !in IntToDecimal(n)
    ensures IntToDecimal(n)[0] == '-' || IsDigit(IntToDecimal(n)[0])
  {
    NatToDecimalReadsBack(if n < 0 then -n else n);
  }

  /** Scanning one encoded field outside quotes leaves exactly its recovered
      text in the current field, outside quotes again. */
  lemma CellScan(fs: seq<string>, r: Record, k: string)
    requires Scannable(Lookup(r, k))
    ensures Run(Scan(fs, "", false), Cell(r, k)) == Scan(fs, Recovered(Lookup(r, k)), false)
  {
    match OrEmpty(Lookup(r, k))
    case Str(s) =>
      var e := Escape(s);
      EscapeQuotesAndLines(s);
      RunAppend(Scan(fs, "", false), "\"" + e, "\"");
      RunAppend(Scan(fs, "", false), "\"", e);
      RunPlain(fs, "", true, e);
    case Num(n) =>
      DecimalIsBare(n);
      RunPlain(fs, "", false, IntToDecimal(n));
    case Bool(b) =>
      RunPlain(fs, "", false, if b then "true" else "false");
    case Null =>
  }

  function RecoveredAll(r: Record, cols: seq<string>): (xs: seq<string>)
    ensures |xs| == |cols|
  {
    seq(|cols|, j requires 0 <= j < |cols| => Recovered(Lookup(r, cols[j])))
  }

  /** Scanning an encoded line pushes every field but the last and leaves the
      last one current. */
  lemma {:induction false} RowScan(fs: seq<string>, r: Record, cols: seq<string>)
    requires |cols| >= 1
    requires forall j | 0 <= j < |cols| :: Scannable(Lookup(r, cols[j]))
    ensures var xs := RecoveredAll(r, cols);
      Run(Scan(fs, "", false), Row(r, cols)) == Scan(fs + xs[..|cols| - 1], xs[|cols| - 1], false)
    decreases |cols|, 1
  {
    var xs := RecoveredAll(r, cols);
    if |cols| == 1 {
      assert Row(r, cols) == Cell(r, cols[0]);
      assert xs[..0] == [];
      assert Run(Scan(fs, "", false), Cell(r, cols[0])) == Scan(fs, xs[0], false) by {
        CellScan(fs, r, cols[0]);
      }
    } else {
      var head, rest := Cell(r, cols[0]) + [','], Row(r, cols[1..]);
      assert Row(r, cols) == head + rest by {
        RowHead(r, cols);
      }
      assert Run(Scan(fs, "", false), head) == Scan(fs + [xs[0]], "", false) by {
        CellCommaScan(fs, r, cols[0]);
      }
      RowScanRest(fs, r, cols);
      RunAppend(Scan(fs, "", false), head, rest);
    }
  }

  /** Scanning the columns after the first, once the first field is pushed. */
  lemma {:induction false} RowScanRest(fs: seq<string>, r: Record, cols: seq<string>)
    requires |cols| >= 2
    requires forall j | 0 <= j < |cols| :: Scannable(Lookup(r, cols[j]))
    ensures var xs := RecoveredAll(r, cols);
      Run(Scan(fs + [xs[0]], "", false), Row(r, cols[1..])) == Scan(fs + xs[..|cols| - 1], xs[|cols| - 1], false)
    decreases |cols|, 0
  {
    var xs := RecoveredAll(r, cols);
    var ys := RecoveredAll(r, cols[1..]);
    assert forall j | 0 <= j < |cols[1..]| :: Scannable(Lookup(r, cols[1..][j])) by {
      forall j | 0 <= j < |cols[1..]|
        ensures Scannable(Lookup(r, cols[1..][j]))
      {
        assert cols[1..][j] == cols[j + 1];
      }
    }
    RowScan(fs + [xs[0]], r, cols[1..]);
    assert ys == xs[1..] by {
      RecoveredTail(r, cols);
    }
    PushSlice(fs, xs, |cols| - 1);
  }

  lemma RecoveredTail(r: Record, cols: seq<string>)
    requires |cols| >= 1
    ensures RecoveredAll(r, cols[1..]) == RecoveredAll(r, cols)[1..]
  {
    var xs, ys := RecoveredAll(r, cols), RecoveredAll(r, cols[1..]);
    forall j | 0 <= j < |ys|
      ensures ys[j] == xs[1..][j]
    {
      assert cols[1..][j] == cols[j + 1];
    }
  }

  /** Pushing the first element, then the next `n - 1`, pushes the first `n`. */
  lemma PushSlice(fs: seq<string>, xs: seq<string>, n: nat)
    requires 1 <= n <= |xs|
    ensures (fs + [xs[0]]) + xs[1..][..n - 1] == fs + xs[..n]
  {
    assert xs[..n] == [xs[0]] + xs[1..][..n - 1];
  }

  /** A line of two or more columns is the first field, a comma and the line
      of the remaining columns. */
  lemma RowHead(r: Record, cols: seq<string>)
    requires |cols| >= 2
    ensures Row(r, cols) == Cell(r, cols[0]) + [','] + Row(r, cols[1..])
  {
    assert Cells(r, cols)[1..] == Cells(r, cols[1..]);
  }

  /** Scanning one encoded field and the comma after it pushes the field's
      recovered text. */
  lemma CellCommaScan(fs: seq<string>, r: Record, k: string)
    requires Scannable(Lookup(r, k))
    ensures Run(Scan(fs, "", false), Cell(r, k) + [',']) == Scan(fs + [Recovered(Lookup(r, k))], "", false)
  {
    CellScan(fs, r, k);
    RunAppend(Scan(fs, "", false), Cell(r, k), [',']);
  }

  /** `splitCSV` of an encoded line gives back one recovered text per column. */
  lemma SplitRow(r: Record, cols: seq<string>)
    requires |cols| >= 1
    requires forall j | 0 <= j < |cols| :: Scannable(Lookup(r, cols[j]))
    ensures SplitCsv(Row(r, cols)) == RecoveredAll(r, cols)
  {
    RowScan([], r, cols);
    var xs := RecoveredAll(r, cols);
    assert xs[..|cols| - 1] + [xs[|cols| - 1]] == xs;
  }

  /** An encoded line of at least one column is never blank: it starts with a
      quote, a digit, a minus sign or the first letter of a boolean. */
  lemma RowNotBlank(r: Record, cols: seq<string>)
    requires |cols| >= 1
    ensures !Blank(Row(r, cols))
  {
    var cs := Cells(r, cols);
    var c := cs[0];
    assert |c| >= 1 && !IsTrimmable(c[0]) by {
      match OrEmpty(Lookup(r, cols[0]))
      case Str(s) =>
      case Num(n) => DecimalIsBare(n);
      case Bool(b) =>
      case Null =>
    }
    JoinHead(cs, ',');
  }

  // ---------------------------------------------------------------------------
  // the round trip
  // ---------------------------------------------------------------------------

  /** The header and data lines the decoder sees in an encoded table. */
  lemma EncodedLines(data: seq<Record>)
    requires |data| > 0 && Encodable(data)
    ensures Header(EncodeTable(data)) == Columns(data)
    ensures Body(EncodeTable(data)) == DataLines(data, Columns(data))
  {
    var cols := Columns(data);
    var lines := Split(EncodeTable(data), '\n');
    EncodeLines(data);
    var rows := DataLines(data, cols);
    assert lines[1..] == rows;
    SplitJoin(cols, ',');
    forall i | 0 <= i < |rows|
      ensures !Blank(rows[i])
    {
      RowNotBlank(data[i], cols);
    }
    NonBlankSpec(rows);
  }

  /** Decoding the backup job's member text yields, for every record in
      order, an object with exactly the first record's columns in that order,
      each holding the field's recovered text or null; an empty table decodes
      to no records. */
  lemma DecodeEncode(data: seq<Record>)
    requires |data| > 0 ==> Encodable(data)
    ensures DecodeTable(EncodeTable(data))
         == seq(|data|, i requires 0 <= i < |data| => Normalized(data[i], Columns(data)))
  {
    var cols := Columns(data);
    if |data| == 0 {
      EncodeLines(data);
      assert Split(EncodeTable(data), '\n')[1..] == [""];
      assert NonBlank([""]) == [] by {
        assert [""][1..] == [];
        assert Trim("") == "";
      }
    } else {
      var rows := DataLines(data, cols);
      var out := DecodeLines(cols, rows);
      assert DecodeTable(EncodeTable(data)) == out by {
        EncodedLines(data);
      }
      forall i | 0 <= i < |data|
        ensures out[i] == Normalized(data[i], cols)
      {
        assert out[i] == BuildRow(cols, SplitCsv(Row(data[i], cols)));
        SplitRow(data[i], cols);
        BuildRowDistinct(cols, RecoveredAll(data[i], cols));
      }
    }
  }

  /** Records that all carry the same keys in the same order, with non-empty
      plain strings as values (commas allowed), come back unchanged. */
  lemma DecodeEncodeExact(data: seq<Record>)
    requires |data| > 0 ==> |Keys(data[0])| >= 1
    requires forall i | 0 <= i < |data| :: WellFormed(data[i]) && Keys(data[i]) == Columns(data)
    requires forall k | k in Columns(data) :: ',' !in k && '\n' !in k
    requires forall i, j | 0 <= i < |data| && 0 <= j < |data[i]| ::
      data[i][j].1.Str? && data[i][j].1.s != "" && Plain(data[i][j].1.s)
    ensures DecodeTable(EncodeTable(data)) == data
  {
    var cols := Columns(data);
    forall i, j | 0 <= i < |data| && 0 <= j < |cols|
      ensures Lookup(data[i], cols[j]) == Some(data[i][j].1)
      ensures Normalize(Lookup(data[i], cols[j])) == data[i][j].1
    {
      LookupAt(data[i], j);
      EscapeIdentityIffPlain(data[i][j].1.s);
      assert '"' !in data[i][j].1.s;
    }
    var exp := seq(|data|, i requires 0 <= i < |data| => Normalized(data[i], cols));
    assert DecodeTable(EncodeTable(data)) == exp by {
      if |data| > 0 {
        assert WellFormed(data[0]);
        assert Encodable(data);
      }
      DecodeEncode(data);
    }
    forall i | 0 <= i < |data|
      ensures exp[i] == data[i]
    {
      assert |data[i]| == |cols|;
    }
  }
}
