/** What the upload restore's decoder makes of the backup job's encoder
    output. Splitting on raw commas is only faithful when no field holds a
    comma, and stripping one quote from each end only undoes JSON's quoting
    when the string needed no escapes; under those conditions every field
    comes back as a string: the text itself, the numeral, "true" or
    "false", and the empty string for null or an absent property. */
module UploadRoundTrip {
  import opened Wrappers
  import opened Text
  import opened Js
  import opened CsvEncode
  import opened RoundTrip
  import opened UploadRestore

  /** A field the raw-comma decoder reads back: a plain string without a
      comma, a number or a boolean (null and absent fields are the empty
      string). */
  predicate Bare(v: Option<Value>) {
    match OrEmpty(v)
    case Str(s) => Plain(s) && ',' !in s
    case _ => true
  }

  /** The string a bare field comes back as. */
  function BareText(v: Option<Value>): string {
    match OrEmpty(v)
    case Str(s) => s
    case Num(n) => IntToDecimal(n)
    case Bool(b) => if b then "true" else "false"
    case Null => ""
  }

  /** The row the upload restore inserts for record `r` under columns `cols`. */
  function UploadNormalized(r: Record, cols: seq<string>): Record {
    seq(|cols|, j requires 0 <= j < |cols| => (cols[j], Str(BareText(Lookup(r, cols[j])))))
  }

  /** Tables whose member the upload restore reads back field by field: a
      non-empty key list of distinct names free of commas and line feeds,
      whose first name starts with a character `trim()` keeps, and only bare
      fields. */
  predicate UploadEncodable(data: seq<Record>) {
    var cols := Columns(data);
    && |data| >= 1
    && |cols| >= 1
    && Distinct(cols)
    && (forall j | 0 <= j < |cols| :: ',' !in cols[j] && '\n' !in cols[j])
    && |cols[0]| >= 1 && !IsTrimmable(cols[0][0])
    && (forall i, j | 0 <= i < |data| && 0 <= j < |cols| :: Bare(Lookup(data[i], cols[j])))
  }

  lemma BareNumber(n: int)
    ensures var d := IntToDecimal(n);
      && ',' !in d && |d| >= 1 && !IsTrimmable(d[0]) && !IsTrimmable(d[|d| - 1])
      && StripQuotes(Some(d)) == Some(d)
  {
    var d := IntToDecimal(n);
    DecimalIsBare(n);
    assert IsDigit(d[|d| - 1]) by {
      var m := if n < 0 then -n else n;
      var e := NatToDecimal(m);
      assert |e| >= 1 && IsDigit(e[|e| - 1]);
      assert d[|d| - 1] == e[|e| - 1];
    }
    assert !IsTrimmable(d[0]) && !IsTrimmable(d[|d| - 1]);
    assert d[0] != '"' && d[|d| - 1] != '"';
    StripQuotesOneSided(d);
  }

  lemma BareString(s: string)
    requires Plain(s) && ',' !in s
    ensures var c := Quote(s);
      && ',' !in c && |c| >= 1 && !IsTrimmable(c[0]) && !IsTrimmable(c[|c| - 1])
      && StripQuotes(Some(c)) == Some(s)
  {
    EscapeIdentityIffPlain(s);
    StripQuotesUnwraps(s);
  }

  /** One encoded bare field: no comma, a non-white-space character at each
      end, and one pair of quotes stripped gives back its text. */
  lemma BareCell(r: Record, k: string)
    requires Bare(Lookup(r, k))
    ensures var c := Cell(r, k);
      && ',' !in c && |c| >= 1 && !IsTrimmable(c[0]) && !IsTrimmable(c[|c| - 1])
      && StripQuotes(Some(c)) == Some(BareText(Lookup(r, k)))
  {
    var v := OrEmpty(Lookup(r, k));
    assert Cell(r, k) == Stringify(v);
    match v
    case Str(s) => BareString(s);
    case Num(n) => BareNumber(n);
    case Bool(b) => StripQuotesOneSided(if b then "true" else "false");
    case Null =>
  }

  /** An encoded line of bare fields splits on commas into its cells, and
      each cell strips to the field's text. */
  lemma BareRow(r: Record, cols: seq<string>)
    requires Distinct(cols)
    requires forall j | 0 <= j < |cols| :: Bare(Lookup(r, cols[j]))
    ensures LineRow(cols, Row(r, cols)) == UploadNormalized(r, cols)
  {
    var cs := Cells(r, cols);
    forall j | 0 <= j < |cols|
      ensures ',' !in cs[j] && StripQuotes(Some(cs[j])) == Some(BareText(Lookup(r, cols[j])))
    {
      BareCell(r, cols[j]);
    }
    if |cols| >= 1 {
      SplitJoin(cs, ',');
    } else {
      assert Row(r, cols) == "";
    }
    LineRowDistinct(cols, Row(r, cols));
  }

  /** The encoded member is left as it is by `trim()`. */
  lemma EncodedTrimmed(data: seq<Record>)
    requires UploadEncodable(data)
    ensures Trim(EncodeTable(data)) == EncodeTable(data)
  {
    var e := EncodeTable(data);
    EncodedEnds(data);
    TrimKeeps(e);
  }

  /** An encoded member of bare fields starts with the first column name's
      first character and ends with the last field's last character. */
  lemma EncodedEnds(data: seq<Record>)
    requires UploadEncodable(data)
    ensures var e := EncodeTable(data);
      |e| >= 1 && !IsTrimmable(e[0]) && !IsTrimmable(e[|e| - 1])
  {
    var cols := Columns(data);
    var rows := DataLines(data, cols);
    var header := Join(cols, ',');
    var body := Join(rows, '\n');
    var e := EncodeTable(data);
    assert e == (header + "\n") + body;
    assert |header| >= 1 && header[0] == cols[0][0] by {
      JoinHead(cols, ',');
    }
    assert |body| >= 1 && !IsTrimmable(body[|body| - 1]) by {
      LastRowEnd(data[|data| - 1], cols);
      assert rows[|rows| - 1] == Row(data[|data| - 1], cols);
      JoinLast(rows, '\n');
    }
    assert e[0] == header[0];
    assert e[|e| - 1] == body[|body| - 1];
  }

  /** An encoded line of bare fields ends with a character `trim()` keeps. */
  lemma LastRowEnd(r: Record, cols: seq<string>)
    requires |cols| >= 1
    requires Bare(Lookup(r, cols[|cols| - 1]))
    ensures var line := Row(r, cols);
      |line| >= 1 && !IsTrimmable(line[|line| - 1])
  {
    var cs := Cells(r, cols);
    BareCell(r, cols[|cols| - 1]);
    assert cs[|cs| - 1] == Cell(r, cols[|cols| - 1]);
    JoinLast(cs, ',');
  }

  /** Restoring an uploaded member the backup job wrote, with no insert
      failing, inserts one row per record in order, each with exactly the
      table's columns in order, holding the fields' texts as strings. */
  lemma UploadDecodeEncode(t: string, data: seq<Record>, faults: Faults)
    requires UploadEncodable(data)
    requires forall i :: (t, i) !in faults.insertFails
    ensures Headers(EncodeTable(data)) == Columns(data)
    ensures Inserted(t, EncodeTable(data), faults)
         == seq(|data|, i requires 0 <= i < |data| => UploadNormalized(data[i], Columns(data)))
  {
    var cols := Columns(data);
    var e := EncodeTable(data);
    var rows := DataLines(data, cols);
    var lines := MemberLines(e);
    assert lines == [Join(cols, ',')] + rows by {
      EncodedTrimmed(data);
      EncodeLines(data);
    }
    assert Headers(e) == cols by {
      SplitJoin(cols, ',');
    }
    var inserted := InsertedFrom(t, lines, cols, 1, faults);
    assert inserted == seq(|data|, k requires 0 <= k < |data| => LineRow(cols, lines[1 + k])) by {
      InsertedFromAll(t, lines, cols, 1, faults);
    }
    forall i | 0 <= i < |data|
      ensures inserted[i] == UploadNormalized(data[i], cols)
    {
      assert lines[1 + i] == rows[i];
      BareRow(data[i], cols);
    }
  }
}
