/** The table decoder of the bucket restore (restoreFromBucket.js, lines
    92-105): split the member text on "\n", take the first line split on
    raw commas as the header, drop the later lines that are blank after
    `trim()`, and turn each remaining line into an object by splitting it
    with `splitCSV` and assigning `values[i] || null` to each header name. */
module CsvDecode {
  import opened Wrappers
  import opened Text
  import opened Js
  import opened CsvScan

  /** `values[i] || null`: a missing or empty token becomes null. */
  function CellValue(values: seq<string>, i: nat): Value {
    if i < |values| && values[i] != "" then Str(values[i]) else Null
  }

  /** `header.forEach((h, i) => { obj[h] = values[i] || null; })` */
  function BuildRow(header: seq<string>, values: seq<string>): Record
    decreases |header|
  {
    if |header| == 0 then []
    else
      var n := |header| - 1;
      Assign(BuildRow(header[..n], values), header[n], CellValue(values, n))
  }

  /** `.filter((l) => l.trim() !== "")` */
  function NonBlank(lines: seq<string>): seq<string>
    decreases |lines|
  {
    if |lines| == 0 then []
    else (if Trim(lines[0]) != "" then [lines[0]] else []) + NonBlank(lines[1..])
  }

  /** The header line of a member, split on raw commas. */
  function Header(content: string): seq<string> {
    Split(Split(content, '\n')[0], ',')
  }

  /** The data lines of a member: those after the header that are not blank. */
  function Body(content: string): seq<string> {
    NonBlank(Split(content, '\n')[1..])
  }

  /** One object per data line. */
  function DecodeLines(header: seq<string>, body: seq<string>): (rs: seq<Record>)
    ensures |rs| == |body|
  {
    seq(|body|, i requires 0 <= i < |body| => BuildRow(header, SplitCsv(body[i])))
  }

  /** Decodes one table member. */
  function DecodeTable(content: string): seq<Record> {
    DecodeLines(Header(content), Body(content))
  }

  // ---------------------------------------------------------------------------
  // properties
  // ---------------------------------------------------------------------------

  /** The filter keeps only non-blank lines, and keeps a single line exactly
      when it is not blank. */
  lemma {:induction false} NonBlankSpec(lines: seq<string>)
    ensures forall i | 0 <= i < |NonBlank(lines)| :: !Blank(NonBlank(lines)[i])
    ensures (forall i | 0 <= i < |lines| :: !Blank(lines[i])) ==> NonBlank(lines) == lines
    ensures (forall i | 0 <= i < |lines| :: Blank(lines[i])) ==> NonBlank(lines) == []
    ensures |lines| == 1 ==> NonBlank(lines) == if Blank(lines[0]) then [] else lines
    decreases |lines|
  {
    if |lines| > 0 {
      NonBlankSpec(lines[1..]);
      TrimEmptyIffBlank(lines[0]);
      assert [lines[0]] + lines[1..] == lines;
    }
  }

  /** The filter works line by line: filtering a concatenation filters each
      part. With the one-line case above, this fixes the result as the
      non-blank lines in their order. */
  lemma {:induction false} NonBlankAppend(a: seq<string>, b: seq<string>)
    ensures NonBlank(a + b) == NonBlank(a) + NonBlank(b)
    decreases |a|
  {
    if |a| == 0 {
      assert a + b == b;
    } else {
      assert (a + b)[0] == a[0] && (a + b)[1..] == a[1..] + b;
      NonBlankAppend(a[1..], b);
    }
  }

  /** With a header free of repeated names, each decoded object has exactly the
      header's columns in header order, each holding its token or null. */
  lemma {:induction false} BuildRowDistinct(header: seq<string>, values: seq<string>)
    requires Distinct(header)
    ensures BuildRow(header, values)
         == seq(|header|, j requires 0 <= j < |header| => (header[j], CellValue(values, j)))
    decreases |header|
  {
    if |header| > 0 {
      var n := |header| - 1;
      var prefix := header[..n];
      BuildRowDistinct(prefix, values);
      var o := BuildRow(prefix, values);
      assert Keys(o) == prefix;
      LookupSomeIffKey(o, header[n]);
      assert Lookup(o, header[n]).None?;
      assert Assign(o, header[n], CellValue(values, n)) == o + [(header[n], CellValue(values, n))]
        by { AssignAppends(o, header[n], CellValue(values, n)); }
    }
  }

  /** Whatever the header, every decoded object is well formed and has a
      property for each header name and for nothing else. */
  lemma {:induction false} BuildRowKeys(header: seq<string>, values: seq<string>)
    ensures WellFormed(BuildRow(header, values))
    ensures forall k :: Lookup(BuildRow(header, values), k).Some? <==> k in header
    decreases |header|
  {
    if |header| > 0 {
      var n := |header| - 1;
      BuildRowKeys(header[..n], values);
      var o := BuildRow(header[..n], values);
      AssignWellFormed(o, header[n], CellValue(values, n));
      AssignLookup(o, header[n], CellValue(values, n));
      assert header == header[..n] + [header[n]];
    }
  }

  /** One object per non-blank line after the header, each keyed by the header. */
  lemma DecodeTableShape(content: string)
    ensures |DecodeTable(content)| == |Body(content)|
    ensures Distinct(Header(content)) ==>
      forall i | 0 <= i < |DecodeTable(content)| :: Keys(DecodeTable(content)[i]) == Header(content)
  {
    var records := DecodeTable(content);
    var body := Body(content);
    if Distinct(Header(content)) {
      forall i | 0 <= i < |records|
        ensures Keys(records[i]) == Header(content)
      {
        BuildRowDistinct(Header(content), SplitCsv(body[i]));
      }
    }
  }
}
