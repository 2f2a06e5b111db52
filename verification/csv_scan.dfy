/** `splitCSV` of the bucket restore (restoreFromBucket.js, lines 124-147):
    a character-by-character scanner in which every `"` toggles an
    "inside quotes" flag and is dropped, a comma outside quotes ends the
    current field, and every other character is appended to it. */
module CsvScan {
  import opened Text

  /** The scanner's variables: the fields pushed so far (`arr`), the field
      being built (`cur`) and `insideQuotes`. */
  datatype Scan = Scan(fields: seq<string>, cur: string, quoted: bool)

  const Start := Scan([], "", false)

  /** One iteration of the loop body. */
  function Step(st: Scan, ch: char): Scan {
    if ch == '"' then st.(quoted := !st.quoted)
    else if ch == ',' && !st.quoted then Scan(st.fields + [st.cur], "", false)
    else st.(cur := st.cur + [ch])
  }

  /** The loop over `s`, from state `st`. */
  function Run(st: Scan, s: string): Scan
    decreases |s|
  {
    if |s| == 0 then st else Run(Step(st, s[0]), s[1..])
  }

  /** `splitCSV(line)`: the pushed fields plus the last one. */
  function SplitCsv(line: string): seq<string> {
    var st := Run(Start, line);
    st.fields + [st.cur]
  }

  // ---------------------------------------------------------------------------
  // reference definitions
  // ---------------------------------------------------------------------------

  /** Number of commas of `s` that the quote parity starting at `quoted`
      places outside quotes. */
  function CommasOutside(s: string, quoted: bool): nat
    decreases |s|
  {
    if |s| == 0 then 0
    else if s[0] == '"' then CommasOutside(s[1..], !quoted)
    else (if s[0] == ',' && !quoted then 1 else 0) + CommasOutside(s[1..], quoted)
  }

  /** `s` with every `"` removed. */
  function Unquoted(s: string): (r: string)
    decreases |s|
  {
    if |s| == 0 then "" else (if s[0] == '"' then "" else [s[0]]) + Unquoted(s[1..])
  }

  // ---------------------------------------------------------------------------
  // properties of the scanner
  // ---------------------------------------------------------------------------

  /** Scanning a concatenation scans the parts one after the other. */
  lemma {:induction false} RunAppend(st: Scan, a: string, b: string)
    ensures Run(st, a + b) == Run(Run(st, a), b)
    decreases |a|
  {
    if |a| == 0 {
      assert a + b == b;
    } else {
      assert (a + b)[0] == a[0] && (a + b)[1..] == a[1..] + b;
      RunAppend(Step(st, a[0]), a[1..], b);
    }
  }

  /** Every comma outside quotes pushes one field. */
  lemma {:induction false} RunCountsFields(st: Scan, s: string)
    ensures |Run(st, s).fields| == |st.fields| + CommasOutside(s, st.quoted)
    decreases |s|
  {
    if |s| > 0 {
      RunCountsFields(Step(st, s[0]), s[1..]);
    }
  }

  /** `splitCSV` returns one more field than there are commas outside quotes,
      hence always at least one. */
  lemma SplitCsvCount(line: string)
    ensures |SplitCsv(line)| == 1 + CommasOutside(line, false)
  {
    RunCountsFields(Start, line);
  }

  predicate QuoteFree(xs: seq<string>) {
    forall i | 0 <= i < |xs| :: '"' !in xs[i]
  }

  /** Quotes are never copied into a field. */
  lemma {:induction false} RunDropsQuotes(st: Scan, s: string)
    requires QuoteFree(st.fields + [st.cur])
    ensures QuoteFree(Run(st, s).fields + [Run(st, s).cur])
    decreases |s|
  {
    if |s| > 0 {
      var st' := Step(st, s[0]);
      assert QuoteFree(st'.fields + [st'.cur]) by {
        if s[0] == ',' && !st.quoted {
          assert st.fields + [st.cur] == st'.fields;
        } else if s[0] != '"' {
          assert st'.fields == st.fields;
          assert '"' !in st.cur by { assert st.cur == (st.fields + [st.cur])[|st.fields|]; }
          forall i | 0 <= i < |st.fields|
            ensures '"' !in st'.fields[i]
          {
            assert st.fields[i] == (st.fields + [st.cur])[i];
          }
        } else {
          assert st'.fields + [st'.cur] == st.fields + [st.cur];
        }
      }
      RunDropsQuotes(st', s[1..]);
    }
  }

  /** No field returned by `splitCSV` contains `"`. */
  lemma SplitCsvQuoteFree(line: string)
    ensures QuoteFree(SplitCsv(line))
  {
    assert Start.fields + [Start.cur] == [""];
    RunDropsQuotes(Start, line);
  }

  lemma JoinExtendLast(xs: seq<string>, cur: string, c: char)
    ensures Join(xs + [cur + [c]], ',') == Join(xs + [cur], ',') + [c]
  {
    if |xs| == 0 {
      assert [cur + [c]] == xs + [cur + [c]];
    } else {
      JoinSnoc(xs, cur, ',');
      JoinSnoc(xs, cur + [c], ',');
    }
  }

  /** The scanner's output, joined with commas, grows by the unquoted input. */
  lemma {:induction false} RunJoin(st: Scan, s: string)
    ensures Join(Run(st, s).fields + [Run(st, s).cur], ',')
         == Join(st.fields + [st.cur], ',') + Unquoted(s)
    decreases |s|
  {
    if |s| > 0 {
      var st' := Step(st, s[0]);
      RunJoin(st', s[1..]);
      if s[0] == '"' {
      } else if s[0] == ',' && !st.quoted {
        assert st'.fields + [st'.cur] == (st.fields + [st.cur]) + [""];
        JoinSnoc(st.fields + [st.cur], "", ',');
      } else {
        JoinExtendLast(st.fields, st.cur, s[0]);
      }
    }
  }

  /** Joining the fields of `splitCSV` with commas gives the input with every
      `"` removed. */
  lemma SplitCsvJoin(line: string)
    ensures Join(SplitCsv(line), ',') == Unquoted(line)
  {
    RunJoin(Start, line);
    assert Join(Start.fields + [Start.cur], ',') == "";
  }
}
