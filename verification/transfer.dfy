/** `/api/archive-transfer` (archive-transfer.js): copy the rows of a period
    summary into `opening_stock`, each stamped with the period's dates, in
    one bulk insert. */
module Transfer {
  import opened Wrappers
  import opened Js
  import opened Store

  /** The fields copied from each summary row, in order. */
  const CopiedFields: seq<string> := ["item_code", "item_name", "purchase_qty", "sale_qty", "return_qty"]

  /** The properties of a batch entry, in order. */
  const BatchFields: seq<string> := CopiedFields + ["start_date", "end_date"]

  const OpeningStock := "opening_stock"

  /** `req.body.rows`: an array of row objects, or anything else (`None` is
      undefined). */
  datatype RowsField = Array(elems: seq<Record>) | Scalar(v: Option<Value>)

  /** The fields of `req.body` the handler reads. */
  datatype Request = Request(rows: RowsField, startDate: Option<Value>, endDate: Option<Value>)

  datatype Reply =
    | InvalidData          // `{ success: false, error: "Invalid data" }`
    | Failed(error: string) // `{ success: false, error }`, the insert's or the thrown error's message
    | Succeeded            // `{ success: true }`

  datatype Outcome = Outcome(reply: Reply, db: Db)

  /** `!!rows`: an array is an object, and every object is truthy. */
  predicate RowsTruthy(rows: RowsField) {
    rows.Array? || Truthy(rows.v)
  }

  /** The batch entry for summary row `r`: the five copied fields (undefined
      when `r` lacks them) and the two dates. */
  function Entry(r: Record, start: Option<Value>, end: Option<Value>): Object<Option<Value>> {
    [ ("item_code", Lookup(r, "item_code")),
      ("item_name", Lookup(r, "item_name")),
      ("purchase_qty", Lookup(r, "purchase_qty")),
      ("sale_qty", Lookup(r, "sale_qty")),
      ("return_qty", Lookup(r, "return_qty")),
      ("start_date", start),
      ("end_date", end) ]
  }

  /** `rows.map(r => ({ ... }))` */
  function Batch(rows: seq<Record>, start: Option<Value>, end: Option<Value>): (batch: seq<Object<Option<Value>>>)
    ensures |batch| == |rows|
  {
    seq(|rows|, i requires 0 <= i < |rows| => Entry(rows[i], start, end))
  }

  /** The row the store receives for an object: its serialisation drops
      undefined properties. */
  function Defined(o: Object<Option<Value>>): Record
    decreases |o|
  {
    if |o| == 0 then []
    else (if o[0].1.Some? then [(o[0].0, o[0].1.value)] else []) + Defined(o[1..])
  }

  function DefinedAll(batch: seq<Object<Option<Value>>>): (rows: seq<Record>)
    ensures |rows| == |batch|
  {
    seq(|batch|, i requires 0 <= i < |batch| => Defined(batch[i]))
  }

  /** The handler, given whether the bulk insert fails and with what
      message. A truthy `rows` that is not an array makes `rows.map` throw
      the engine's TypeError ("rows.map is not a function" in V8). */
  function ArchiveTransfer(req: Request, db: Db, insertError: Option<string>): (o: Outcome)
    ensures o.reply == InvalidData <==>
      !RowsTruthy(req.rows) || !Truthy(req.startDate) || !Truthy(req.endDate)
    ensures o.reply == Succeeded <==>
      req.rows.Array? && Truthy(req.startDate) && Truthy(req.endDate) && insertError.None?
    ensures o.reply.Failed? && req.rows.Array? ==> o.reply.error == insertError.value
    ensures o.reply != Succeeded ==> o.db == db
    ensures forall t | t != OpeningStock :: Rows(o.db, t) == Rows(db, t)
    ensures o.reply == Succeeded ==>
      && |Rows(o.db, OpeningStock)| == |Rows(db, OpeningStock)| + |req.rows.elems|
      && Rows(o.db, OpeningStock)[..|Rows(db, OpeningStock)|] == Rows(db, OpeningStock)
  {
    if !RowsTruthy(req.rows) || !Truthy(req.startDate) || !Truthy(req.endDate) then
      Outcome(InvalidData, db)
    else if req.rows.Scalar? then
      Outcome(Failed("rows.map is not a function"), db)
    else
      var batch := Batch(req.rows.elems, req.startDate, req.endDate);
      match insertError
      case Some(msg) => Outcome(Failed(msg), db)
      case None =>
        var rows := Rows(db, OpeningStock) + DefinedAll(batch);
        Outcome(Succeeded, db[OpeningStock := rows])
  }

  // ---------------------------------------------------------------------------
  // properties
  // ---------------------------------------------------------------------------

  lemma BatchFieldsDistinct()
    ensures Distinct(BatchFields)
  {
  }

  /** Every batch entry has exactly the seven batch properties, in order:
      the five copied fields hold the summary row's values and the two
      dates hold the request's. */
  lemma EntryShape(r: Record, start: Option<Value>, end: Option<Value>)
    ensures var e := Entry(r, start, end);
      && Keys(e) == BatchFields
      && (forall k | k in CopiedFields :: Lookup(e, k) == Some(Lookup(r, k)))
      && Lookup(e, "start_date") == Some(start)
      && Lookup(e, "end_date") == Some(end)
  {
    var e := Entry(r, start, end);
    assert Keys(e) == BatchFields;
    BatchFieldsDistinct();
    forall i | 0 <= i < |e|
      ensures Lookup(e, e[i].0) == Some(e[i].1)
    {
      LookupAt(e, i);
    }
    assert e[5].0 == "start_date" && e[6].0 == "end_date";
    forall k | k in CopiedFields
      ensures Lookup(e, k) == Some(Lookup(r, k))
    {
      var i :| 0 <= i < 5 && CopiedFields[i] == k;
      assert e[i] == (k, Lookup(r, k));
    }
  }

  /** A serialised object holds exactly the defined properties, with their
      values. */
  lemma {:induction false} DefinedLookup(o: Object<Option<Value>>, k: string)
    requires WellFormed(o)
    ensures Lookup(Defined(o), k) ==
      if Lookup(o, k).Some? && Lookup(o, k).value.Some? then Some(Lookup(o, k).value.value) else None
    decreases |o|
  {
    if |o| > 0 {
      assert Keys(o[1..]) == Keys(o)[1..];
      DefinedLookup(o[1..], k);
      var d := Defined(o);
      if o[0].1.Some? {
        assert d == [(o[0].0, o[0].1.value)] + Defined(o[1..]);
        assert d[0] == (o[0].0, o[0].1.value) && d[1..] == Defined(o[1..]);
      } else {
        assert d == Defined(o[1..]);
      }
      if o[0].0 == k {
        LookupSomeIffKey(o[1..], k);
      }
    }
  }

  /** The row stored for summary row `r`: its defined copied fields, the
      dates, and no other property. */
  lemma StoredEntry(r: Record, start: Option<Value>, end: Option<Value>)
    ensures var d := Defined(Entry(r, start, end));
      && (forall k | k in CopiedFields :: Lookup(d, k) == Lookup(r, k))
      && Lookup(d, "start_date") == start
      && Lookup(d, "end_date") == end
      && (forall k | k !in BatchFields :: Lookup(d, k).None?)
  {
    var e := Entry(r, start, end);
    EntryShape(r, start, end);
    BatchFieldsDistinct();
    forall k
      ensures Lookup(Defined(e), k) ==
        if Lookup(e, k).Some? && Lookup(e, k).value.Some? then Some(Lookup(e, k).value.value) else None
    {
      DefinedLookup(e, k);
    }
    forall k | k !in BatchFields
      ensures Lookup(e, k).None?
    {
      LookupSomeIffKey(e, k);
    }
  }

  /** A successful transfer appends one `opening_stock` row per summary row,
      in order; each carries the summary row's defined copied fields and the
      request's dates, and nothing else. */
  lemma TransferRows(req: Request, db: Db, insertError: Option<string>)
    requires ArchiveTransfer(req, db, insertError).reply == Succeeded
    ensures var before := Rows(db, OpeningStock);
      var after := Rows(ArchiveTransfer(req, db, insertError).db, OpeningStock);
      var rows := req.rows.elems;
      && |after| == |before| + |rows|
      && forall i | 0 <= i < |rows| ::
           && (forall k | k in CopiedFields :: Lookup(after[|before| + i], k) == Lookup(rows[i], k))
           && Lookup(after[|before| + i], "start_date") == req.startDate
           && Lookup(after[|before| + i], "end_date") == req.endDate
           && (forall k | k !in BatchFields :: Lookup(after[|before| + i], k).None?)
  {
    var before := Rows(db, OpeningStock);
    var rows := req.rows.elems;
    var after := Rows(ArchiveTransfer(req, db, insertError).db, OpeningStock);
    assert after == before + DefinedAll(Batch(rows, req.startDate, req.endDate));
    forall i | 0 <= i < |rows|
      ensures after[|before| + i] == Defined(Entry(rows[i], req.startDate, req.endDate))
    {
    }
    forall i | 0 <= i < |rows|
      ensures StoredAt(after[|before| + i], rows[i], req.startDate, req.endDate)
    {
      StoredEntry(rows[i], req.startDate, req.endDate);
    }
  }

  ghost predicate StoredAt(d: Record, r: Record, start: Option<Value>, end: Option<Value>) {
    && (forall k | k in CopiedFields :: Lookup(d, k) == Lookup(r, k))
    && Lookup(d, "start_date") == start
    && Lookup(d, "end_date") == end
    && (forall k | k !in BatchFields :: Lookup(d, k).None?)
  }
}
