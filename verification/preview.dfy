/** The period summary `/api/archive-preview` answers with
    (archive-preview.js): the purchases, sales and returns of a period,
    grouped by item code, with each category's quantities summed per code.
    The three result sets are inputs; the date filtering the queries ask of
    the store is not modelled. */
module Preview {
  import opened Wrappers
  import opened Text
  import opened Js

  /** The fields of `req.body` the handler reads; `None` is undefined. */
  datatype Request = Request(startDate: Option<Value>, endDate: Option<Value>)

  /** One fetched row: its item code, its item name and the quantity field
      its category reads (`qty`, or `return_qty` for a return). */
  datatype Line = Line(itemCode: Option<Value>, itemName: Option<Value>, qty: Option<Value>)

  datatype Category = Purchase | Sale | Return

  /** A number as the counters hold it: an integer, or NaN. */
  datatype Amount = Finite(n: int) | NaN

  /** `a + b` on numbers: NaN absorbs everything. */
  function Plus(a: Amount, b: Amount): Amount {
    if a.Finite? && b.Finite? then Finite(a.n + b.n) else NaN
  }

  /** `{ item_code, item_name, purchase_qty, sale_qty, return_qty }` */
  datatype Summary = Summary(itemCode: Option<Value>, itemName: Option<Value>,
                             purchaseQty: Amount, saleQty: Amount, returnQty: Amount)

  /** `{ success: false, error: "Missing dates" }` or `{ success: true, rows }`,
      the rows keyed by the property name the code files them under. */
  datatype Reply = MissingDates | Rows(rows: map<string, Summary>)

  /** `Number(s)` for a string, after white space is trimmed: empty text is
      0, a run of decimal digits is its value, other text is taken as NaN. */
  function NumberOfText(t: string): Amount {
    if t == "" then Finite(0)
    else if forall i | 0 <= i < |t| :: IsDigit(t[i]) then Finite(DecimalValue(t))
    else NaN
  }

  /** `Number(q || 0)`: a falsy quantity counts 0. */
  function Quantity(q: Option<Value>): Amount {
    if !Truthy(q) then Finite(0)
    else match q.value
      case Num(n) => Finite(n)
      case Bool(b) => Finite(if b then 1 else 0)
      case Str(s) => NumberOfText(Trim(s))
      case Null => Finite(0)
  }

  /** The property name `map[x.item_code]` uses: `ToString(item_code)`. */
  function Key(l: Line): string {
    ToJsString(l.itemCode)
  }

  /** A row's counter for category `c`. */
  function Count(s: Summary, c: Category): Amount {
    match c
    case Purchase => s.purchaseQty
    case Sale => s.saleQty
    case Return => s.returnQty
  }

  /** `map[code].<category>_qty += a` */
  function Bump(s: Summary, c: Category, a: Amount): (r: Summary)
    ensures Count(r, c) == Plus(Count(s, c), a)
    ensures forall d | d != c :: Count(r, d) == Count(s, d)
    ensures r.itemCode == s.itemCode && r.itemName == s.itemName
  {
    match c
    case Purchase => s.(purchaseQty := Plus(s.purchaseQty, a))
    case Sale => s.(saleQty := Plus(s.saleQty, a))
    case Return => s.(returnQty := Plus(s.returnQty, a))
  }

  /** The row a code's first line creates, every counter at 0. */
  function Fresh(l: Line): Summary {
    Summary(l.itemCode, l.itemName, Finite(0), Finite(0), Finite(0))
  }

  /** One step of `forEach`: create the code's row unless the map already
      holds one, then add the line's quantity to the category's counter. */
  function AddLine(m: map<string, Summary>, c: Category, l: Line): map<string, Summary> {
    Put(m, c, Key(l), l, Quantity(l.qty))
  }

  /** Adds `a` to the category's counter of the row filed under `k`, first
      creating that row from line `l` when the map has none. */
  function Put(m: map<string, Summary>, c: Category, k: string, l: Line, a: Amount): map<string, Summary> {
    var row := if k in m then m[k] else Fresh(l);
    m[k := Bump(row, c, a)]
  }

  function Fold(m: map<string, Summary>, c: Category, ls: seq<Line>): map<string, Summary>
    decreases |ls|
  {
    if |ls| == 0 then m else Fold(AddLine(m, c, ls[0]), c, ls[1..])
  }

  /** `set?.forEach(...)`: a null or undefined result set has no lines. */
  function Lines(rs: Option<seq<Line>>): seq<Line> {
    if rs.Some? then rs.value else []
  }

  /** The summary as intended, built from purchases, then sales, then
      returns, with the lookup `!map[code]` meaning "no row for this code yet". */
  function Summarize(pur: Option<seq<Line>>, sal: Option<seq<Line>>, ret: Option<seq<Line>>): map<string, Summary> {
    Fold(Fold(Fold(map[], Purchase, Lines(pur)), Sale, Lines(sal)), Return, Lines(ret))
  }

  /** The handler as written: both dates must be truthy before any query is
      made, and the summary is built on a plain object, so a code naming an
      inherited `Object.prototype` property gets no row. */
  function ArchivePreview(req: Request, pur: Option<seq<Line>>, sal: Option<seq<Line>>, ret: Option<seq<Line>>): (r: Reply)
    ensures r.MissingDates? <==> !Truthy(req.startDate) || !Truthy(req.endDate)
    ensures r.Rows? ==> r.rows.Keys == Codes(Lines(pur)) + Codes(Lines(sal)) + Codes(Lines(ret)) - Inherited
    ensures r.Rows? ==> forall key | key in r.rows ::
              && r.rows[key].purchaseQty == Total(Lines(pur), key)
              && r.rows[key].saleQty == Total(Lines(sal), key)
              && r.rows[key].returnQty == Total(Lines(ret), key)
  {
    if !Truthy(req.startDate) || !Truthy(req.endDate) then MissingDates
    else
      SummaryRows(pur, sal, ret);
      SummaryAsWritten(pur, sal, ret);
      Rows(SummarizeAsWritten(pur, sal, ret))
  }

  /** The handler as evidently intended: one row for every code found. */
  function ArchivePreviewCorrected(req: Request, pur: Option<seq<Line>>, sal: Option<seq<Line>>, ret: Option<seq<Line>>): (r: Reply)
    ensures r.MissingDates? <==> !Truthy(req.startDate) || !Truthy(req.endDate)
    ensures r.Rows? ==> r.rows.Keys == Codes(Lines(pur)) + Codes(Lines(sal)) + Codes(Lines(ret))
    ensures r.Rows? ==> forall key | key in r.rows ::
              && r.rows[key].purchaseQty == Total(Lines(pur), key)
              && r.rows[key].saleQty == Total(Lines(sal), key)
              && r.rows[key].returnQty == Total(Lines(ret), key)
  {
    if !Truthy(req.startDate) || !Truthy(req.endDate) then MissingDates
    else
      SummaryRows(pur, sal, ret);
      Rows(Summarize(pur, sal, ret))
  }

  // ---------------------------------------------------------------------------
  // reference definitions
  // ---------------------------------------------------------------------------

  /** The codes the lines carry. */
  function Codes(ls: seq<Line>): set<string>
    decreases |ls|
  {
    if |ls| == 0 then {} else {Key(ls[0])} + Codes(ls[1..])
  }

  /** The sum of `Number(q || 0)` over the lines whose code is `key`. */
  function Total(ls: seq<Line>, key: string): Amount
    decreases |ls|
  {
    if |ls| == 0 then Finite(0)
    else Plus(if Key(ls[0]) == key then Quantity(ls[0].qty) else Finite(0), Total(ls[1..], key))
  }

  /** The first line whose code is `key`. */
  function First(ls: seq<Line>, key: string): Option<Line>
    decreases |ls|
  {
    if |ls| == 0 then None
    else if Key(ls[0]) == key then Some(ls[0])
    else First(ls[1..], key)
  }

  // ---------------------------------------------------------------------------
  // properties
  // ---------------------------------------------------------------------------

  /** A code is carried exactly when it has a first line; a code no line
      carries sums to 0. */
  lemma {:induction false} CodesSpec(ls: seq<Line>, key: string)
    ensures key in Codes(ls) <==> First(ls, key).Some?
    ensures First(ls, key).Some? ==> Key(First(ls, key).value) == key
    ensures key !in Codes(ls) ==> Total(ls, key) == Finite(0)
    decreases |ls|
  {
    if |ls| > 0 {
      CodesSpec(ls[1..], key);
    }
  }

  /** The first line of a concatenation comes from its first part when it can. */
  lemma {:induction false} FirstAppend(a: seq<Line>, b: seq<Line>, key: string)
    ensures First(a + b, key) == if First(a, key).Some? then First(a, key) else First(b, key)
    decreases |a|
  {
    if |a| == 0 {
      assert a + b == b;
    } else {
      assert (a + b)[0] == a[0] && (a + b)[1..] == a[1..] + b;
      FirstAppend(a[1..], b, key);
    }
  }

  /** Folding lines into the map adds exactly the codes the lines carry. */
  lemma {:induction false} FoldKeys(m: map<string, Summary>, c: Category, ls: seq<Line>, key: string)
    ensures key in Fold(m, c, ls) <==> key in m || key in Codes(ls)
    decreases |ls|
  {
    if |ls| > 0 {
      FoldKeys(AddLine(m, c, ls[0]), c, ls[1..], key);
    }
  }

  /** A row already in the map adds the lines' total to the folded
      category's counter and keeps its other counters, code and name. */
  lemma {:induction false} FoldPresent(m: map<string, Summary>, c: Category, ls: seq<Line>, key: string)
    requires key in m
    ensures key in Fold(m, c, ls)
    ensures var s := Fold(m, c, ls)[key];
      && Count(s, c) == Plus(Count(m[key], c), Total(ls, key))
      && (forall d | d != c :: Count(s, d) == Count(m[key], d))
      && s.itemCode == m[key].itemCode && s.itemName == m[key].itemName
    decreases |ls|
  {
    if |ls| > 0 {
      var m' := AddLine(m, c, ls[0]);
      var q := if Key(ls[0]) == key then Quantity(ls[0].qty) else Finite(0);
      PutRow(m, c, Key(ls[0]), ls[0], Quantity(ls[0].qty), key);
      assert Fold(m, c, ls) == Fold(m', c, ls[1..]);
      assert Total(ls, key) == Plus(q, Total(ls[1..], key));
      FoldPresent(m', c, ls[1..], key);
      PlusAssociative(Count(m[key], c), q, Total(ls[1..], key));
    }
  }

  /** Adding an amount under `k` to a map that has a row for `key` adds it
      to that row when `k` is `key`, and nothing otherwise. */
  lemma PutRow(m: map<string, Summary>, c: Category, k: string, l: Line, a: Amount, key: string)
    requires key in m
    ensures key in Put(m, c, k, l, a)
    ensures var s := Put(m, c, k, l, a)[key];
      var q := if k == key then a else Finite(0);
      && Count(s, c) == Plus(Count(m[key], c), q)
      && (forall d | d != c :: Count(s, d) == Count(m[key], d))
      && s.itemCode == m[key].itemCode && s.itemName == m[key].itemName
  {
    if k == key {
      assert Put(m, c, k, l, a)[key] == Bump(m[key], c, a);
    } else {
      assert Put(m, c, k, l, a)[key] == m[key];
      assert Plus(Count(m[key], c), Finite(0)) == Count(m[key], c);
    }
  }

  /** A row the lines create takes the code and name of the first line
      carrying the code, holds the lines' total in the folded category's
      counter and 0 in the other two. */
  lemma {:induction false} FoldCreates(m: map<string, Summary>, c: Category, ls: seq<Line>, key: string)
    requires key !in m && key in Codes(ls)
    ensures key in Fold(m, c, ls) && First(ls, key).Some?
    ensures var s := Fold(m, c, ls)[key];
      && Count(s, c) == Total(ls, key)
      && (forall d | d != c :: Count(s, d) == Finite(0))
      && s.itemCode == First(ls, key).value.itemCode && s.itemName == First(ls, key).value.itemName
    decreases |ls|
  {
    var m' := AddLine(m, c, ls[0]);
    if Key(ls[0]) == key {
      FoldPresent(m', c, ls[1..], key);
      PlusZero(Quantity(ls[0].qty));
    } else {
      FoldCreates(m', c, ls[1..], key);
      PlusZero(Total(ls[1..], key));
    }
  }

  /** The summary has one row per code found in any of the three result
      sets; each counter is the total of its category's quantities for the
      code (0 for a category without the code); the row's code and name
      come from the code's first line, purchases before sales before
      returns. */
  lemma SummaryRows(pur: Option<seq<Line>>, sal: Option<seq<Line>>, ret: Option<seq<Line>>)
    ensures var out := Summarize(pur, sal, ret);
      var p, s, r := Lines(pur), Lines(sal), Lines(ret);
      && out.Keys == Codes(p) + Codes(s) + Codes(r)
      && forall key | key in out ::
           && out[key].purchaseQty == Total(p, key)
           && out[key].saleQty == Total(s, key)
           && out[key].returnQty == Total(r, key)
           && First(p + s + r, key).Some?
           && out[key].itemCode == First(p + s + r, key).value.itemCode
           && out[key].itemName == First(p + s + r, key).value.itemName
  {
    var out := Summarize(pur, sal, ret);
    var p, s, r := Lines(pur), Lines(sal), Lines(ret);
    forall key
      ensures key in out <==> key in Codes(p) + Codes(s) + Codes(r)
    {
      var m0: map<string, Summary> := map[];
      FoldKeys(m0, Purchase, p, key);
      FoldKeys(Fold(m0, Purchase, p), Sale, s, key);
      FoldKeys(Fold(Fold(m0, Purchase, p), Sale, s), Return, r, key);
    }
    forall key | key in out
      ensures out[key].purchaseQty == Total(p, key)
      ensures out[key].saleQty == Total(s, key)
      ensures out[key].returnQty == Total(r, key)
      ensures First(p + s + r, key).Some?
      ensures out[key].itemCode == First(p + s + r, key).value.itemCode
      ensures out[key].itemName == First(p + s + r, key).value.itemName
    {
      SummaryRow(pur, sal, ret, key);
    }
  }

  lemma SummaryRow(pur: Option<seq<Line>>, sal: Option<seq<Line>>, ret: Option<seq<Line>>, key: string)
    requires key in Codes(Lines(pur)) + Codes(Lines(sal)) + Codes(Lines(ret))
    ensures var out := Summarize(pur, sal, ret);
      var p, s, r := Lines(pur), Lines(sal), Lines(ret);
      && key in out
      && out[key].purchaseQty == Total(p, key)
      && out[key].saleQty == Total(s, key)
      && out[key].returnQty == Total(r, key)
      && First(p + s + r, key).Some?
      && out[key].itemCode == First(p + s + r, key).value.itemCode
      && out[key].itemName == First(p + s + r, key).value.itemName
  {
    var p, s, r := Lines(pur), Lines(sal), Lines(ret);
    assert Summarize(pur, sal, ret) == Fold(Fold(Fold(map[], Purchase, p), Sale, s), Return, r);
    FirstAppend(p, s, key);
    FirstAppend(p + s, r, key);
    CodesSpec(p, key);
    if key in Codes(p) {
      RowFromPurchases(p, s, r, key);
      PlusZero(Total(s, key));
      PlusZero(Total(r, key));
    } else if key in Codes(s) {
      CodesSpec(s, key);
      RowFromSales(p, s, r, key);
      PlusZero(Total(r, key));
    } else {
      CodesSpec(s, key);
      CodesSpec(r, key);
      RowFromReturns(p, s, r, key);
    }
  }

  /** The row of the three folds for a code the purchases carry. */
  lemma RowFromPurchases(p: seq<Line>, s: seq<Line>, r: seq<Line>, key: string)
    requires key in Codes(p)
    ensures var out := Fold(Fold(Fold(map[], Purchase, p), Sale, s), Return, r);
      && key in out && First(p, key).Some?
      && out[key].purchaseQty == Total(p, key)
      && out[key].saleQty == Plus(Finite(0), Total(s, key))
      && out[key].returnQty == Plus(Finite(0), Total(r, key))
      && out[key].itemCode == First(p, key).value.itemCode
      && out[key].itemName == First(p, key).value.itemName
  {
    var m0: map<string, Summary> := map[];
    var m1 := Fold(m0, Purchase, p);
    var m2 := Fold(m1, Sale, s);
    FoldCreates(m0, Purchase, p, key);
    FoldPresent(m1, Sale, s, key);
    FoldPresent(m2, Return, r, key);
    var row := Fold(m2, Return, r)[key];
    assert row.purchaseQty == Count(row, Purchase);
    assert row.saleQty == Count(row, Sale);
    assert row.returnQty == Count(row, Return);
  }

  /** The row of the three folds for a code first carried by the sales. */
  lemma RowFromSales(p: seq<Line>, s: seq<Line>, r: seq<Line>, key: string)
    requires key !in Codes(p) && key in Codes(s)
    ensures var out := Fold(Fold(Fold(map[], Purchase, p), Sale, s), Return, r);
      && key in out && First(s, key).Some?
      && out[key].purchaseQty == Finite(0)
      && out[key].saleQty == Total(s, key)
      && out[key].returnQty == Plus(Finite(0), Total(r, key))
      && out[key].itemCode == First(s, key).value.itemCode
      && out[key].itemName == First(s, key).value.itemName
  {
    var m0: map<string, Summary> := map[];
    var m1 := Fold(m0, Purchase, p);
    var m2 := Fold(m1, Sale, s);
    FoldKeys(m0, Purchase, p, key);
    FoldCreates(m1, Sale, s, key);
    FoldPresent(m2, Return, r, key);
    var row := Fold(m2, Return, r)[key];
    assert row.purchaseQty == Count(row, Purchase);
    assert row.saleQty == Count(row, Sale);
    assert row.returnQty == Count(row, Return);
  }

  /** The row of the three folds for a code only the returns carry. */
  lemma RowFromReturns(p: seq<Line>, s: seq<Line>, r: seq<Line>, key: string)
    requires key !in Codes(p) && key !in Codes(s) && key in Codes(r)
    ensures var out := Fold(Fold(Fold(map[], Purchase, p), Sale, s), Return, r);
      && key in out && First(r, key).Some?
      && out[key].purchaseQty == Finite(0)
      && out[key].saleQty == Finite(0)
      && out[key].returnQty == Total(r, key)
      && out[key].itemCode == First(r, key).value.itemCode
      && out[key].itemName == First(r, key).value.itemName
  {
    var m0: map<string, Summary> := map[];
    var m1 := Fold(m0, Purchase, p);
    var m2 := Fold(m1, Sale, s);
    FoldKeys(m0, Purchase, p, key);
    FoldKeys(m1, Sale, s, key);
    FoldCreates(m2, Return, r, key);
    var row := Fold(m2, Return, r)[key];
    assert row.purchaseQty == Count(row, Purchase);
    assert row.saleQty == Count(row, Sale);
    assert row.returnQty == Count(row, Return);
  }

  lemma PlusZero(a: Amount)
    ensures Plus(Finite(0), a) == a
  {
  }

  /** Adding a line's quantity in any order gives the same sum. */
  lemma PlusAssociative(a: Amount, b: Amount, c: Amount)
    ensures Plus(Plus(a, b), c) == Plus(a, Plus(b, c))
  {
  }

  // ---------------------------------------------------------------------------
  // the lookup as the code performs it
  // ---------------------------------------------------------------------------

  /** The properties an object literal `{}` inherits from `Object.prototype`.
      Reading one through `map[code]` yields a function or the prototype
      itself, which is truthy although the map holds no row for it. */
  const Inherited: set<string> := {
    "constructor", "hasOwnProperty", "isPrototypeOf", "propertyIsEnumerable",
    "toLocaleString", "toString", "valueOf", "__proto__",
    "__defineGetter__", "__defineSetter__", "__lookupGetter__", "__lookupSetter__"
  }

  /** `AddLine` as the code performs it on a plain object: for an inherited
      name the truthiness test finds a value, no row is created, and `+=`
      writes to the inherited object instead, which `Object.values` never
      lists. */
  function AddLineAsWritten(m: map<string, Summary>, c: Category, l: Line): map<string, Summary> {
    var key := Key(l);
    if key in m then m[key := Bump(m[key], c, Quantity(l.qty))]
    else if key in Inherited then m
    else m[key := Bump(Fresh(l), c, Quantity(l.qty))]
  }

  function FoldAsWritten(m: map<string, Summary>, c: Category, ls: seq<Line>): map<string, Summary>
    decreases |ls|
  {
    if |ls| == 0 then m else FoldAsWritten(AddLineAsWritten(m, c, ls[0]), c, ls[1..])
  }

  function SummarizeAsWritten(pur: Option<seq<Line>>, sal: Option<seq<Line>>, ret: Option<seq<Line>>): map<string, Summary> {
    FoldAsWritten(FoldAsWritten(FoldAsWritten(map[], Purchase, Lines(pur)), Sale, Lines(sal)), Return, Lines(ret))
  }

  /** The rows of `m` except those filed under an inherited name. */
  function Own(m: map<string, Summary>): map<string, Summary> {
    map key | key in m && key !in Inherited :: m[key]
  }

  lemma {:induction false} FoldAsWrittenOwn(m: map<string, Summary>, c: Category, ls: seq<Line>)
    ensures FoldAsWritten(Own(m), c, ls) == Own(Fold(m, c, ls))
    decreases |ls|
  {
    if |ls| > 0 {
      AddLineOwn(m, c, ls[0]);
      FoldAsWrittenOwn(AddLine(m, c, ls[0]), c, ls[1..]);
    }
  }

  /** One step as written on the own rows is the intended step, then own rows. */
  lemma AddLineOwn(m: map<string, Summary>, c: Category, l: Line)
    ensures AddLineAsWritten(Own(m), c, l) == Own(AddLine(m, c, l))
  {
    var k := Key(l);
    var lhs := AddLineAsWritten(Own(m), c, l);
    var rhs := Own(Put(m, c, k, l, Quantity(l.qty)));
    if k in Inherited {
      assert k !in Own(m) && lhs == Own(m);
      assert rhs == Own(m);
    } else {
      var row := if k in m then m[k] else Fresh(l);
      assert k in Own(m) <==> k in m;
      assert lhs == Own(m)[k := Bump(row, c, Quantity(l.qty))];
      assert rhs == Own(m)[k := Bump(row, c, Quantity(l.qty))];
    }
  }

  /** The summary as written is the intended summary with every code that
      names an inherited property dropped, whatever its quantities. */
  lemma SummaryAsWritten(pur: Option<seq<Line>>, sal: Option<seq<Line>>, ret: Option<seq<Line>>)
    ensures SummarizeAsWritten(pur, sal, ret) == Own(Summarize(pur, sal, ret))
    ensures forall key | key in Inherited :: key !in SummarizeAsWritten(pur, sal, ret)
  {
    var m0: map<string, Summary> := map[];
    assert Own(m0) == m0;
    FoldAsWrittenOwn(m0, Purchase, Lines(pur));
    var m1 := Fold(m0, Purchase, Lines(pur));
    FoldAsWrittenOwn(m1, Sale, Lines(sal));
    var m2 := Fold(m1, Sale, Lines(sal));
    FoldAsWrittenOwn(m2, Return, Lines(ret));
  }

  /** A purchase of item "toString" is missing from the summary as written,
      while the intended summary lists it with its quantity. */
  lemma InheritedCodeDropped()
    ensures var l := Line(Some(Str("toString")), Some(Str("Widget")), Some(Num(3)));
      && "toString" !in SummarizeAsWritten(Some([l]), None, None)
      && "toString" in Summarize(Some([l]), None, None)
      && Summarize(Some([l]), None, None)["toString"].purchaseQty == Finite(3)
  {
    var l := Line(Some(Str("toString")), Some(Str("Widget")), Some(Num(3)));
    assert Key(l) == "toString";
    assert "toString" !in SummarizeAsWritten(Some([l]), None, None) by {
      SummaryAsWritten(Some([l]), None, None);
    }
    assert Total([l], "toString") == Finite(3) by {
      assert Quantity(l.qty) == Finite(3);
      assert [l][1..] == [];
    }
    assert Codes([l]) == {"toString"} by {
      assert [l][1..] == [];
    }
    SummaryRow(Some([l]), None, None, "toString");
  }
}
