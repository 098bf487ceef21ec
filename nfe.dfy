/** Flattening of one parsed NFe invoice (`processar_nfe`) into report rows:
    header lookups with defaults, item lookups with defaults, and one row per
    lot (`rastro`) carrying an equal share of the item's quantity. */
module NFe {
  import opened Wrappers
  import opened Text
  import opened Expiry

  const Unknown: string := "Desconhecido"
  const UnknownProduct: string := "Produto Desconhecido"
  const DefaultUnit: string := "UN"
  const NoLot: string := "Sem Lote"
  const NoExpiry: string := "Sem Validade"

  /** The Python exceptions that escape the extraction uncaught. */
  datatype Exception = ValueError | TypeError | AttributeError

  /** A value, or the exception that aborted its computation. */
  datatype Result<+T> = Ok(value: T) | Raised(exception: Exception) {
    predicate IsFailure() { Raised? }
    function PropagateFailure<U>(): Result<U> requires Raised? { Raised(exception) }
    function Extract(): T requires Ok? { value }
  }

  /** An element found by a namespaced lookup. `text` is `None` when the
      element has no character content, as ElementTree reports it. */
  datatype Element = Element(text: Option<string>)

  /** Each `Option<Element>` field is the result of one `find`: `None` when
      the path is absent. */
  datatype Rastro = Rastro(nLote: Option<Element>, dVal: Option<Element>)

  /** A `det` line item: `prod/xProd`, `prod/qCom`, `prod/uCom` and every
      `prod/rastro`, in document order. */
  datatype Det = Det(xProd: Option<Element>, qCom: Option<Element>, uCom: Option<Element>,
                     rastros: seq<Rastro>)

  /** The `NFe/infNFe` node: `ide/nNF`, `ide/serie`, `emit/xNome`,
      `total/ICMSTot/vProd`, `ide/natOp` and every `det`, in document order. */
  datatype InfNFe = InfNFe(nNF: Option<Element>, serie: Option<Element>, xNome: Option<Element>,
                           vProd: Option<Element>, natOp: Option<Element>, dets: seq<Det>)

  /** The outcome of parsing one upload: not well-formed XML, well-formed
      without an `NFe/infNFe` node, or an invoice. */
  datatype Document = Malformed | NotAnInvoice | Invoice(info: InfNFe)

  /** A text cell of the report; `None` is Python's `None`. */
  type Cell = Option<string>

  datatype Header = Header(invoice: string, supplier: Cell, total: real, nature: Cell)

  datatype Item = Item(product: string, quantity: real, unit: string)

  /** One report row, columns in the report's order: DATA, NOTA FISCAL,
      FORNECEDOR, PRODUTO, QUANTIDADE, UNIDADE, LOTE, VALIDADE,
      VALOR TOTAL PRODUTOS, NATUREZA DA OPERACAO. */
  datatype Row = Row(date: string, invoice: string, supplier: Cell, product: string,
                     quantity: real, unit: string, lot: Cell, expiry: Cell,
                     total: real, nature: Cell)

  /** `node.text if node is not None else default`. */
  function TextOrDefault(node: Option<Element>, default: string): Cell
  {
    match node
    case None => Some(default)
    case Some(e) => e.text
  }

  /** How an f-string renders a cell. */
  function Show(c: Cell): string
  {
    match c
    case Some(s) => s
    case None => "None"
  }

  /** `float(node.text) if node is not None else 0.00`: `float(None)` raises
      `TypeError`, non-numeric text `ValueError`. */
  function ReadTotal(node: Option<Element>): Result<real>
  {
    match node
    case None => Ok(0.0)
    case Some(Element(None)) => Raised(TypeError)
    case Some(Element(Some(t))) =>
      match ParseDecimal(t)
      case Some(v) => Ok(v)
      case None => Raised(ValueError)
  }

  /** The header values shared by every row of the invoice. */
  function ReadHeader(info: InfNFe): Result<Header>
  {
    var number := TextOrDefault(info.nNF, Unknown);
    var series := TextOrDefault(info.serie, Unknown);
    var supplier := TextOrDefault(info.xNome, Unknown);
    var total :- ReadTotal(info.vProd);
    var nature := TextOrDefault(info.natOp, Unknown);
    Ok(Header(Show(number) + " - " + Show(series), supplier, total, nature))
  }

  /** `find(...).text or default` on a lookup that the source does not guard:
      a missing element raises `AttributeError`; no text or empty text gives
      the default. */
  function TextOr(node: Option<Element>, default: string): Result<string>
  {
    match node
    case None => Raised(AttributeError)
    case Some(Element(None)) => Ok(default)
    case Some(Element(Some(t))) => Ok(if t == "" then default else t)
  }

  /** `float(find(...).text or 0)`. */
  function ReadQuantity(node: Option<Element>): Result<real>
  {
    match node
    case None => Raised(AttributeError)
    case Some(Element(None)) => Ok(0.0)
    case Some(Element(Some(t))) =>
      if t == "" then Ok(0.0)
      else match ParseDecimal(t)
        case Some(v) => Ok(v)
        case None => Raised(ValueError)
  }

  /** Product, quantity and unit of a line item, read in that order. */
  function ReadItem(det: Det): Result<Item>
  {
    var product :- TextOr(det.xProd, UnknownProduct);
    var quantity :- ReadQuantity(det.qCom);
    var unit :- TextOr(det.uCom, DefaultUnit);
    Ok(Item(product, quantity, unit))
  }

  /** The lot's expiry: the repaired `dVal` text, or `NoExpiry` when `dVal`
      is absent (the source repairs that default too, which leaves it as it
      is: `NoExpiryKept`); `.split` on a text-less `dVal` raises
      `AttributeError`. */
  function ReadExpiry(node: Option<Element>): Result<string>
  {
    match node
    case None => Ok(NoExpiry)
    case Some(Element(None)) => Raised(AttributeError)
    case Some(Element(Some(t))) => Ok(NormalizeExpiry(t))
  }

  /** A `dVal` that can be read: absent, or present with text. */
  predicate ExpiryReadable(r: Rastro)
  {
    r.dVal.None? || r.dVal.value.text.Some?
  }

  /** The row for one lot of an item. */
  function LotRow(h: Header, date: string, item: Item, share: real, r: Rastro): Result<Row>
  {
    var expiry :- ReadExpiry(r.dVal);
    Ok(Row(date, h.invoice, h.supplier, item.product, share, item.unit,
           TextOrDefault(r.nLote, NoLot), Some(expiry), h.total, h.nature))
  }

  /** The row for an item without lots: the whole quantity, no lot, no expiry. */
  function UntrackedRow(h: Header, date: string, item: Item): Row
  {
    Row(date, h.invoice, h.supplier, item.product, item.quantity, item.unit,
        Some(NoLot), None, h.total, h.nature)
  }

  /** The rows of the given lots, in order; the first exception wins. */
  function LotRows(h: Header, date: string, item: Item, share: real, rastros: seq<Rastro>): Result<seq<Row>>
  {
    if rastros == [] then Ok([])
    else
      var init :- LotRows(h, date, item, share, rastros[..|rastros| - 1]);
      var last :- LotRow(h, date, item, share, rastros[|rastros| - 1]);
      Ok(init + [last])
  }

  /** The rows of one line item: one per lot, each with `quantity / K` for K
      lots, or a single untracked row when the item has no lots. */
  function ItemRows(h: Header, date: string, det: Det): Result<seq<Row>>
  {
    var item :- ReadItem(det);
    if |det.rastros| > 0 then
      LotRows(h, date, item, item.quantity / |det.rastros| as real, det.rastros)
    else
      Ok([UntrackedRow(h, date, item)])
  }

  /** The rows of the given line items, in order; the first exception wins. */
  function DocRows(h: Header, date: string, dets: seq<Det>): Result<seq<Row>>
  {
    if dets == [] then Ok([])
    else
      var init :- DocRows(h, date, dets[..|dets| - 1]);
      var last :- ItemRows(h, date, dets[|dets| - 1]);
      Ok(init + last)
  }

  /** `processar_nfe` on a parsed upload: `None` for a malformed document or
      one without an invoice node, otherwise the invoice's rows, or the
      exception that escapes. */
  function Extract(doc: Document, date: string): Result<Option<seq<Row>>>
  {
    match doc
    case Malformed => Ok(None)
    case NotAnInvoice => Ok(None)
    case Invoice(info) =>
      var h :- ReadHeader(info);
      var rows :- DocRows(h, date, info.dets);
      Ok(Some(rows))
  }

  /** Two computations run one after the other, results concatenated; the
      first exception wins. */
  function Then(a: Result<seq<Row>>, b: Result<seq<Row>>): Result<seq<Row>>
  {
    if a.Raised? then a else if b.Raised? then b else Ok(a.value + b.value)
  }

  /** `processar_nfe` as the source writes it: header lookups, then the rows
      appended to one list by a loop over the items and, for an item with
      lots, an inner loop over its lots. */
  method ProcessNfe(doc: Document, date: string) returns (result: Result<Option<seq<Row>>>)
    ensures result == Extract(doc, date)
  {
    if !doc.Invoice? {
      return Ok(None);
    }
    var info := doc.info;
    var header := ReadHeader(info);
    if header.Raised? {
      return Raised(header.exception);
    }
    var h := header.value;
    var dets := info.dets;
    var data: seq<Row> := [];
    var i := 0;
    while i < |dets|
      invariant 0 <= i <= |dets|
      invariant DocRows(h, date, dets[..i]) == Ok(data)
    {
      var det := dets[i];
      ghost var before := data;
      var fields := ReadItem(det);
      if fields.Raised? {
        ExtractStops(h, date, dets, i);
        return Raised(fields.exception);
      }
      var item := fields.value;
      var rastros := det.rastros;
      ghost var added: seq<Row>;
      if |rastros| > 0 {
        var share := item.quantity / |rastros| as real;
        var j := 0;
        added := [];
        while j < |rastros|
          invariant 0 <= j <= |rastros|
          invariant LotRows(h, date, item, share, rastros[..j]) == Ok(added)
          invariant data == before + added
        {
          var row := LotRow(h, date, item, share, rastros[j]);
          if row.Raised? {
            LotStops(h, date, item, share, rastros, j);
            ExtractStops(h, date, dets, i);
            return Raised(row.exception);
          }
          LotRowsSnoc(h, date, item, share, rastros, j);
          data := data + [row.value];
          added := added + [row.value];
          j := j + 1;
        }
        assert rastros[..j] == rastros;
      } else {
        data := data + [UntrackedRow(h, date, item)];
        added := [UntrackedRow(h, date, item)];
      }
      ItemRowsOf(h, date, det);
      DocRowsSnoc(h, date, dets, i, before, added);
      i := i + 1;
    }
    assert dets[..i] == dets;
    return Ok(Some(data));
  }

  /** The rows of a line item whose fields can be read. */
  lemma ItemRowsOf(h: Header, date: string, det: Det)
    requires ReadItem(det).Ok?
    ensures var item := ReadItem(det).value;
      ItemRows(h, date, det)
      == if |det.rastros| > 0 then LotRows(h, date, item, item.quantity / |det.rastros| as real, det.rastros)
         else Ok([UntrackedRow(h, date, item)])
  {
  }

  /** One more lot that succeeds adds its row at the end. */
  lemma LotRowsSnoc(h: Header, date: string, item: Item, share: real, rastros: seq<Rastro>, j: nat)
    requires j < |rastros| && LotRows(h, date, item, share, rastros[..j]).Ok?
    requires LotRow(h, date, item, share, rastros[j]).Ok?
    ensures LotRows(h, date, item, share, rastros[..j + 1])
            == Ok(LotRows(h, date, item, share, rastros[..j]).value + [LotRow(h, date, item, share, rastros[j]).value])
  {
    assert rastros[..j + 1][..j] == rastros[..j] && rastros[..j + 1][j] == rastros[j];
  }

  /** One more line item that succeeds adds its rows at the end. */
  lemma DocRowsSnoc(h: Header, date: string, dets: seq<Det>, i: nat, before: seq<Row>, added: seq<Row>)
    requires i < |dets| && DocRows(h, date, dets[..i]) == Ok(before) && ItemRows(h, date, dets[i]) == Ok(added)
    ensures DocRows(h, date, dets[..i + 1]) == Ok(before + added)
  {
    assert dets[..i + 1][..i] == dets[..i] && dets[..i + 1][i] == dets[i];
  }

  /** A lot that raises ends the item with that exception, whatever follows it. */
  lemma LotStops(h: Header, date: string, item: Item, share: real, rastros: seq<Rastro>, j: nat)
    requires j < |rastros| && LotRows(h, date, item, share, rastros[..j]).Ok?
    requires LotRow(h, date, item, share, rastros[j]).Raised?
    ensures LotRows(h, date, item, share, rastros).Raised?
    ensures LotRows(h, date, item, share, rastros).exception == LotRow(h, date, item, share, rastros[j]).exception
  {
    var upTo := rastros[..j + 1];
    assert LotRows(h, date, item, share, upTo).Raised? by {
      assert upTo[..|upTo| - 1] == rastros[..j] && upTo[|upTo| - 1] == rastros[j];
    }
    assert LotRows(h, date, item, share, rastros)
           == Then(LotRows(h, date, item, share, upTo), LotRows(h, date, item, share, rastros[j + 1..])) by {
      LotRowsAppend(h, date, item, share, upTo, rastros[j + 1..]);
      assert upTo + rastros[j + 1..] == rastros;
    }
  }

  /** An item that raises ends the document with that exception, whatever follows it. */
  lemma ExtractStops(h: Header, date: string, dets: seq<Det>, i: nat)
    requires i < |dets| && DocRows(h, date, dets[..i]).Ok? && ItemRows(h, date, dets[i]).Raised?
    ensures DocRows(h, date, dets) == ItemRows(h, date, dets[i])
  {
    var upTo := dets[..i + 1];
    assert DocRows(h, date, upTo) == ItemRows(h, date, dets[i]) by {
      assert upTo[..|upTo| - 1] == dets[..i] && upTo[|upTo| - 1] == dets[i];
    }
    assert DocRows(h, date, dets) == Then(DocRows(h, date, upTo), DocRows(h, date, dets[i + 1..])) by {
      DocRowsAppend(h, date, upTo, dets[i + 1..]);
      assert upTo + dets[i + 1..] == dets;
    }
  }

  /** Running the lots of `a` and then those of `b` is running the lots of
      `a + b`: rows stay in document order and the first exception wins. */
  lemma {:induction false} LotRowsAppend(h: Header, date: string, item: Item, share: real,
                                         a: seq<Rastro>, b: seq<Rastro>)
    ensures LotRows(h, date, item, share, a + b)
            == Then(LotRows(h, date, item, share, a), LotRows(h, date, item, share, b))
    decreases |b|
  {
    if b == [] {
      assert a + b == a;
      var first := LotRows(h, date, item, share, a);
      if first.Ok? {
        assert first.value + [] == first.value;
      }
    } else {
      var b' := b[..|b| - 1];
      assert (a + b)[..|a + b| - 1] == a + b' && (a + b)[|a + b| - 1] == b[|b| - 1];
      LotRowsAppend(h, date, item, share, a, b');
      var first, middle, last := LotRows(h, date, item, share, a), LotRows(h, date, item, share, b'), LotRow(h, date, item, share, b[|b| - 1]);
      if first.Ok? && middle.Ok? && last.Ok? {
        assert first.value + middle.value + [last.value] == first.value + (middle.value + [last.value]);
      }
    }
  }

  /** Running the items of `a` and then those of `b` is running the items of
      `a + b`: rows stay in document order and the first exception wins. */
  lemma {:induction false} DocRowsAppend(h: Header, date: string, a: seq<Det>, b: seq<Det>)
    ensures DocRows(h, date, a + b) == Then(DocRows(h, date, a), DocRows(h, date, b))
    decreases |b|
  {
    if b == [] {
      assert a + b == a;
      var first := DocRows(h, date, a);
      if first.Ok? {
        assert first.value + [] == first.value;
      }
    } else {
      var b' := b[..|b| - 1];
      assert (a + b)[..|a + b| - 1] == a + b' && (a + b)[|a + b| - 1] == b[|b| - 1];
      DocRowsAppend(h, date, a, b');
      var first, middle, last := DocRows(h, date, a), DocRows(h, date, b'), ItemRows(h, date, b[|b| - 1]);
      if first.Ok? && middle.Ok? && last.Ok? {
        assert first.value + middle.value + last.value == first.value + (middle.value + last.value);
      }
    }
  }

  /** The expiry a lot's row shows: the repaired `dVal` text, or `NoExpiry` when absent. */
  predicate ShowsExpiry(r: Rastro, expiry: Cell)
  {
    match r.dVal
    case None => expiry == Some(NoExpiry)
    case Some(Element(None)) => false
    case Some(Element(Some(t))) => expiry == Some(NormalizeExpiry(t))
  }

  /** The default expiry has no dash, so repairing it leaves it unchanged. */
  lemma NoExpiryKept()
    ensures NormalizeExpiry(NoExpiry) == NoExpiry
  {
    NoDashKept(NoExpiry);
  }

  /** A lot's row can be built exactly when its expiry is readable (a
      text-less `dVal` raises `AttributeError`); it then
      carries the lot number (`NoLot` when `nLote` is absent) and the
      repaired expiry. */
  lemma LotRowFields(h: Header, date: string, item: Item, share: real, r: Rastro)
    ensures LotRow(h, date, item, share, r).Ok? <==> ExpiryReadable(r)
    ensures r.dVal.Some? && r.dVal.value.text.None? ==> LotRow(h, date, item, share, r) == Raised(AttributeError)
    ensures ExpiryReadable(r) ==>
      var row := LotRow(h, date, item, share, r).value;
      && row.lot == TextOrDefault(r.nLote, NoLot)
      && (r.nLote.None? ==> row.lot == Some(NoLot))
      && ShowsExpiry(r, row.expiry)
      && row.quantity == share
  {
  }

  /** The rows of lots that all succeed: one per lot, row j built from lot j. */
  lemma {:induction false} LotRowsAt(h: Header, date: string, item: Item, share: real, rastros: seq<Rastro>)
    requires LotRows(h, date, item, share, rastros).Ok?
    ensures |LotRows(h, date, item, share, rastros).value| == |rastros|
    ensures forall j :: 0 <= j < |rastros| ==>
              LotRow(h, date, item, share, rastros[j]).Ok?
              && LotRows(h, date, item, share, rastros).value[j] == LotRow(h, date, item, share, rastros[j]).value
  {
    if rastros != [] {
      var init := rastros[..|rastros| - 1];
      LotRowsAt(h, date, item, share, init);
      forall j | 0 <= j < |init| ensures init[j] == rastros[j] {}
    }
  }

  /** The lots of an item produce rows exactly when every expiry is readable. */
  lemma {:induction false} LotRowsSucceed(h: Header, date: string, item: Item, share: real, rastros: seq<Rastro>)
    ensures LotRows(h, date, item, share, rastros).Ok?
            <==> forall j :: 0 <= j < |rastros| ==> ExpiryReadable(rastros[j])
  {
    if rastros != [] {
      var init := rastros[..|rastros| - 1];
      LotRowsSucceed(h, date, item, share, init);
      forall j | 0 <= j < |init| ensures init[j] == rastros[j] {}
    }
  }

  /** The rows of one line item. With K >= 1 lots: exactly K rows, in lot
      order, each with quantity / K, lot j's number and repaired expiry.
      Without lots: exactly one row with the whole quantity, lot `NoLot` and
      no expiry. Every row carries the item's product and unit. */
  lemma ItemRowsShape(h: Header, date: string, det: Det)
    requires ItemRows(h, date, det).Ok?
    ensures ReadItem(det).Ok?
    ensures var item, rows, k := ReadItem(det).value, ItemRows(h, date, det).value, |det.rastros|;
      && |rows| == (if k == 0 then 1 else k)
      && (forall j :: 0 <= j < |rows| ==> rows[j].product == item.product && rows[j].unit == item.unit)
      && (k == 0 ==> rows[0].quantity == item.quantity && rows[0].lot == Some(NoLot) && rows[0].expiry == None)
      && (forall j :: 0 <= j < k ==>
            && ExpiryReadable(det.rastros[j])
            && rows[j].quantity == item.quantity / k as real
            && rows[j].lot == TextOrDefault(det.rastros[j].nLote, NoLot)
            && ShowsExpiry(det.rastros[j], rows[j].expiry))
  {
    var item := ReadItem(det).value;
    var k := |det.rastros|;
    if k > 0 {
      var share := item.quantity / k as real;
      LotRowsAt(h, date, item, share, det.rastros);
      forall j | 0 <= j < k
        ensures ExpiryReadable(det.rastros[j])
        ensures ShowsExpiry(det.rastros[j], LotRow(h, date, item, share, det.rastros[j]).value.expiry)
      {
        LotRowFields(h, date, item, share, det.rastros[j]);
      }
    }
  }

  /** A line item produces rows exactly when its product, quantity and unit
      can be read and every lot's expiry is readable. */
  lemma ItemRowsSucceed(h: Header, date: string, det: Det)
    ensures ItemRows(h, date, det).Ok?
            <==> ReadItem(det).Ok? && forall j :: 0 <= j < |det.rastros| ==> ExpiryReadable(det.rastros[j])
  {
    if ReadItem(det).Ok? && |det.rastros| > 0 {
      var item := ReadItem(det).value;
      LotRowsSucceed(h, date, item, item.quantity / |det.rastros| as real, det.rastros);
    }
  }

  /** Reading a line item: a missing `xProd`, `qCom` or `uCom` element raises
      `AttributeError`, non-numeric quantity text `ValueError`; otherwise the
      item is read, empty product text giving `UnknownProduct`, empty
      quantity text 0 and empty unit text `DefaultUnit`. */
  lemma ReadItemDefaults(det: Det)
    ensures det.xProd.None? ==> ReadItem(det) == Raised(AttributeError)
    ensures det.xProd.Some? && det.qCom.None? ==> ReadItem(det) == Raised(AttributeError)
    ensures det.xProd.Some? && det.qCom.Some? && det.qCom.value.text.Some?
            && det.qCom.value.text.value != "" && ParseDecimal(det.qCom.value.text.value).None?
            ==> ReadItem(det) == Raised(ValueError)
    ensures det.xProd.Some? && ReadQuantity(det.qCom).Ok? && det.uCom.None?
            ==> ReadItem(det) == Raised(AttributeError)
    ensures det.xProd.Some? && det.qCom.Some? && det.uCom.Some?
            && (det.qCom.value.text in {None, Some("")} || ParseDecimal(det.qCom.value.text.value).Some?)
            ==> ReadItem(det).Ok?
    ensures ReadItem(det).Ok? ==>
      && det.xProd.Some? && det.qCom.Some? && det.uCom.Some?
      && (det.xProd.value.text in {None, Some("")} ==> ReadItem(det).value.product == UnknownProduct)
      && (det.qCom.value.text in {None, Some("")} ==> ReadItem(det).value.quantity == 0.0)
      && (det.uCom.value.text in {None, Some("")} ==> ReadItem(det).value.unit == DefaultUnit)
      && (det.xProd.value.text.Some? && det.xProd.value.text != Some("")
          ==> ReadItem(det).value.product == det.xProd.value.text.value)
      && (det.qCom.value.text.Some? && det.qCom.value.text != Some("")
          ==> ParseDecimal(det.qCom.value.text.value) == Some(ReadItem(det).value.quantity))
      && (det.uCom.value.text.Some? && det.uCom.value.text != Some("")
          ==> ReadItem(det).value.unit == det.uCom.value.text.value)
  {
  }

  /** Sum of the quantities of the given rows. */
  function TotalQuantity(rows: seq<Row>): real
  {
    if rows == [] then 0.0 else TotalQuantity(rows[..|rows| - 1]) + rows[|rows| - 1].quantity
  }

  lemma {:induction false} EqualShares(rows: seq<Row>, share: real)
    requires forall j :: 0 <= j < |rows| ==> rows[j].quantity == share
    ensures TotalQuantity(rows) == |rows| as real * share
  {
    if rows != [] {
      EqualShares(rows[..|rows| - 1], share);
    }
  }

  /** The rows of a line item together carry exactly the item's quantity. */
  lemma LotSharesSum(h: Header, date: string, det: Det)
    requires ItemRows(h, date, det).Ok?
    ensures ReadItem(det).Ok?
    ensures TotalQuantity(ItemRows(h, date, det).value) == ReadItem(det).value.quantity
  {
    var item := ReadItem(det).value;
    var rows, k := ItemRows(h, date, det).value, |det.rastros|;
    ItemRowsOf(h, date, det);
    if k == 0 {
      assert rows == [UntrackedRow(h, date, item)];
      assert rows[..0] == [];
    } else {
      LotRowsAt(h, date, item, item.quantity / k as real, det.rastros);
      SharesSumTo(rows, item.quantity, k);
    }
  }

  /** K equal shares of q add up to q. */
  lemma SharesSumTo(rows: seq<Row>, q: real, k: nat)
    requires k > 0 && |rows| == k
    requires forall j :: 0 <= j < k ==> rows[j].quantity == q / k as real
    ensures TotalQuantity(rows) == q
  {
    EqualShares(rows, q / k as real);
    assert k as real * (q / k as real) == q;
  }

  /** Rows a document yields: max(1, K) for each line item with K lots. */
  function ExpectedRows(dets: seq<Det>): nat
  {
    if dets == [] then 0
    else ExpectedRows(dets[..|dets| - 1]) + (if |dets[|dets| - 1].rastros| == 0 then 1 else |dets[|dets| - 1].rastros|)
  }

  /** Every row carries the processing date and the invoice's header values. */
  predicate CarriesHeader(h: Header, date: string, rows: seq<Row>)
  {
    forall j :: 0 <= j < |rows| ==>
      && rows[j].date == date && rows[j].invoice == h.invoice && rows[j].supplier == h.supplier
      && rows[j].total == h.total && rows[j].nature == h.nature
  }

  /** A document's rows number the sum over its line items of max(1, K). */
  lemma {:induction false} DocRowsCount(h: Header, date: string, dets: seq<Det>)
    requires DocRows(h, date, dets).Ok?
    ensures |DocRows(h, date, dets).value| == ExpectedRows(dets)
  {
    if dets != [] {
      DocRowsCount(h, date, dets[..|dets| - 1]);
      ItemRowsShape(h, date, dets[|dets| - 1]);
    }
  }

  /** All rows of one document share its header values and processing date. */
  lemma {:induction false} DocRowsCarryHeader(h: Header, date: string, dets: seq<Det>)
    requires DocRows(h, date, dets).Ok?
    ensures CarriesHeader(h, date, DocRows(h, date, dets).value)
  {
    if dets != [] {
      DocRowsCarryHeader(h, date, dets[..|dets| - 1]);
      var det := dets[|dets| - 1];
      var item := ReadItem(det).value;
      if |det.rastros| > 0 {
        LotRowsAt(h, date, item, item.quantity / |det.rastros| as real, det.rastros);
      }
    }
  }

  /** A document produces rows exactly when every one of its line items does. */
  lemma {:induction false} DocRowsSucceed(h: Header, date: string, dets: seq<Det>)
    ensures DocRows(h, date, dets).Ok? <==> forall i :: 0 <= i < |dets| ==> ItemRows(h, date, dets[i]).Ok?
  {
    if dets != [] {
      var init := dets[..|dets| - 1];
      DocRowsSucceed(h, date, init);
      forall i | 0 <= i < |init| ensures init[i] == dets[i] {}
    }
  }

  /** Header lookups: each missing node independently gives its default
      (`Unknown`, or 0 for the total); the invoice label is
      `number - series`; only the total can raise: `TypeError` when it has
      no text, `ValueError` when its text is not a number. */
  lemma HeaderDefaults(info: InfNFe)
    ensures ReadHeader(info).Ok?
            <==> info.vProd.None? || (info.vProd.value.text.Some? && ParseDecimal(info.vProd.value.text.value).Some?)
    ensures info.vProd.Some? && info.vProd.value.text.None? ==> ReadHeader(info) == Raised(TypeError)
    ensures info.vProd.Some? && info.vProd.value.text.Some? && ParseDecimal(info.vProd.value.text.value).None?
            ==> ReadHeader(info) == Raised(ValueError)
    ensures ReadHeader(info).Ok? ==>
      var number := if info.nNF.None? then "Desconhecido"
                    else if info.nNF.value.text.None? then "None" else info.nNF.value.text.value;
      var series := if info.serie.None? then "Desconhecido"
                    else if info.serie.value.text.None? then "None" else info.serie.value.text.value;
      ReadHeader(info).value.invoice == number + " - " + series
    ensures ReadHeader(info).Ok? ==>
      var h := ReadHeader(info).value;
      && (info.xNome.None? ==> h.supplier == Some(Unknown))
      && (info.xNome.Some? ==> h.supplier == info.xNome.value.text)
      && (info.natOp.None? ==> h.nature == Some(Unknown))
      && (info.natOp.Some? ==> h.nature == info.natOp.value.text)
      && (info.vProd.None? ==> h.total == 0.0)
      && (info.vProd.Some? ==> ParseDecimal(info.vProd.value.text.value) == Some(h.total))
  {
  }

  /** A document without an invoice node, or not well formed, yields `None`;
      an invoice never does. */
  lemma ExtractSkips(doc: Document, date: string)
    ensures Extract(doc, date) == Ok(None) <==> !doc.Invoice?
  {
  }
}
