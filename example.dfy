/** A worked line item: ten boxes split over two lots, each lot row with
    half the quantity and its repaired expiry date. */
module Sample {
  import opened Wrappers
  import opened Text
  import opened Expiry
  import opened NFe

  /** A line item of 10 boxes split over two lots, one with a full expiry
      date and one with only a year and month. */
  function SampleItem(): Det
  {
    Det(Some(Element(Some("Dipirona"))), Some(Element(Some("10"))), Some(Element(Some("CX"))),
        [Rastro(Some(Element(Some("L1"))), Some(Element(Some("2025" + "-" + "01" + "-" + "15")))),
         Rastro(Some(Element(Some("L2"))), Some(Element(Some("2025" + "-" + "01"))))])
  }

  lemma TenReads()
    ensures ParseDecimal("10") == Some(10.0)
  {
    ParseDecimalOfNat(10);
    assert NatToString(10) == "10" by {
      assert NatToString(1) == "1";
    }
  }

  lemma SampleFields()
    ensures ReadItem(SampleItem()) == Ok(Item("Dipirona", 10.0, "CX"))
  {
    TenReads();
  }

  lemma SampleLots(h: Header, date: string)
    ensures var item, rs := Item("Dipirona", 10.0, "CX"), SampleItem().rastros;
      && LotRow(h, date, item, 5.0, rs[0])
         == Ok(Row(date, h.invoice, h.supplier, "Dipirona", 5.0, "CX", Some("L1"), Some("15" + "/" + "01" + "/" + "2025"), h.total, h.nature))
      && LotRow(h, date, item, 5.0, rs[1])
         == Ok(Row(date, h.invoice, h.supplier, "Dipirona", 5.0, "CX", Some("L2"), Some("31" + "/" + "01" + "/" + "2025"), h.total, h.nature))
  {
    DayMonthYear("2025", "01", "15");
    JanuaryExample();
  }

  /** An item with two readable lots yields their two rows, each with half the quantity. */
  lemma TwoLots(h: Header, date: string, det: Det, share: real)
    requires ReadItem(det).Ok? && |det.rastros| == 2
    requires share == ReadItem(det).value.quantity / 2.0
    requires LotRow(h, date, ReadItem(det).value, share, det.rastros[0]).Ok?
    requires LotRow(h, date, ReadItem(det).value, share, det.rastros[1]).Ok?
    ensures var item, rs := ReadItem(det).value, det.rastros;
      ItemRows(h, date, det)
      == Ok([LotRow(h, date, item, share, rs[0]).value, LotRow(h, date, item, share, rs[1]).value])
  {
    var item, rs := ReadItem(det).value, det.rastros;
    var first, second := LotRow(h, date, item, share, rs[0]).value, LotRow(h, date, item, share, rs[1]).value;
    assert LotRows(h, date, item, share, rs[..0]) == Ok([]) by { assert rs[..0] == []; }
    LotRowsSnoc(h, date, item, share, rs, 0);
    assert [] + [first] == [first];
    LotRowsSnoc(h, date, item, share, rs, 1);
    assert [first] + [second] == [first, second];
    assert rs[..2] == rs;
    ItemRowsOf(h, date, det);
  }

  /** The item yields two rows of 5 each, in lot order, with expiries
      `15/01/2025` and `31/01/2025` (the last day of January). */
  lemma TwoLotsExample(h: Header, date: string)
    ensures ItemRows(h, date, SampleItem())
      == Ok([Row(date, h.invoice, h.supplier, "Dipirona", 5.0, "CX", Some("L1"), Some("15" + "/" + "01" + "/" + "2025"), h.total, h.nature),
             Row(date, h.invoice, h.supplier, "Dipirona", 5.0, "CX", Some("L2"), Some("31" + "/" + "01" + "/" + "2025"), h.total, h.nature)])
  {
    SampleFields();
    SampleLots(h, date);
    var item, rs := Item("Dipirona", 10.0, "CX"), SampleItem().rastros;
    assert 10.0 / 2.0 == 5.0;
    TwoLots(h, date, SampleItem(), 5.0);
    assert ItemRows(h, date, SampleItem()) == Ok([LotRow(h, date, item, 5.0, rs[0]).value, LotRow(h, date, item, 5.0, rs[1]).value]);
  }
}
