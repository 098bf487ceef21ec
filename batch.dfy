/** `processar_arquivos_xml` up to the table: every upload is flattened in
    turn and the rows of the invoices are concatenated in upload order. */
module Batch {
  import opened Wrappers
  import opened NFe

  /** What flattening one upload gives: rows, `None` for a skipped upload,
      or the exception that escaped. */
  type Outcome = Result<Option<seq<Row>>>

  /** The rows an upload adds to the table: none when it was skipped. */
  function Contribution(found: Option<seq<Row>>): seq<Row>
  {
    match found
    case None => []
    case Some(rows) => rows
  }

  /** The table built from the uploads by a per-upload flattening `flatten`:
      rows in upload order, skipped uploads adding nothing; an exception
      escaping any upload ends the whole batch with it. */
  function Collect(docs: seq<Document>, flatten: Document -> Outcome): Result<seq<Row>>
  {
    if docs == [] then Ok([])
    else
      var init :- Collect(docs[..|docs| - 1], flatten);
      var found :- flatten(docs[|docs| - 1]);
      Ok(init + Contribution(found))
  }

  /** `processar_nfe` with the processing date fixed. */
  function ExtractOn(date: string): Document -> Outcome
  {
    doc => Extract(doc, date)
  }

  /** `processar_arquivos_xml` on parsed uploads, all processed on `date`. */
  function Aggregate(docs: seq<Document>, date: string): Result<seq<Row>>
  {
    Collect(docs, ExtractOn(date))
  }

  /** The loop of `processar_arquivos_xml`: each result that is a non-empty
      list of rows extends the table. */
  method ProcessBatch(docs: seq<Document>, date: string) returns (result: Result<seq<Row>>)
    ensures result == Aggregate(docs, date)
  {
    ghost var flatten := ExtractOn(date);
    var table: seq<Row> := [];
    var i := 0;
    while i < |docs|
      invariant 0 <= i <= |docs|
      invariant Collect(docs[..i], flatten) == Ok(table)
    {
      var found := ProcessNfe(docs[i], date);
      assert found == flatten(docs[i]);
      if found.Raised? {
        CollectStops(docs, i, flatten);
        return Raised(found.exception);
      }
      assert Collect(docs[..i + 1], flatten) == Ok(table + Contribution(found.value)) by {
        assert docs[..i + 1][..i] == docs[..i] && docs[..i + 1][i] == docs[i];
      }
      if found.value.Some? && found.value.value != [] {
        table := table + found.value.value;
      } else {
        assert table + Contribution(found.value) == table;
      }
      i := i + 1;
    }
    assert docs[..i] == docs;
    return Ok(table);
  }

  /** An upload whose flattening raises ends the batch with that exception. */
  lemma CollectStops(docs: seq<Document>, i: nat, flatten: Document -> Outcome)
    requires i < |docs| && Collect(docs[..i], flatten).Ok? && flatten(docs[i]).Raised?
    ensures Collect(docs, flatten) == Raised(flatten(docs[i]).exception)
  {
    var upTo := docs[..i + 1];
    assert Collect(upTo, flatten) == Raised(flatten(docs[i]).exception) by {
      assert upTo[..|upTo| - 1] == docs[..i] && upTo[|upTo| - 1] == docs[i];
    }
    assert Collect(docs, flatten) == Then(Collect(upTo, flatten), Collect(docs[i + 1..], flatten)) by {
      CollectAppend(upTo, docs[i + 1..], flatten);
      assert upTo + docs[i + 1..] == docs;
    }
  }

  /** The table of `a + b` is the table of `a` followed by the table of `b`:
      upload order is kept and the first exception wins. */
  lemma {:induction false} CollectAppend(a: seq<Document>, b: seq<Document>, flatten: Document -> Outcome)
    ensures Collect(a + b, flatten) == Then(Collect(a, flatten), Collect(b, flatten))
    decreases |b|
  {
    if b == [] {
      assert a + b == a;
      var first := Collect(a, flatten);
      if first.Ok? {
        assert first.value + [] == first.value;
      }
    } else {
      var b' := b[..|b| - 1];
      assert (a + b)[..|a + b| - 1] == a + b' && (a + b)[|a + b| - 1] == b[|b| - 1];
      CollectAppend(a, b', flatten);
      var first, middle, last := Collect(a, flatten), Collect(b', flatten), flatten(b[|b| - 1]);
      if first.Ok? && middle.Ok? && last.Ok? {
        var added := Contribution(last.value);
        assert first.value + middle.value + added == first.value + (middle.value + added);
      }
    }
  }

  /** The batch produces a table exactly when no upload raises. */
  lemma {:induction false} CollectSucceeds(docs: seq<Document>, flatten: Document -> Outcome)
    ensures Collect(docs, flatten).Ok? <==> forall i :: 0 <= i < |docs| ==> flatten(docs[i]).Ok?
  {
    if docs != [] {
      var init := docs[..|docs| - 1];
      CollectSucceeds(init, flatten);
      forall i | 0 <= i < |init| ensures init[i] == docs[i] {}
    }
  }

  /** The table of `a + b` is the table of `a` followed by the table of `b`:
      upload order is kept and the first exception wins. */
  lemma AggregateAppend(a: seq<Document>, b: seq<Document>, date: string)
    ensures Aggregate(a + b, date) == Then(Aggregate(a, date), Aggregate(b, date))
  {
    CollectAppend(a, b, ExtractOn(date));
  }

  /** One upload alone: its rows, nothing when it is skipped, or its exception. */
  lemma AggregateOne(doc: Document, date: string)
    ensures Aggregate([doc], date)
            == match Extract(doc, date)
               case Raised(e) => Raised(e)
               case Ok(found) => Ok(Contribution(found))
  {
    var flatten := ExtractOn(date);
    assert [doc][..0] == [] && [doc][0] == doc;
    assert flatten(doc) == Extract(doc, date);
    match Extract(doc, date)
    case Raised(e) =>
      assert Collect([doc], flatten) == Raised(e);
    case Ok(found) =>
      assert Collect([doc], flatten) == Ok([] + Contribution(found));
      assert [] + Contribution(found) == Contribution(found);
  }

  /** An upload that is not well formed or has no invoice node adds no rows
      and does not disturb the others, wherever it stands in the batch. */
  lemma SkippedAddsNothing(before: seq<Document>, doc: Document, after: seq<Document>, date: string)
    requires !doc.Invoice?
    ensures Aggregate(before + [doc] + after, date) == Then(Aggregate(before, date), Aggregate(after, date))
  {
    AggregateAppend(before + [doc], after, date);
    AggregateAppend(before, [doc], date);
    AggregateOne(doc, date);
    var first := Aggregate(before, date);
    if first.Ok? {
      assert first.value + [] == first.value;
    }
  }

  /** The batch produces a table exactly when no upload raises. */
  lemma AggregateSucceeds(docs: seq<Document>, date: string)
    ensures Aggregate(docs, date).Ok? <==> forall i :: 0 <= i < |docs| ==> Extract(docs[i], date).Ok?
  {
    CollectSucceeds(docs, ExtractOn(date));
    forall i | 0 <= i < |docs| ensures ExtractOn(date)(docs[i]) == Extract(docs[i], date) {}
  }

  /** No uploads, no rows. */
  lemma AggregateEmpty(date: string)
    ensures Aggregate([], date) == Ok([])
  {
  }
}
