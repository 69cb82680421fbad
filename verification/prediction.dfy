/** Preparing the collected rows for inference: one row per sentence, cut
    into batches, labelled by a classifier, and written header first. */
module Prediction {
  import opened Common
  import opened Sentences
  import opened RecordStore

  // ---------------------------------------------------------------------
  // Explode and filter
  // ---------------------------------------------------------------------

  /** A row of the frame after `explode('Sentences')`: the record, and one
      sentence of it, or nothing (NaN) when its list was empty. */
  datatype Exploded = Exploded(record: Row, sentence: Option<string>)

  /** A row that survives the `str.len() > 0` filter. */
  datatype SentenceRow = SentenceRow(record: Row, sentence: string)

  /** The exploded rows of one record whose sentence list is `ss`. */
  function ExplodeList(r: Row, ss: seq<string>): (es: seq<Exploded>)
    ensures |es| == |ss|
    ensures forall k :: 0 <= k < |es| ==> es[k] == Exploded(r, Some(ss[k]))
  {
    if |ss| == 0 then [] else [Exploded(r, Some(ss[0]))] + ExplodeList(r, ss[1..])
  }

  /** `explode` of one record: an empty list still gives one row, with no
      sentence. Every row it gives belongs to the record and carries one of
      the record's sentences or none. */
  function ExplodeRecord(r: Row): (es: seq<Exploded>)
    ensures |es| > 0
    ensures forall k :: 0 <= k < |es| ==> es[k].record == r
    ensures forall k :: 0 <= k < |es| && es[k].sentence.Some? ==> es[k].sentence.value in SplitIntoSentences(r.body)
  {
    var ss := SplitIntoSentences(r.body);
    if |ss| == 0 then [Exploded(r, None)] else ExplodeList(r, ss)
  }

  /** `df.explode('Sentences')`, in record order: every row belongs to one
      of the records. */
  function Explode(records: seq<Row>): (es: seq<Exploded>)
    ensures |es| >= |records|
    ensures forall k :: 0 <= k < |es| ==> es[k].record in records
  {
    if |records| == 0 then [] else ExplodeRecord(records[0]) + Explode(records[1..])
  }

  /** No record is lost: each has at least one exploded row. */
  lemma {:induction false} ExplodeKeepsEveryRecord(records: seq<Row>, r: Row)
    requires r in records
    ensures exists k :: 0 <= k < |Explode(records)| && Explode(records)[k].record == r
    decreases |records|
  {
    var head, tail := ExplodeRecord(records[0]), Explode(records[1..]);
    assert Explode(records) == head + tail;
    var i := 0;
    if records[0] != r {
      assert r in records[1..];
      ExplodeKeepsEveryRecord(records[1..], r);
      var k :| 0 <= k < |tail| && tail[k].record == r;
      i := |head| + k;
    }
    assert (head + tail)[i].record == r;
  }

  /** `df[df['Sentences'].str.len() > 0]`: the length of NaN compares false,
      so rows without a sentence go, and so would an empty sentence. */
  function KeepSentences(es: seq<Exploded>): (rs: seq<SentenceRow>)
    ensures |rs| <= |es|
  {
    if |es| == 0 then []
    else
      var rest := KeepSentences(es[1..]);
      match es[0].sentence
      case Some(s) => if |s| > 0 then [SentenceRow(es[0].record, s)] + rest else rest
      case None => rest
  }

  /** The frame after explode and filter: each record's sentences, record
      by record. */
  function SentenceRows(records: seq<Row>): (rs: seq<SentenceRow>)
    ensures rs == PerRecord(records)
  {
    KeptIsPerRecord(records);
    KeepSentences(Explode(records))
  }

  /** Reference: the rows of one record are its sentences, in order, each
      paired with the record. */
  function RowsOf(r: Row, ss: seq<string>): (rs: seq<SentenceRow>)
    ensures |rs| == |ss|
    ensures forall k :: 0 <= k < |rs| ==> rs[k] == SentenceRow(r, ss[k])
  {
    if |ss| == 0 then [] else [SentenceRow(r, ss[0])] + RowsOf(r, ss[1..])
  }

  /** Reference: every record's sentences, record by record. */
  function PerRecord(records: seq<Row>): seq<SentenceRow> {
    if |records| == 0 then []
    else RowsOf(records[0], SplitIntoSentences(records[0].body)) + PerRecord(records[1..])
  }

  lemma {:induction false} KeepSentencesAppend(a: seq<Exploded>, b: seq<Exploded>)
    ensures KeepSentences(a + b) == KeepSentences(a) + KeepSentences(b)
    decreases |a|
  {
    if |a| == 0 {
      assert a + b == b;
    } else {
      assert (a + b)[1..] == a[1..] + b;
      KeepSentencesAppend(a[1..], b);
    }
  }

  /** A list of non-empty sentences loses nothing to the filter. */
  lemma {:induction false} KeepSentencesOfList(r: Row, ss: seq<string>)
    requires forall k :: 0 <= k < |ss| ==> |ss[k]| > 0
    ensures KeepSentences(ExplodeList(r, ss)) == RowsOf(r, ss)
    decreases |ss|
  {
    if |ss| > 0 {
      var es := ExplodeList(r, ss);
      assert es[1..] == ExplodeList(r, ss[1..]);
      KeepSentencesOfList(r, ss[1..]);
    }
  }

  /** One record contributes exactly one row per sentence of its split, in
      order; a record without a qualifying sentence contributes none. */
  lemma RecordContributesItsSentences(r: Row)
    ensures KeepSentences(ExplodeRecord(r)) == RowsOf(r, SplitIntoSentences(r.body))
  {
    var ss := SplitIntoSentences(r.body);
    if |ss| > 0 {
      KeepSentencesOfList(r, ss);
    }
  }

  /** Explode followed by the filter is the record-by-record list of
      sentences. */
  lemma {:induction false} KeptIsPerRecord(records: seq<Row>)
    ensures KeepSentences(Explode(records)) == PerRecord(records)
    decreases |records|
  {
    if |records| > 0 {
      KeepSentencesAppend(ExplodeRecord(records[0]), Explode(records[1..]));
      RecordContributesItsSentences(records[0]);
      KeptIsPerRecord(records[1..]);
    }
  }

  lemma {:induction false} PerRecordAppend(a: seq<Row>, b: seq<Row>)
    ensures PerRecord(a + b) == PerRecord(a) + PerRecord(b)
    decreases |a|
  {
    if |a| == 0 {
      assert a + b == b;
    } else {
      var here := RowsOf(a[0], SplitIntoSentences(a[0].body));
      assert (a + b)[0] == a[0];
      assert (a + b)[1..] == a[1..] + b;
      PerRecordAppend(a[1..], b);
      assert PerRecord(a + b) == here + (PerRecord(a[1..]) + PerRecord(b));
      assert here + (PerRecord(a[1..]) + PerRecord(b)) == (here + PerRecord(a[1..])) + PerRecord(b);
    }
  }

  /** Every surviving row carries a sentence of its own record's body, longer
      than 50 characters. */
  lemma {:induction false} SentenceRowsFromOwnBody(records: seq<Row>, sr: SentenceRow)
    requires sr in SentenceRows(records)
    ensures sr.record in records
    ensures sr.sentence in SplitIntoSentences(sr.record.body)
    ensures |sr.sentence| > MinSentenceLength
    decreases |records|
  {
    var here := RowsOf(records[0], SplitIntoSentences(records[0].body));
    if sr in here {
      var k :| 0 <= k < |here| && here[k] == sr;
      assert sr.sentence == SplitIntoSentences(records[0].body)[k];
    } else {
      SentenceRowsFromOwnBody(records[1..], sr);
    }
  }

  // ---------------------------------------------------------------------
  // Batches
  // ---------------------------------------------------------------------

  /** `batch_size`. */
  const BatchSize: nat := 100000

  /** `len(df) // batch_size + (len(df) % batch_size != 0)`: no batches for
      no rows, and never more batches than rows. */
  function NumBatches(n: nat, bs: nat): (nb: nat)
    requires bs > 0
    ensures nb == 0 <==> n == 0
    ensures nb <= n
  {
    QuotientBound(n, bs);
    n / bs + (if n % bs != 0 then 1 else 0)
  }

  /** The quotient is at most what the remainder leaves of `n`. */
  lemma QuotientBound(n: nat, bs: nat)
    requires bs > 0
    ensures n / bs + n % bs <= n
  {
    MulMonotone(1, bs, n / bs);
  }

  /** `NumBatches` is the ceiling of `n / bs`: the batches reach every row,
      the last one starts before the end, and there are none for no rows. */
  lemma NumBatchesIsCeiling(n: nat, bs: nat)
    requires bs > 0
    ensures var nb := NumBatches(n, bs);
            && n <= nb * bs
            && (nb > 0 ==> (nb - 1) * bs < n)
            && (nb == 0 <==> n == 0)
  {
    var q, r := n / bs, n % bs;
    assert n == q * bs + r;
    if r != 0 {
      assert (q + 1) * bs == q * bs + bs;
    } else if q > 0 {
      assert (q - 1) * bs == q * bs - bs;
    }
  }

  function Min(a: int, b: int): int {
    if a <= b then a else b
  }

  /** `df.iloc[start:end]` with `start = i * bs` and `end = start + bs`: the
      slice is clipped to the frame. */
  function Batch<T>(rows: seq<T>, i: nat, bs: nat): (b: seq<T>)
    requires bs > 0
    ensures |b| <= bs
    ensures i < NumBatches(|rows|, bs) ==> |b| > 0
  {
    BatchStartsInside(|rows|, bs, i);
    rows[Min(i * bs, |rows|)..Min(i * bs + bs, |rows|)]
  }

  /** Every batch counted by `NumBatches` starts inside the frame. */
  lemma BatchStartsInside(n: nat, bs: nat, i: nat)
    requires bs > 0
    ensures i < NumBatches(n, bs) ==> i * bs < n
  {
    NumBatchesIsCeiling(n, bs);
    var nb := NumBatches(n, bs);
    if i < nb {
      MulMonotone(i, nb - 1, bs);
    }
  }

  lemma MulMonotone(a: nat, b: nat, c: nat)
    requires a <= b
    ensures a * c <= b * c
  {
  }

  /** The first `i` batches, one after another, are the first
      `min(i * bs, n)` rows. */
  lemma {:induction false} BatchesPrefix<T>(rows: seq<T>, bs: nat, i: nat)
    requires bs > 0
    ensures Batches(rows, bs, i) == rows[..Min(i * bs, |rows|)]
  {
    if i > 0 {
      BatchesPrefix(rows, bs, i - 1);
      var start := (i - 1) * bs;
      assert start + bs == i * bs;
      PrefixThenSlice(rows, Min(start, |rows|), Min(start + bs, |rows|));
    }
  }

  lemma PrefixThenSlice<T>(s: seq<T>, a: nat, b: nat)
    requires a <= b <= |s|
    ensures s[..a] + s[a..b] == s[..b]
  {
  }

  /** Batches `0 .. i - 1`, concatenated. */
  function Batches<T>(rows: seq<T>, bs: nat, i: nat): seq<T>
    requires bs > 0
  {
    if i == 0 then [] else Batches(rows, bs, i - 1) + Batch(rows, i - 1, bs)
  }

  /** The batches cover every row exactly once, in order. */
  lemma BatchesCoverRows<T>(rows: seq<T>, bs: nat)
    requires bs > 0
    ensures Batches(rows, bs, NumBatches(|rows|, bs)) == rows
  {
    NumBatchesIsCeiling(|rows|, bs);
    BatchesPrefix(rows, bs, NumBatches(|rows|, bs));
  }

  /** Two different batches never share a row position: in a frame of `n`
      rows, the clipped end of batch `i` is at or before the clipped start of
      any later batch `j`. */
  lemma BatchesDisjoint(n: nat, bs: nat, i: nat, j: nat)
    requires bs > 0 && i < j
    ensures i * bs + bs <= j * bs
    ensures Min(i * bs + bs, n) <= Min(j * bs, n)
  {
    MulMonotone(i + 1, j, bs);
  }

  // ---------------------------------------------------------------------
  // Labels and the output file
  // ---------------------------------------------------------------------

  /** `label_map`; a label outside it maps to NaN. */
  function LabelText(code: int): (t: Option<string>)
    ensures t.Some? <==> 0 <= code < 8
  {
    match code
    case 0 => Some("Suicidal planning")
    case 1 => Some("Previous attempt")
    case 2 => Some("Ability to hope for change")
    case 3 => Some("Consumption")
    case 4 => Some("Ability to control oneself")
    case 5 => Some("Presence of a loved one")
    case 6 => Some("Ability to take care of oneself")
    case 7 => Some("Other")
    case _ => None
  }

  /** Distinct codes have distinct label texts, so the Label Text column
      determines the Label column. */
  lemma LabelTextInjective(a: int, b: int)
    requires LabelText(a).Some? && LabelText(a) == LabelText(b)
    ensures a == b
  {
  }

  /** The classifier, `model([x]).item()`. */
  type Classifier = string -> int

  /** A written row: the record's columns, its sentence, the label and the
      label's text. */
  datatype OutRow = OutRow(record: Row, sentence: string, code: int, labelText: Option<string>)

  /** A line of the output CSV file: the header names the columns. */
  datatype Line = HeaderLine(columns: seq<string>) | DataLine(row: OutRow)

  /** The output columns: the input's nine, then the three added ones. */
  const OutHeader: seq<string> := Header + ["Sentences", "Label", "Label Text"]

  /** The cells `to_csv` writes for a data line, one under each header
      column: the record's nine cells, the sentence, the label, and the label
      text (empty for NaN). */
  function OutCells(o: OutRow): (c: seq<string>)
    ensures |c| == |OutHeader|
    ensures c[..|Header|] == Cells(o.record)
    ensures c[|Header|] == o.sentence
  {
    Cells(o.record) + [o.sentence, IntToDecimal(o.code), o.labelText.GetOr("")]
  }

  function Label(sr: SentenceRow, classify: Classifier): OutRow {
    var l := classify(sr.sentence);
    OutRow(sr.record, sr.sentence, l, LabelText(l))
  }

  /** The data lines for some sentence rows, one per row, in order. */
  function Labelled(rows: seq<SentenceRow>, classify: Classifier): (ls: seq<Line>)
    ensures |ls| == |rows|
  {
    if |rows| == 0 then [] else [DataLine(Label(rows[0], classify))] + Labelled(rows[1..], classify)
  }

  /** Line `k` is the labelled row `k`. */
  lemma {:induction false} LabelledLines(rows: seq<SentenceRow>, classify: Classifier, k: nat)
    requires k < |rows|
    ensures Labelled(rows, classify)[k] == DataLine(Label(rows[k], classify))
    decreases |rows|
  {
    if k > 0 {
      LabelledLines(rows[1..], classify, k - 1);
    }
  }

  lemma {:induction false} LabelledAppend(a: seq<SentenceRow>, b: seq<SentenceRow>, classify: Classifier)
    ensures Labelled(a + b, classify) == Labelled(a, classify) + Labelled(b, classify)
    decreases |a|
  {
    if |a| == 0 {
      assert a + b == b;
    } else {
      assert (a + b)[1..] == a[1..] + b;
      LabelledAppend(a[1..], b, classify);
    }
  }

  /** Writing batch `i` extends the file of the first `i` batches to the
      file of the first `i + 1`: the header comes with batch 0 only. */
  lemma WriteNextBatch(rows: seq<SentenceRow>, bs: nat, i: nat, classify: Classifier)
    requires bs > 0
    ensures var lines := Labelled(Batch(rows, i, bs), classify);
            var next := [HeaderLine(OutHeader)] + Labelled(Batches(rows, bs, i + 1), classify);
            && (i == 0 ==> [HeaderLine(OutHeader)] + lines == next)
            && (i > 0 ==> ([HeaderLine(OutHeader)] + Labelled(Batches(rows, bs, i), classify)) + lines == next)
  {
    LabelledAppend(Batches(rows, bs, i), Batch(rows, i, bs), classify);
    if i == 0 {
      assert Batches(rows, bs, 0) + Batch(rows, 0, bs) == Batch(rows, 0, bs);
    }
  }

  /** The batch loop of `process_dataframe`. The first batch overwrites the
      file with the header, later batches append without one, and no rows
      leave the file as it was (`None` when it does not exist). Whatever the
      batch size, the file ends as the header followed by one labelled line
      per row. */
  method WriteBatches(file: Option<seq<Line>>, rows: seq<SentenceRow>, bs: nat, classify: Classifier)
    returns (out: Option<seq<Line>>)
    requires bs > 0
    ensures |rows| == 0 ==> out == file
    ensures |rows| > 0 ==> out == Some([HeaderLine(OutHeader)] + Labelled(rows, classify))
  {
    var nb := NumBatches(|rows|, bs);
    out := file;
    var i := 0;
    while i < nb
      invariant 0 <= i <= nb
      invariant i == 0 ==> out == file
      invariant i > 0 ==> out == Some([HeaderLine(OutHeader)] + Labelled(Batches(rows, bs, i), classify))
    {
      var lines := Labelled(Batch(rows, i, bs), classify);
      WriteNextBatch(rows, bs, i, classify);
      if i == 0 {
        out := Some([HeaderLine(OutHeader)] + lines);
      } else {
        out := Some(out.value + lines);
      }
      i := i + 1;
    }
    NumBatchesIsCeiling(|rows|, bs);
    BatchesCoverRows(rows, bs);
  }

  /** `process_dataframe`: explode, filter, and write in batches of
      `batch_size`. The output is the header and one labelled line per
      sentence, record by record; with no sentence at all nothing is
      written. */
  method ProcessDataframe(file: Option<seq<Line>>, records: seq<Row>, classify: Classifier)
    returns (out: Option<seq<Line>>)
    ensures PerRecord(records) == [] ==> out == file
    ensures PerRecord(records) != [] ==> out == Some([HeaderLine(OutHeader)] + Labelled(PerRecord(records), classify))
  {
    var rows := SentenceRows(records);
    out := WriteBatches(file, rows, BatchSize, classify);
  }

  /** With rows, the output has exactly one header line, first, and one data
      line per row. */
  lemma OneHeader(rows: seq<SentenceRow>, classify: Classifier)
    ensures var f := [HeaderLine(OutHeader)] + Labelled(rows, classify);
            && |f| == |rows| + 1
            && f[0] == HeaderLine(OutHeader)
            && forall k :: 1 <= k < |f| ==> f[k] == DataLine(Label(rows[k - 1], classify))
  {
    var f := [HeaderLine(OutHeader)] + Labelled(rows, classify);
    forall k | 1 <= k < |f| ensures f[k] == DataLine(Label(rows[k - 1], classify)) {
      LabelledLines(rows, classify, k - 1);
    }
  }
}
