/** The collector's CSV output: the nine-column header, the cells of one
    row, and the set of ids read back from it at start-up. CSV quoting is
    not modelled: a row is written and read back as its list of cells. */
module RecordStore {
  import opened Common

  datatype Kind = Post | Comment

  /** One collected post or comment, column by column. */
  datatype Row = Row(
    kind: Kind,
    id: string,
    author: string,
    title: string,
    body: string,
    subreddit: string,
    score: int,
    link: string,
    created: string)

  const Header: seq<string> :=
    ["Type", "ID", "Author", "Title", "Body or Selftext", "Subreddit", "Score", "URL", "Created Date"]

  /** The file as `csv.reader` gives it back: one list of cells per line. */
  type Store = seq<seq<string>>

  function KindName(k: Kind): string {
    match k
    case Post => "Post"
    case Comment => "Comment"
  }

  function DigitChar(d: nat): char
    requires d < 10
  {
    ('0' as int + d) as char
  }

  /** The decimal digits of `n`, most significant first, without leading
      zeros. */
  function NatToDecimal(n: nat): (r: string)
    ensures |r| > 0
    decreases n
  {
    if n < 10 then [DigitChar(n)] else NatToDecimal(n / 10) + [DigitChar(n % 10)]
  }

  /** `str(score)`. */
  function IntToDecimal(i: int): string {
    if i < 0 then "-" + NatToDecimal(-i) else NatToDecimal(i)
  }

  predicate IsDigit(c: char) {
    '0' as int <= c as int <= '9' as int
  }

  function DigitValue(c: char): nat
    requires IsDigit(c)
  {
    c as int - '0' as int
  }

  /** The number a string of decimal digits stands for, as `pd.read_csv`
      reads the Score column back. */
  function DecimalValue(s: string): nat
    requires forall k :: 0 <= k < |s| ==> IsDigit(s[k])
    decreases |s|
  {
    if |s| == 0 then 0
    else DecimalValue(s[..|s| - 1]) * 10 + DigitValue(s[|s| - 1])
  }

  /** The same for a cell that may start with a minus sign. */
  function IntValue(s: string): int
    requires |s| > 0
    requires forall k :: 1 <= k < |s| ==> IsDigit(s[k])
    requires s[0] == '-' || IsDigit(s[0])
  {
    if s[0] == '-' then -(DecimalValue(s[1..]) as int) else DecimalValue(s)
  }

  /** The digits written for a number read back as that number, and only
      zero is written with a leading `0`. */
  lemma {:induction false} NatToDecimalRoundTrip(n: nat)
    ensures forall k :: 0 <= k < |NatToDecimal(n)| ==> IsDigit(NatToDecimal(n)[k])
    ensures DecimalValue(NatToDecimal(n)) == n
    ensures NatToDecimal(n)[0] == '0' <==> n == 0
    decreases n
  {
    var s := NatToDecimal(n);
    if n >= 10 {
      NatToDecimalRoundTrip(n / 10);
      assert s[..|s| - 1] == NatToDecimal(n / 10);
      assert s[0] == NatToDecimal(n / 10)[0];
    }
  }

  /** The Score cell of a row reads back as its score. */
  lemma IntToDecimalRoundTrip(i: int)
    ensures var s := IntToDecimal(i);
            && |s| > 0
            && (forall k :: 1 <= k < |s| ==> IsDigit(s[k]))
            && (s[0] == '-' || IsDigit(s[0]))
            && IntValue(s) == i
  {
    if i < 0 {
      NatToDecimalRoundTrip(-i);
      assert IntToDecimal(i)[1..] == NatToDecimal(-i);
    } else {
      NatToDecimalRoundTrip(i);
    }
  }

  /** The cells `writer.writerow` writes for a row: one per header column,
      with the id in the column `existing_ids` is read from. */
  function Cells(r: Row): (c: seq<string>)
    ensures |c| == |Header|
    ensures c[0] == KindName(r.kind) && c[1] == r.id && c[2] == r.author
  {
    [KindName(r.kind), r.id, r.author, r.title, r.body, r.subreddit,
     IntToDecimal(r.score), r.link, r.created]
  }

  function CellsOf(rows: seq<Row>): (s: Store)
    ensures |s| == |rows|
    ensures forall k :: 0 <= k < |s| ==> s[k] == Cells(rows[k])
  {
    if |rows| == 0 then [] else [Cells(rows[0])] + CellsOf(rows[1..])
  }

  /** The ids of some rows. */
  function Ids(rows: seq<Row>): set<string> {
    set r | r in rows :: r.id
  }

  /** `{row[1] for row in reader}`: `None` stands for the `IndexError`
      raised by a line with fewer than two cells. */
  function IdColumn(lines: Store): (r: Option<set<string>>)
    ensures r.Some? <==> forall k :: 0 <= k < |lines| ==> |lines[k]| >= 2
  {
    if forall k :: 0 <= k < |lines| ==> |lines[k]| >= 2 then
      Some(set line | line in lines && |line| >= 2 :: line[1])
    else
      None
  }

  /** The ids already in the file: the first line is skipped as the header
      (`next(reader, None)`), an empty file gives no ids. */
  function ExistingIds(store: Store): (r: Option<set<string>>)
    ensures |store| == 0 ==> r == Some({})
    ensures |store| > 0 ==> (r.Some? <==> IdColumn(store[1..]).Some?)
  {
    if |store| == 0 then Some({}) else IdColumn(store[1..])
  }

  /** Reading the ids fails exactly when a line after the first has fewer
      than two cells; otherwise the ID cell of every such line is read. */
  lemma ExistingIdsReadsLines(store: Store)
    ensures |store| > 0 ==> (ExistingIds(store).Some? <==> forall k :: 1 <= k < |store| ==> |store[k]| >= 2)
    ensures ExistingIds(store).Some? ==> forall k :: 1 <= k < |store| ==> store[k][1] in ExistingIds(store).value
  {
    if |store| > 0 {
      var lines := store[1..];
      assert forall k :: 1 <= k < |store| ==> store[k] == lines[k - 1];
      if ExistingIds(store).Some? {
        forall k | 1 <= k < |store| ensures store[k][1] in ExistingIds(store).value {
          assert lines[k - 1] in lines;
        }
      }
    }
  }

  /** Every id read from the file is the ID cell of a line after the first. */
  lemma ExistingIdsComeFromLines(store: Store, x: string)
    requires ExistingIds(store).Some? && x in ExistingIds(store).value
    ensures exists k :: 1 <= k < |store| && |store[k]| >= 2 && store[k][1] == x
  {
    var lines := store[1..];
    var line :| line in lines && |line| >= 2 && line[1] == x;
    var k :| 0 <= k < |lines| && lines[k] == line;
    assert store[k + 1] == line;
  }

  /** The file once `main` has opened it, and the ids read from it. */
  datatype Opened = Opened(store: Store, existing: set<string>)

  /** `main` before collecting: a missing file is created holding the header
      and gives no ids; an existing file is read as it is. */
  function OpenStore(file: Option<Store>): (r: Option<Opened>)
    ensures file.None? ==> r == Some(Opened([Header], {}))
    ensures file.Some? ==> (r.Some? <==> ExistingIds(file.value).Some?)
    ensures r.Some? && file.Some? ==> r.value.store == file.value
    ensures r.Some? && file.Some? ==> r.value.existing == ExistingIds(file.value).value
  {
    match file
    case None => Some(Opened([Header], {}))
    case Some(store) =>
      match ExistingIds(store)
      case None => None
      case Some(ids) => Some(Opened(store, ids))
  }

  /** A file holding only the header has no ids. */
  lemma HeaderOnlyStoreHasNoIds()
    ensures ExistingIds([Header]) == Some({})
  {
    var none: Store := [];
    assert [Header][1..] == none;
    assert IdColumn(none).Some?;
    var ids := IdColumn(none).value;
    assert forall x :: x !in ids;
    assert ids == {};
    assert ExistingIds([Header]) == IdColumn(none);
  }

  // ---------------------------------------------------------------------
  // Reading back what was written
  // ---------------------------------------------------------------------

  lemma IdColumnAppend(a: Store, b: Store)
    ensures IdColumn(a + b) ==
            if IdColumn(a).Some? && IdColumn(b).Some? then Some(IdColumn(a).value + IdColumn(b).value)
            else None
  {
    if IdColumn(a).Some? && IdColumn(b).Some? {
      assert forall k :: 0 <= k < |a + b| ==> (a + b)[k] == if k < |a| then a[k] else b[k - |a|];
      var A, B, C := IdColumn(a).value, IdColumn(b).value, IdColumn(a + b).value;
      forall x | x in C ensures x in A + B {
        var line :| line in a + b && |line| >= 2 && line[1] == x;
        assert line in a || line in b;
      }
      forall x | x in A + B ensures x in C {
        if x in A {
          var line :| line in a && |line| >= 2 && line[1] == x;
          assert line in a + b;
        } else {
          var line :| line in b && |line| >= 2 && line[1] == x;
          assert line in a + b;
        }
      }
      assert C == A + B;
    } else if IdColumn(a).None? {
      var k :| 0 <= k < |a| && |a[k]| < 2;
      assert (a + b)[k] == a[k];
    } else {
      var k :| 0 <= k < |b| && |b[k]| < 2;
      assert (a + b)[|a| + k] == b[k];
    }
  }

  /** Written rows read back as their ids. */
  lemma IdColumnOfRows(rows: seq<Row>)
    ensures IdColumn(CellsOf(rows)) == Some(Ids(rows))
  {
    var lines := CellsOf(rows);
    assert IdColumn(lines).Some?;
    forall x | x in Ids(rows) ensures x in IdColumn(lines).value {
      var r :| r in rows && r.id == x;
      var k :| 0 <= k < |rows| && rows[k] == r;
      assert lines[k] in lines;
    }
    forall x | x in IdColumn(lines).value ensures x in Ids(rows) {
      var line :| line in lines && |line| >= 2 && line[1] == x;
      var k :| 0 <= k < |lines| && lines[k] == line;
      assert rows[k] in rows;
    }
    assert IdColumn(lines).value == Ids(rows);
  }

  /** After rows are appended to a file that starts with its header, the
      ids read back are the old ones plus the new rows' ids. */
  lemma AppendedIdsReadBack(store: Store, rows: seq<Row>)
    requires |store| > 0 && ExistingIds(store).Some?
    ensures ExistingIds(store + CellsOf(rows)) == Some(ExistingIds(store).value + Ids(rows))
  {
    var written := CellsOf(rows);
    TailOfAppend(store, written);
    IdColumnAppend(store[1..], written);
    IdColumnOfRows(rows);
  }

  lemma TailOfAppend(a: Store, b: Store)
    requires |a| > 0
    ensures (a + b)[1..] == a[1..] + b
  {
  }

  /** A file that exists but is empty gets no header, so the next run takes
      the first row appended to it for the header and loses its id. */
  lemma HeaderlessFileLosesFirstId(r: Row, rows: seq<Row>)
    ensures ExistingIds(CellsOf([r] + rows)) == Some(Ids(rows))
  {
    assert CellsOf([r] + rows)[1..] == CellsOf(rows);
    IdColumnOfRows(rows);
  }
}
