/** The author loop of `GetPosts` and the start-up of `main` in the
    collector. The Reddit client is replaced by data: each author in the
    list is `None` or a user whose submissions listing and comments listing
    each yield some items and may then raise one of the three exceptions
    the loop catches. */
module Collector {
  import opened Common
  import opened TextNormalizer
  import opened RecordStore
  import opened Anonymizer

  /** `authors_limit`: the run stops once this many rows were appended. */
  const AuthorsLimit := 100000

  /** `min_char_count`: a text must be longer than this after `process_text`. */
  const MinCharCount := 100

  /** A submission or a comment as the loop reads it: `selftext` or `body`
      is `text`, `url` or `permalink` is `link`; `created` is the ISO-8601
      date the row stores. */
  datatype Item = Item(id: string, text: string, subreddit: string, score: int, link: string, created: string)

  /** The three exceptions the loop catches around each listing. */
  datatype Failure = AttributeError | TooManyRequests | PrawcoreError

  /** What iterating a listing gives: items, then possibly a caught exception. */
  datatype Listing = Listing(items: seq<Item>, failure: Option<Failure>)

  datatype Author = Deleted | User(handle: Handle, submissions: Listing, comments: Listing)

  /** The loop's variables: the name map, the rows appended to the file in
      this run, and the two counters. */
  datatype State = State(names: Names, rows: seq<Row>, postCounter: nat, commentCounter: nat)

  /** An item is written when its id is not in `existing_ids` and its text is
      longer than `min_char_count` once processed. Processing never lengthens
      a text, so a raw text of at most `min_char_count` characters is never
      written, nor is an id already in the file. */
  predicate Accepts(it: Item, existing: set<string>)
    ensures Accepts(it, existing) ==> it.id !in existing && |it.text| > MinCharCount
  {
    it.id !in existing && |ProcessText(it.text)| > MinCharCount
  }

  /** The row written for an item. A post puts its processed text in both the
      Title and the Body column; a comment has an empty Title. The item's id
      lands in the column `existing_ids` is read from. */
  function MakeRow(kind: Kind, it: Item, anon: string): (r: Row)
    ensures var c := Cells(r);
            && c[0] == KindName(kind) && c[1] == it.id && c[2] == anon
            && c[4] == ProcessText(it.text) && |c[4]| <= |it.text|
            && c[3] == (if kind == Post then c[4] else "")
            && c[5] == it.subreddit && c[6] == IntToDecimal(it.score)
            && c[7] == it.link && c[8] == it.created
  {
    var body := ProcessText(it.text);
    match kind
    case Post => Row(Post, it.id, anon, body, body, it.subreddit, it.score, it.link, it.created)
    case Comment => Row(Comment, it.id, anon, "", body, it.subreddit, it.score, it.link, it.created)
  }

  /** The rows for the accepted items of a listing, in listing order. */
  function Accepted(kind: Kind, items: seq<Item>, anon: string, existing: set<string>): (rows: seq<Row>)
    ensures |rows| <= |items|
  {
    if |items| == 0 then []
    else if Accepts(items[0], existing) then [MakeRow(kind, items[0], anon)] + Accepted(kind, items[1..], anon, existing)
    else Accepted(kind, items[1..], anon, existing)
  }

  /** Appends one row and raises the matching counter by one. */
  function Append(st: State, r: Row): State {
    match r.kind
    case Post => st.(rows := st.rows + [r], postCounter := st.postCounter + 1)
    case Comment => st.(rows := st.rows + [r], commentCounter := st.commentCounter + 1)
  }

  /** The `for post in ...` / `for comment in ...` loop over one listing. */
  function Scan(kind: Kind, items: seq<Item>, anon: string, existing: set<string>, st: State): (r: State)
    ensures r.names == st.names
    ensures st.rows <= r.rows
    ensures r.postCounter + r.commentCounter - |r.rows| == st.postCounter + st.commentCounter - |st.rows|
    decreases |items|
  {
    if |items| == 0 then st
    else if Accepts(items[0], existing) then
      Scan(kind, items[1..], anon, existing, Append(st, MakeRow(kind, items[0], anon)))
    else
      Scan(kind, items[1..], anon, existing, st)
  }

  /** The loop over one listing appends exactly the accepted rows, in order,
      and raises the counter of its kind by one for each of them, leaving the
      other counter alone. */
  lemma {:induction false} ScanAppendsAccepted(kind: Kind, items: seq<Item>, anon: string, existing: set<string>, st: State)
    ensures var r := Scan(kind, items, anon, existing, st);
            var n := |Accepted(kind, items, anon, existing)|;
            && r.rows == st.rows + Accepted(kind, items, anon, existing)
            && r.postCounter == st.postCounter + (if kind == Post then n else 0)
            && r.commentCounter == st.commentCounter + (if kind == Comment then n else 0)
    decreases |items|
  {
    if |items| == 0 {
      assert st.rows + [] == st.rows;
    } else if Accepts(items[0], existing) {
      var row := MakeRow(kind, items[0], anon);
      AppendOne(st, row);
      ScanAppendsAccepted(kind, items[1..], anon, existing, Append(st, row));
      ConcatAssoc(st.rows, [row], Accepted(kind, items[1..], anon, existing));
    } else {
      ScanAppendsAccepted(kind, items[1..], anon, existing, st);
    }
  }

  lemma AppendOne(st: State, r: Row)
    ensures Append(st, r).rows == st.rows + [r]
    ensures Append(st, r).postCounter == st.postCounter + (if r.kind == Post then 1 else 0)
    ensures Append(st, r).commentCounter == st.commentCounter + (if r.kind == Comment then 1 else 0)
  {
  }

  lemma ConcatAssoc<T>(a: seq<T>, b: seq<T>, c: seq<T>)
    ensures a + b + c == a + (b + c)
  {
  }

  /** One author after the `None` check, and whether both listings finished
      without a caught exception (only then is the limit checked). */
  datatype Visit = Visit(st: State, completed: bool)

  /** A visit resolves the author's id first, only appends rows, raises
      the counters by the number of rows it appends, and is complete exactly
      when neither listing raised. */
  function VisitUser(h: Handle, subs: Listing, coms: Listing, existing: set<string>, sha: Hasher, st: State): (v: Visit)
    ensures v.st.names == Resolve(st.names, h, sha)
    ensures v.completed <==> subs.failure.None? && coms.failure.None?
    ensures st.rows <= v.st.rows
    ensures v.st.postCounter + v.st.commentCounter - |v.st.rows| == st.postCounter + st.commentCounter - |st.rows|
  {
    var names := Resolve(st.names, h, sha);
    var anon := names[h];
    var afterPosts := Scan(Post, subs.items, anon, existing, st.(names := names));
    if subs.failure.Some? then Visit(afterPosts, false)
    else
      var afterComments := Scan(Comment, coms.items, anon, existing, afterPosts);
      Visit(afterComments, coms.failure.None?)
  }

  /** The `for user in authors` loop. A deleted author is skipped; a caught
      exception moves on to the next author; the loop breaks when the two
      counters together reach `authors_limit` after an author whose two
      listings both finished. The loop never changes an entry of the name
      map, only appends rows, and counts every row it appends. */
  function Collect(authors: seq<Author>, existing: set<string>, sha: Hasher, st: State): (r: State)
    ensures Extends(st.names, r.names)
    ensures st.rows <= r.rows
    ensures r.postCounter + r.commentCounter - |r.rows| == st.postCounter + st.commentCounter - |st.rows|
    decreases |authors|
  {
    if |authors| == 0 then st
    else
      match authors[0]
      case Deleted => Collect(authors[1..], existing, sha, st)
      case User(h, subs, coms) =>
        var v := VisitUser(h, subs, coms, existing, sha, st);
        if v.completed && v.st.postCounter + v.st.commentCounter >= AuthorsLimit then v.st
        else Collect(authors[1..], existing, sha, v.st)
  }

  /** `GetPosts(authors, existing_ids)`: starts from the saved map (empty
      when there is none) and returns the state whose map is saved once,
      after the loop. The saved map keeps every loaded entry, and the two
      returned counters add up to the number of rows appended. */
  function GetPosts(authors: seq<Author>, existing: set<string>, saved: Option<Names>, sha: Hasher): (r: State)
    ensures Extends(LoadNames(saved), r.names)
    ensures r.postCounter + r.commentCounter == |r.rows|
  {
    Collect(authors, existing, sha, State(LoadNames(saved), [], 0, 0))
  }

  /** What one run of `main` leaves behind. */
  datatype RunOutput = RunOutput(store: Store, names: Names, postCounter: nat, commentCounter: nat)

  /** `main`: open the store (writing the header if it is missing), read the
      ids already there, collect, and append the new rows. `None` is the
      `IndexError` of a line after the first with fewer than two cells (the
      first line is skipped unread). The old lines are
      kept, a new file starts with the header, and the file grows by one
      line per counted row. */
  function RunMain(file: Option<Store>, authors: seq<Author>, saved: Option<Names>, sha: Hasher): (r: Option<RunOutput>)
    ensures r.Some? <==> file.None? || ExistingIds(file.value).Some?
    ensures r.Some? && file.Some? ==> file.value <= r.value.store
    ensures r.Some? && file.None? ==> [Header] <= r.value.store
    ensures r.Some? ==> |r.value.store| == |OpenStore(file).value.store| + r.value.postCounter + r.value.commentCounter
  {
    match OpenStore(file)
    case None => None
    case Some(o) =>
      var st := GetPosts(authors, o.existing, saved, sha);
      Some(RunOutput(o.store + CellsOf(st.rows), st.names, st.postCounter, st.commentCounter))
  }
}
