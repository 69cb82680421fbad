/** What the collector promises about the rows it appends, the name map and
    the author loop's control flow. */
module CollectorProps {
  import opened Common
  import opened Chars
  import opened TextNormalizer
  import opened RecordStore
  import opened Anonymizer
  import opened Collector

  // ---------------------------------------------------------------------
  // One listing
  // ---------------------------------------------------------------------

  /** Every accepted item of a listing gets its row. */
  lemma {:induction false} AcceptedItemWritten(kind: Kind, items: seq<Item>, anon: string, existing: set<string>, it: Item)
    requires it in items && Accepts(it, existing)
    ensures MakeRow(kind, it, anon) in Accepted(kind, items, anon, existing)
    decreases |items|
  {
    if items[0] != it {
      assert it in items[1..];
      AcceptedItemWritten(kind, items[1..], anon, existing, it);
    }
  }

  /** Every row written for a listing is the row of one of its accepted items. */
  lemma {:induction false} WrittenRowIsAccepted(kind: Kind, items: seq<Item>, anon: string, existing: set<string>, r: Row)
    requires r in Accepted(kind, items, anon, existing)
    ensures exists it :: it in items && Accepts(it, existing) && r == MakeRow(kind, it, anon)
    decreases |items|
  {
    if !(Accepts(items[0], existing) && r == MakeRow(kind, items[0], anon)) {
      WrittenRowIsAccepted(kind, items[1..], anon, existing, r);
      var it :| it in items[1..] && Accepts(it, existing) && r == MakeRow(kind, it, anon);
      assert it in items;
    }
  }

  /** The ids of the rows written for a listing are the ids of its accepted
      items. */
  lemma {:induction false} AcceptedIds(kind: Kind, items: seq<Item>, anon: string, existing: set<string>)
    ensures Ids(Accepted(kind, items, anon, existing)) == AcceptedItemIds(items, existing)
    decreases |items|
  {
    if |items| > 0 {
      var rest := Accepted(kind, items[1..], anon, existing);
      AcceptedIds(kind, items[1..], anon, existing);
      AcceptedItemIdsCons(items, existing);
      if Accepts(items[0], existing) {
        var row := MakeRow(kind, items[0], anon);
        assert Accepted(kind, items, anon, existing) == [row] + rest;
        IdsAppend([row], rest);
        IdsOne(row);
      }
    }
  }

  /** The ids of the accepted items among `items`. */
  function AcceptedItemIds(items: seq<Item>, existing: set<string>): set<string> {
    set it | it in items && Accepts(it, existing) :: it.id
  }

  lemma AcceptedItemIdsCons(items: seq<Item>, existing: set<string>)
    requires |items| > 0
    ensures AcceptedItemIds(items, existing) ==
            (if Accepts(items[0], existing) then {items[0].id} else {}) + AcceptedItemIds(items[1..], existing)
  {
    assert forall it :: it in items <==> it == items[0] || it in items[1..];
  }

  lemma IdsOne(r: Row)
    ensures Ids([r]) == {r.id}
  {
    assert forall x :: x in [r] <==> x == r;
  }

  lemma IdsAppend(a: seq<Row>, b: seq<Row>)
    ensures Ids(a + b) == Ids(a) + Ids(b)
  {
    assert forall r :: r in a + b <==> r in a || r in b;
  }

  lemma AcceptedItemIdsAppend(a: seq<Item>, b: seq<Item>, existing: set<string>)
    ensures AcceptedItemIds(a + b, existing) == AcceptedItemIds(a, existing) + AcceptedItemIds(b, existing)
  {
    assert forall it :: it in a + b <==> it in a || it in b;
  }

  // ---------------------------------------------------------------------
  // The invariant of the author loop
  // ---------------------------------------------------------------------

  /** How many rows are of the given kind. */
  function CountKind(rows: seq<Row>, kind: Kind): (n: nat)
    ensures n <= |rows|
  {
    if |rows| == 0 then 0
    else CountKind(rows[..|rows| - 1], kind) + (if rows[|rows| - 1].kind == kind then 1 else 0)
  }

  /** What every appended row satisfies: its id was not in the file, its
      body is ASCII text longer than `min_char_count`, a post repeats its
      body as title and a comment has none, and its author column is an id
      of the name map. */
  predicate ValidRow(r: Row, existing: set<string>, names: Names) {
    && r.id !in existing
    && |r.body| > MinCharCount
    && IsAsciiText(r.body)
    && (r.kind == Post ==> r.title == r.body)
    && (r.kind == Comment ==> r.title == "")
    && r.author in names.Values
  }

  /** The counters count the appended rows of each kind, and every appended
      row is valid. */
  predicate Valid(st: State, existing: set<string>) {
    && st.postCounter == CountKind(st.rows, Post)
    && st.commentCounter == CountKind(st.rows, Comment)
    && forall k :: 0 <= k < |st.rows| ==> ValidRow(st.rows[k], existing, st.names)
  }

  lemma ExtendsValues(a: Names, b: Names)
    requires Extends(a, b)
    ensures a.Values <= b.Values
  {
    forall v | v in a.Values ensures v in b.Values {
      var h :| h in a && a[h] == v;
      assert b[h] == v;
    }
  }

  lemma {:induction false} ScanKeepsValid(kind: Kind, items: seq<Item>, anon: string, existing: set<string>, st: State)
    requires Valid(st, existing) && anon in st.names.Values
    ensures Valid(Scan(kind, items, anon, existing, st), existing)
    decreases |items|
  {
    if |items| > 0 {
      if Accepts(items[0], existing) {
        var row := MakeRow(kind, items[0], anon);
        var st' := Append(st, row);
        AppendOne(st, row);
        ProcessTextIsAscii(items[0].text);
        assert st'.rows[..|st'.rows| - 1] == st.rows;
        assert ValidRow(row, existing, st.names);
        ScanKeepsValid(kind, items[1..], anon, existing, st');
      } else {
        ScanKeepsValid(kind, items[1..], anon, existing, st);
      }
    }
  }

  lemma VisitKeepsValid(h: Handle, subs: Listing, coms: Listing, existing: set<string>, sha: Hasher, st: State)
    requires Valid(st, existing)
    ensures var v := VisitUser(h, subs, coms, existing, sha, st);
            Valid(v.st, existing) && st.rows <= v.st.rows && Extends(st.names, v.st.names)
  {
    VisitEffect(h, subs, coms, existing, sha, st);
    var names := Resolve(st.names, h, sha);
    ExtendsValues(st.names, names);
    var st0 := st.(names := names);
    assert Valid(st0, existing);
    var anon := names[h];
    var afterPosts := Scan(Post, subs.items, anon, existing, st0);
    ScanKeepsValid(Post, subs.items, anon, existing, st0);
    if subs.failure.None? {
      ScanKeepsValid(Comment, coms.items, anon, existing, afterPosts);
    }
  }

  /** The author loop keeps the invariant, only appends rows, and never
      changes an entry of the name map. */
  lemma {:induction false} CollectKeepsValid(authors: seq<Author>, existing: set<string>, sha: Hasher, st: State)
    requires Valid(st, existing)
    ensures var r := Collect(authors, existing, sha, st);
            Valid(r, existing) && st.rows <= r.rows && Extends(st.names, r.names)
    decreases |authors|
  {
    if |authors| > 0 {
      match authors[0]
      case Deleted =>
        CollectKeepsValid(authors[1..], existing, sha, st);
      case User(h, subs, coms) =>
        var v := VisitUser(h, subs, coms, existing, sha, st);
        VisitKeepsValid(h, subs, coms, existing, sha, st);
        if !(v.completed && v.st.postCounter + v.st.commentCounter >= AuthorsLimit) {
          CollectKeepsValid(authors[1..], existing, sha, v.st);
        }
    }
  }

  /** `GetPosts`: each counter is the number of rows of its kind, every row is
      valid, and the saved map extends the loaded one. */
  lemma GetPostsIsValid(authors: seq<Author>, existing: set<string>, saved: Option<Names>, sha: Hasher)
    ensures var r := GetPosts(authors, existing, saved, sha);
            Valid(r, existing) && Extends(LoadNames(saved), r.names)
  {
    CollectKeepsValid(authors, existing, sha, State(LoadNames(saved), [], 0, 0));
  }

  /** Every row has the header's nine columns. */
  lemma RowsMatchHeader(r: Row)
    ensures |Cells(r)| == |Header| == 9
  {
  }

  // ---------------------------------------------------------------------
  // Control flow of the author loop
  // ---------------------------------------------------------------------

  /** A deleted author changes nothing. */
  lemma DeletedAuthorSkipped(authors: seq<Author>, existing: set<string>, sha: Hasher, st: State)
    ensures Collect([Deleted] + authors, existing, sha, st) == Collect(authors, existing, sha, st)
  {
    assert ([Deleted] + authors)[1..] == authors;
  }

  /** The state after a user's submissions listing. */
  function AfterSubmissions(h: Handle, subs: Listing, existing: set<string>, sha: Hasher, st: State): State {
    var names := Resolve(st.names, h, sha);
    Scan(Post, subs.items, names[h], existing, st.(names := names))
  }

  /** An exception in the submissions listing skips the user's comments and
      the limit check: the loop goes on with the next author, keeping the
      rows already appended for this one. */
  lemma SubmissionsFailureSkipsComments(h: Handle, subs: Listing, coms: Listing, authors: seq<Author>,
                                        existing: set<string>, sha: Hasher, st: State)
    requires subs.failure.Some?
    ensures Collect([User(h, subs, coms)] + authors, existing, sha, st)
         == Collect(authors, existing, sha, AfterSubmissions(h, subs, existing, sha, st))
  {
    assert ([User(h, subs, coms)] + authors)[1..] == authors;
  }

  /** An exception in the comments listing also skips the limit check and
      moves on to the next author without a retry. */
  lemma CommentsFailureMovesOn(h: Handle, subs: Listing, coms: Listing, authors: seq<Author>,
                               existing: set<string>, sha: Hasher, st: State)
    requires subs.failure.None? && coms.failure.Some?
    ensures var v := VisitUser(h, subs, coms, existing, sha, st);
            Collect([User(h, subs, coms)] + authors, existing, sha, st) == Collect(authors, existing, sha, v.st)
  {
    assert ([User(h, subs, coms)] + authors)[1..] == authors;
  }

  /** After a user whose two listings both finished, the loop stops once the
      counters together reach `authors_limit`; the remaining authors are not
      visited. */
  lemma StopsAtLimit(h: Handle, subs: Listing, coms: Listing, authors: seq<Author>,
                     existing: set<string>, sha: Hasher, st: State)
    requires subs.failure.None? && coms.failure.None?
    requires var v := VisitUser(h, subs, coms, existing, sha, st);
             v.st.postCounter + v.st.commentCounter >= AuthorsLimit
    ensures Collect([User(h, subs, coms)] + authors, existing, sha, st)
         == VisitUser(h, subs, coms, existing, sha, st).st
  {
  }

  /** What one visit appends and how it leaves the name map. */
  lemma VisitEffect(h: Handle, subs: Listing, coms: Listing, existing: set<string>, sha: Hasher, st: State)
    ensures var v := VisitUser(h, subs, coms, existing, sha, st);
            var names := Resolve(st.names, h, sha);
            && v.st.names == names
            && v.completed == (subs.failure.None? && coms.failure.None?)
            && v.st.rows == st.rows + Accepted(Post, subs.items, names[h], existing)
                            + (if subs.failure.None? then Accepted(Comment, coms.items, names[h], existing) else [])
            && v.st.postCounter + v.st.commentCounter == st.postCounter + st.commentCounter + |v.st.rows| - |st.rows|
  {
    var names := Resolve(st.names, h, sha);
    var st0 := st.(names := names);
    ScanAppendsAccepted(Post, subs.items, names[h], existing, st0);
    if subs.failure.Some? {
      assert st.rows + Accepted(Post, subs.items, names[h], existing) + []
          == st.rows + Accepted(Post, subs.items, names[h], existing);
    } else {
      ScanAppendsAccepted(Comment, coms.items, names[h], existing, Scan(Post, subs.items, names[h], existing, st0));
    }
  }

  /** One step of the loop on a user entry. */
  lemma CollectUserStep(h: Handle, subs: Listing, coms: Listing, rest: seq<Author>,
                        existing: set<string>, sha: Hasher, st: State)
    ensures var v := VisitUser(h, subs, coms, existing, sha, st);
            Collect([User(h, subs, coms)] + rest, existing, sha, st)
            == if v.completed && v.st.postCounter + v.st.commentCounter >= AuthorsLimit then v.st
               else Collect(rest, existing, sha, v.st)
  {
    assert ([User(h, subs, coms)] + rest)[1..] == rest;
  }

  /** Visiting the same user twice resolves the same id and appends the same
      rows again. */
  lemma VisitTwice(h: Handle, subs: Listing, coms: Listing, existing: set<string>, sha: Hasher, st: State)
    ensures var anon := Resolve(st.names, h, sha)[h];
            var once := Accepted(Post, subs.items, anon, existing)
                        + (if subs.failure.None? then Accepted(Comment, coms.items, anon, existing) else []);
            var v := VisitUser(h, subs, coms, existing, sha, st);
            VisitUser(h, subs, coms, existing, sha, v.st).st.rows == st.rows + once + once
  {
    var v := VisitUser(h, subs, coms, existing, sha, st);
    VisitEffect(h, subs, coms, existing, sha, st);
    SecondVisitSameRows(h, subs, coms, existing, sha, st, v.st);
  }

  lemma SecondVisitSameRows(h: Handle, subs: Listing, coms: Listing, existing: set<string>, sha: Hasher, st: State, st': State)
    requires st'.names == Resolve(st.names, h, sha)
    ensures var anon := Resolve(st.names, h, sha)[h];
            VisitUser(h, subs, coms, existing, sha, st').st.rows
            == st'.rows + Accepted(Post, subs.items, anon, existing)
               + (if subs.failure.None? then Accepted(Comment, coms.items, anon, existing) else [])
  {
    KnownAuthorKeepsNames(h, sha, st'.names);
    VisitEffect(h, subs, coms, existing, sha, st');
  }

  lemma KnownAuthorKeepsNames(h: Handle, sha: Hasher, names: Names)
    requires h in names
    ensures Resolve(names, h, sha) == names
  {
  }

  /** The loop on a single user entry ends with that visit. */
  lemma CollectSingleUser(h: Handle, subs: Listing, coms: Listing, existing: set<string>, sha: Hasher, st: State)
    ensures Collect([User(h, subs, coms)], existing, sha, st) == VisitUser(h, subs, coms, existing, sha, st).st
  {
    assert [User(h, subs, coms)][1..] == [];
  }

  /** `existing_ids` is a snapshot taken before the loop: a user listed twice
      (one entry per listing post) gets the same rows appended twice, under
      the same anonymised id. */
  lemma RepeatedAuthorAppendedTwice(h: Handle, subs: Listing, coms: Listing,
                                    existing: set<string>, sha: Hasher, st: State)
    requires subs.failure.None? && coms.failure.None?
    requires var v := VisitUser(h, subs, coms, existing, sha, st);
             v.st.postCounter + v.st.commentCounter < AuthorsLimit
    ensures var anon := Resolve(st.names, h, sha)[h];
            var once := Accepted(Post, subs.items, anon, existing) + Accepted(Comment, coms.items, anon, existing);
            Collect([User(h, subs, coms), User(h, subs, coms)], existing, sha, st).rows == st.rows + once + once
  {
    var u := User(h, subs, coms);
    var v := VisitUser(h, subs, coms, existing, sha, st);
    calc {
      Collect([u, u], existing, sha, st);
      { assert [u, u] == [u] + [u];
        CollectUserStep(h, subs, coms, [u], existing, sha, st); }
      Collect([u], existing, sha, v.st);
      { CollectSingleUser(h, subs, coms, existing, sha, v.st); }
      VisitUser(h, subs, coms, existing, sha, v.st).st;
    }
    VisitTwice(h, subs, coms, existing, sha, st);
  }

  // ---------------------------------------------------------------------
  // Running again
  // ---------------------------------------------------------------------

  /** The items the loop looks at when it does not stop early: each user's
      submissions, and its comments unless the submissions listing failed. */
  function Reached(authors: seq<Author>): seq<Item>
    decreases |authors|
  {
    if |authors| == 0 then []
    else
      match authors[0]
      case Deleted => Reached(authors[1..])
      case User(_, subs, coms) =>
        subs.items + (if subs.failure.None? then coms.items else []) + Reached(authors[1..])
  }

  /** While the counters cannot reach the limit, the ids appended are exactly
      those of the accepted items the loop looks at. */
  lemma {:induction false} CollectAppendsAcceptedIds(authors: seq<Author>, existing: set<string>, sha: Hasher, st: State)
    requires st.postCounter + st.commentCounter + |Reached(authors)| < AuthorsLimit
    ensures Ids(Collect(authors, existing, sha, st).rows) == Ids(st.rows) + AcceptedItemIds(Reached(authors), existing)
    decreases |authors|
  {
    if |authors| > 0 {
      match authors[0]
      case Deleted =>
        CollectAppendsAcceptedIds(authors[1..], existing, sha, st);
      case User(h, subs, coms) =>
        var v := VisitUser(h, subs, coms, existing, sha, st);
        var mine := subs.items + (if subs.failure.None? then coms.items else []);
        VisitAppendsAcceptedIds(h, subs, coms, existing, sha, st);
        assert Reached(authors) == mine + Reached(authors[1..]);
        CollectAppendsAcceptedIds(authors[1..], existing, sha, v.st);
        AcceptedItemIdsAppend(mine, Reached(authors[1..]), existing);
    }
  }

  lemma VisitAppendsAcceptedIds(h: Handle, subs: Listing, coms: Listing, existing: set<string>, sha: Hasher, st: State)
    ensures var v := VisitUser(h, subs, coms, existing, sha, st);
            var mine := subs.items + (if subs.failure.None? then coms.items else []);
            && Ids(v.st.rows) == Ids(st.rows) + AcceptedItemIds(mine, existing)
            && v.st.postCounter + v.st.commentCounter <= st.postCounter + st.commentCounter + |mine|
  {
    var names := Resolve(st.names, h, sha);
    var anon := names[h];
    VisitEffect(h, subs, coms, existing, sha, st);
    var posts := Accepted(Post, subs.items, anon, existing);
    AcceptedIds(Post, subs.items, anon, existing);
    IdsAppend(st.rows, posts);
    if subs.failure.None? {
      var comments := Accepted(Comment, coms.items, anon, existing);
      AcceptedIds(Comment, coms.items, anon, existing);
      IdsAppend(st.rows + posts, comments);
      AcceptedItemIdsAppend(subs.items, coms.items, existing);
    } else {
      assert subs.items + [] == subs.items;
    }
  }

  /** When no item the loop looks at is accepted, nothing is appended. */
  lemma {:induction false} NothingAcceptedNothingAppended(authors: seq<Author>, existing: set<string>, sha: Hasher, st: State)
    requires AcceptedItemIds(Reached(authors), existing) == {}
    ensures Collect(authors, existing, sha, st).rows == st.rows
    decreases |authors|
  {
    if |authors| > 0 {
      match authors[0]
      case Deleted =>
        NothingAcceptedNothingAppended(authors[1..], existing, sha, st);
      case User(h, subs, coms) =>
        var v := VisitUser(h, subs, coms, existing, sha, st);
        var mine := subs.items + (if subs.failure.None? then coms.items else []);
        assert Reached(authors) == mine + Reached(authors[1..]);
        AcceptedItemIdsAppend(mine, Reached(authors[1..]), existing);
        VisitAppendsAcceptedIds(h, subs, coms, existing, sha, st);
        VisitWithNothingAccepted(h, subs, coms, existing, sha, st);
        if !(v.completed && v.st.postCounter + v.st.commentCounter >= AuthorsLimit) {
          NothingAcceptedNothingAppended(authors[1..], existing, sha, v.st);
        }
    }
  }

  /** A visit with no accepted item appends nothing. */
  lemma VisitWithNothingAccepted(h: Handle, subs: Listing, coms: Listing, existing: set<string>, sha: Hasher, st: State)
    requires AcceptedItemIds(subs.items + (if subs.failure.None? then coms.items else []), existing) == {}
    ensures VisitUser(h, subs, coms, existing, sha, st).st.rows == st.rows
  {
    var mine := subs.items + (if subs.failure.None? then coms.items else []);
    var anon := Resolve(st.names, h, sha)[h];
    VisitEffect(h, subs, coms, existing, sha, st);
    NoAcceptedIdsNoRows(Post, subs.items, anon, existing);
    if subs.failure.None? {
      AcceptedItemIdsAppend(subs.items, coms.items, existing);
      NoAcceptedIdsNoRows(Comment, coms.items, anon, existing);
    } else {
      assert mine == subs.items;
    }
  }

  lemma {:induction false} NoAcceptedIdsNoRows(kind: Kind, items: seq<Item>, anon: string, existing: set<string>)
    requires AcceptedItemIds(items, existing) == {}
    ensures Accepted(kind, items, anon, existing) == []
    decreases |items|
  {
    if |items| > 0 {
      assert items[0] in items;
      assert items[0].id !in AcceptedItemIds(items, existing);
      AcceptedItemIdsCons(items, existing);
      NoAcceptedIdsNoRows(kind, items[1..], anon, existing);
    }
  }

  /** Once the ids of the accepted items are in the file, none of those
      items is accepted again. */
  lemma NothingAcceptedAgain(items: seq<Item>, existing: set<string>, existing2: set<string>)
    requires existing <= existing2 && AcceptedItemIds(items, existing) <= existing2
    ensures AcceptedItemIds(items, existing2) == {}
  {
    forall it | it in items ensures !Accepts(it, existing2) {
      assert Accepts(it, existing2) ==> it.id in AcceptedItemIds(items, existing);
    }
  }

  /** Running `main` a second time on the file and the map the first run left
      behind, with the same authors answering the same way, appends nothing,
      provided the first run could not hit `authors_limit` and the file was
      missing or held at least its header line. */
  lemma RerunAppendsNothing(file: Option<Store>, authors: seq<Author>, saved: Option<Names>, sha: Hasher)
    requires file.Some? ==> |file.value| > 0
    requires RunMain(file, authors, saved, sha).Some?
    requires |Reached(authors)| < AuthorsLimit
    ensures var first := RunMain(file, authors, saved, sha).value;
            var second := RunMain(Some(first.store), authors, Some(first.names), sha);
            second.Some? && second.value.store == first.store
  {
    var o := OpenStore(file).value;
    var st := GetPosts(authors, o.existing, saved, sha);
    var first := RunMain(file, authors, saved, sha).value;
    assert first.store == o.store + CellsOf(st.rows);
    HeaderOnlyStoreHasNoIds();
    assert |o.store| > 0 && ExistingIds(o.store) == Some(o.existing);
    AppendedIdsReadBack(o.store, st.rows);
    var existing2 := o.existing + Ids(st.rows);
    assert OpenStore(Some(first.store)) == Some(Opened(first.store, existing2));
    CollectAppendsAcceptedIds(authors, o.existing, sha, State(LoadNames(saved), [], 0, 0));
    assert Ids([]) == {};
    NothingAcceptedAgain(Reached(authors), o.existing, existing2);
    NothingAcceptedNothingAppended(authors, existing2, sha, State(LoadNames(Some(first.names)), [], 0, 0));
    assert first.store + CellsOf([]) == first.store;
  }
}
