# Reddit collection and sentence preparation, modelled in Dafny

This project models the three pure pieces of a research pipeline that collects
Reddit posts and comments and labels their sentences with a few-shot classifier.

- **The text normalisers.** `process_text` of the collector runs three
  `re.sub` stages: every `<[^<]+?>` becomes one space, every
  `http\S+|www.\S+` is deleted, and every non-ASCII run is deleted.
  `process_text` of the training script runs only the first two. `re.sub`
  is modelled once, as a generic leftmost, non-overlapping scanner over a
  matcher (`RegexSub`). The tag matcher and the URL matcher are exact:
  - the lazy `+?` gives the shortest tag;
  - the greedy `\S+` gives the longest URL;
  - `http` is tried before `www`;
  - the unescaped `.` matches any character except a newline.

  Whitespace is Python's `str.isspace` table (`Chars`).
- **The collector loop of `GetPosts` and the start-up of `main`.** The
  Reddit client is replaced by data. Each author is deleted (`None`) or a
  user with two listings, submissions and comments. Each listing yields some
  items and may end in one of the three caught exceptions.

  `Collector` folds over the authors. Its state is the anonymisation map,
  the rows appended in this run and the two counters. The `existing_ids`
  snapshot is frozen. `RecordStore` holds the 9-column row, the header, and
  `existing_ids` as it is read back from the file. `Anonymizer` holds the
  handle-to-id map: an id is the first 8 hex digits of a SHA-256 digest,
  and the hash function is a parameter.
- **Inference preparation of the prediction script.** `Sentences` models
  `split_into_sentences`: split on `[.!?]`, `strip`, then keep pieces longer
  than 50 characters. `Prediction` models the rest:
  - the explode/filter into (record, sentence) rows;
  - the batch count and the clipped batch slices;
  - the write pattern, where batch 0 writes the header and later batches
    append. It is a method with a loop. The header line names the twelve
    output columns: the input's nine, then `Sentences`, `Label` and
    `Label Text`.

  The classifier is a parameter.

The properties are stated as `ensures` clauses and lemmas. The `*Props`
modules hold the ones that relate several operations. Most operations have
a partner: a reference definition (`Prediction.PerRecord`, `Sentences.Embeds`,
`CollectorProps.Valid`), an inverse (`Sentences.SplitRoundTrip`) or an
invariant the operation keeps.

The model follows the code as written. Four behaviours are easy to
misread:

- **No retry after an exception.** A caught `TooManyRequests` or other
  provider exception sleeps and then `continue`s with the next author. The
  same phase is not retried. An exception in the submissions listing also
  skips that author's comments and the limit check.
- **The tag stage is one pass.** Its result can still contain a tag:
  `"<<a>b>"` becomes `"< b>"`.
- **The Title column of a post row holds the processed selftext.** It does
  not hold `post.title`.
- **An existing file with no lines is not given a header.** The next run
  then reads its first data row as the header, so that row's id is missed
  and the item is appended again (`RecordStore.HeaderlessFileLosesFirstId`).
  Re-running therefore adds nothing only when the file was missing or not
  empty (`CollectorProps.RerunAppendsNothing`).

## Model

| member | source | states |
|---|---|---|
| RegexSub.Sub | Reddit/Reddit_API.py:52-58 | a substitution whose matches are never shorter than the replacement never lengthens the text |
| RegexSub.SubChars | Reddit/Reddit_API.py:52-58 | every character of a substitution's result comes from the input or from the replacement |
| RegexSub.FirstMatch | Reddit/Reddit_API.py:52-58 | the first position where the pattern matches: no match starts before it, and one starts at it unless it is the end |
| RegexSub.SubWithoutMatch | Reddit/Reddit_API.py:52-58 | a text in which the pattern matches nowhere is returned unchanged |
| RegexSub.SubReplacesLeftmost | SetFIt/SetFit-Train.py:35-38 | `re.sub` copies the text before the leftmost match, replaces that match, then goes on after its end (matches do not overlap) |
| RegexSub.SubAtMatch | SetFIt/SetFit-Train.py:35-38 | scanning from a matching position emits the replacement and resumes after the match |
| RegexSub.SubCopiesPrefix | SetFIt/SetFit-Train.py:35-38 | a prefix in which no match starts is copied unchanged |
| RegexSub.SubIdentity | SetFIt/SetFit-Train.py:35-38 | no match anywhere means the text is unchanged |
| RegexSub.SubUnchangedIff | SetFIt/SetFit-Train.py:35-38 | when every match is longer than the replacement, the text is unchanged if and only if the pattern matches nowhere |
| TextNormalizer.TagMatchLen | Reddit/Reddit_API.py:52 | a tag match is at least 3 characters (`<`, one or more non-`<`, `>`) and fits in the text |
| TextNormalizer.TagMatchLenIsShortest | Reddit/Reddit_API.py:52 | the tag matcher returns the shortest `<[^<]+?>` match at the position, and 0 exactly when there is none |
| TextNormalizer.ReplaceTags | Reddit/Reddit_API.py:52 | replacing tags by one space never lengthens the text |
| TextNormalizer.NonSpaceRunIsLongest | Reddit/Reddit_API.py:55 | `\S+` takes every character up to the first whitespace character or the end |
| TextNormalizer.UrlMatchLen | Reddit/Reddit_API.py:55 | a URL match is at least 5 characters and fits in the text |
| TextNormalizer.UrlMatchLenIsLongest | Reddit/Reddit_API.py:55 | the URL matcher returns the longest `http\S+` or `www.\S+` match, and 0 exactly when there is none |
| TextNormalizer.DeleteUrls | Reddit/Reddit_API.py:55 | deleting URLs never lengthens the text |
| TextNormalizer.DropNonAscii | Reddit/Reddit_API.py:58 | deleting non-ASCII runs never lengthens the text |
| TextNormalizer.DropNonAsciiIsAscii | Reddit/Reddit_API.py:58 | the result holds only characters up to U+007F, and an ASCII text is left as it is |
| TextNormalizer.ProcessText | Reddit/Reddit_API.py:50-60 | the collector's `process_text` never lengthens its input |
| TextNormalizer.ProcessTextIsAscii | Reddit/Reddit_API.py:50-60 | the collector's `process_text` output holds only characters up to U+007F |
| TextNormalizer.ProcessTrainText | SetFIt/SetFit-Train.py:33-40 | the training `process_text` never lengthens its input |
| TextNormalizerProps.ReplaceTagsUnchangedIff | Reddit/Reddit_API.py:52 | the tag stage changes a text if and only if some position starts a tag match |
| TextNormalizerProps.ReplaceTagsWithoutOpening | SetFIt/SetFit-Train.py:35 | a text without `<` passes the tag stage unchanged |
| TextNormalizerProps.ReplaceTagsChars | SetFIt/SetFit-Train.py:35 | the tag stage introduces no character other than a space |
| TextNormalizerProps.ShortestTagIsMatched | SetFIt/SetFit-Train.py:35 | when the shortest tag at a `<` has length n, the lazy pattern matches exactly n characters |
| TextNormalizerProps.EmptyTagKept | SetFIt/SetFit-Train.py:35 | `<>` is not a tag and stays |
| TextNormalizerProps.GreaterInsideTag | SetFIt/SetFit-Train.py:35 | `<>>` is one tag and becomes one space |
| TextNormalizerProps.OnePassLeavesTag | SetFIt/SetFit-Train.py:35 | one pass over `<<a>b>` gives `< b>`, which is itself a tag |
| TextNormalizerProps.DeleteUrlsUnchangedIff | Reddit/Reddit_API.py:55 | the URL stage changes a text if and only if some position starts a URL match |
| TextNormalizerProps.DeleteUrlsWithoutPrefix | SetFIt/SetFit-Train.py:38 | a text containing neither `http` nor `www` passes the URL stage unchanged |
| TextNormalizerProps.DeleteUrlsChars | SetFIt/SetFit-Train.py:38 | the URL stage only deletes characters |
| TextNormalizerProps.DotMatchesSpace | SetFIt/SetFit-Train.py:38 | the `.` of `www.` matches a space, so `www x` is deleted whole |
| TextNormalizerProps.DotSkipsNewline | SetFIt/SetFit-Train.py:38 | the `.` of `www.` does not match a newline, so `www\nx` stays |
| TextNormalizerProps.UrlTokenDeleted | SetFIt/SetFit-Train.py:38 | a URL is deleted up to the next whitespace, which stays |
| TextNormalizerProps.HttpTokenLength | SetFIt/SetFit-Train.py:38 | `\S+` after `http` is greedy up to the space |
| TextNormalizerProps.DropNonAsciiAppend | Reddit/Reddit_API.py:58 | deleting non-ASCII characters distributes over concatenation |
| TextNormalizerProps.DropNonAsciiSingle | Reddit/Reddit_API.py:58 | one character is kept exactly when it is ASCII |
| TextNormalizerProps.ProcessTextUnchanged | Reddit/Reddit_API.py:52-58 | an ASCII text with no `<`, no `http` and no `www` is returned unchanged |
| TextNormalizerProps.ProcessTrainTextUnchanged | SetFIt/SetFit-Train.py:35-38 | a text with no `<`, no `http` and no `www` is returned unchanged, non-ASCII characters included |
| TextNormalizerProps.ProcessTrainTextChars | SetFIt/SetFit-Train.py:33-40 | the training `process_text` adds no character except a space |
| TextNormalizerProps.CollectorIsTrainWithoutNonAscii | SetFIt/SetFit-Train.py:33-40 | the collector's `process_text` is the training one followed by deleting non-ASCII characters |
| Sentences.Delimiters | SetFIt/SetFit-Pred.py:30 | the delimiters of a text are `.`, `!` or `?` characters, no more of them than the text's length |
| Sentences.Split | SetFIt/SetFit-Pred.py:30 | `re.split` on `[.!?]` gives one more piece than there are delimiters |
| Sentences.SplitPieceHasNoDelimiter | SetFIt/SetFit-Pred.py:30 | no piece of the split contains a delimiter |
| Sentences.SplitRoundTrip | SetFIt/SetFit-Pred.py:30 | interleaving the pieces with the delimiters gives back the text |
| Sentences.TrimStartFacts | SetFIt/SetFit-Pred.py:33 | trimming the start drops a whitespace-only prefix and leaves a suffix that is empty or starts with non-whitespace |
| Sentences.TrimEndFacts | SetFIt/SetFit-Pred.py:33 | trimming the end drops a whitespace-only suffix and leaves a prefix that is empty or ends with non-whitespace |
| Sentences.Strip | SetFIt/SetFit-Pred.py:33 | `strip` never lengthens a string |
| Sentences.StripIsTrimmedInfix | SetFIt/SetFit-Pred.py:33 | `strip` returns a contiguous part of its input with no whitespace at either end |
| Sentences.StripDropsOnlyWhitespace | SetFIt/SetFit-Pred.py:33 | everything `strip` removes is whitespace |
| Sentences.StripKeepsNoDelimiter | SetFIt/SetFit-Pred.py:30-33 | stripping a delimiter-free piece leaves it delimiter-free and trimmed |
| Sentences.StripAll | SetFIt/SetFit-Pred.py:33 | stripping every piece keeps the number of pieces |
| Sentences.StripAllAt | SetFIt/SetFit-Pred.py:33 | the k-th stripped piece is the k-th piece stripped |
| Sentences.KeepLong | SetFIt/SetFit-Pred.py:36 | the filter never adds pieces |
| Sentences.KeepLongKeeps | SetFIt/SetFit-Pred.py:36 | a string survives the filter if and only if it was a piece, is non-empty and is longer than 50 characters |
| Sentences.SplitIntoSentences | SetFIt/SetFit-Pred.py:27-38 | there are at most one more sentence than delimiters; each sentence is longer than 50 characters, has no delimiter and no surrounding whitespace |
| Sentences.SentencesInOrder | SetFIt/SetFit-Pred.py:27-38 | the sentences occur in the text as contiguous, non-overlapping substrings, in order |
| Sentences.SentenceMembership | SetFIt/SetFit-Pred.py:27-38 | a string is a sentence if and only if it is longer than 50 characters and is the stripped form of some piece of the split |
| Prediction.ExplodeList | SetFIt/SetFit-Pred.py:43 | exploding a list gives one row per list element, in order, each paired with its record |
| Prediction.KeepSentences | SetFIt/SetFit-Pred.py:46 | the length filter never adds rows |
| Prediction.KeepSentencesOfList | SetFIt/SetFit-Pred.py:46 | for a list of non-empty sentences, the filter keeps every exploded row |
| Prediction.RecordContributesItsSentences | SetFIt/SetFit-Pred.py:42-46 | a record contributes one row per sentence of its body in order, and none when its list is empty |
| Prediction.ExplodeRecord | SetFIt/SetFit-Pred.py:43 | a record explodes into at least one row; every row belongs to the record and carries one of its sentences or none |
| Prediction.Explode | SetFIt/SetFit-Pred.py:43 | exploding gives at least as many rows as records, and every exploded row belongs to one of the records |
| Prediction.ExplodeKeepsEveryRecord | SetFIt/SetFit-Pred.py:43 | exploding loses no record: every record has at least one row |
| Prediction.SentenceRows | SetFIt/SetFit-Pred.py:42-46 | explode then filter equals the reference concatenation of each record's own rows, in record order |
| Prediction.SentenceRowsFromOwnBody | SetFIt/SetFit-Pred.py:42-46 | every row pairs one of the records with a sentence of that record's body, longer than 50 characters |
| Prediction.NumBatches | SetFIt/SetFit-Pred.py:50 | there are no batches exactly when there are no rows, and never more batches than rows |
| Prediction.NumBatchesIsCeiling | SetFIt/SetFit-Pred.py:50 | the batch count is the ceiling of rows over batch size, and 0 exactly when there are no rows |
| Prediction.Batch | SetFIt/SetFit-Pred.py:55-57 | a batch holds at most batch-size rows and is non-empty for every index below the batch count |
| Prediction.BatchStartsInside | SetFIt/SetFit-Pred.py:53-55 | every batch below the batch count starts inside the frame |
| Prediction.BatchesPrefix | SetFIt/SetFit-Pred.py:53-57 | the first i batches, concatenated, are the frame's prefix up to the i-th start, so batches are in order and do not overlap |
| Prediction.BatchesCoverRows | SetFIt/SetFit-Pred.py:53-57 | all the batches together are exactly the frame |
| Prediction.BatchesDisjoint | SetFIt/SetFit-Pred.py:55-57 | an earlier batch ends no later than a later one starts, both before and after the slice bounds are clipped to the frame |
| Prediction.LabelText | SetFIt/SetFit-Pred.py:80-89 | a code has a label text exactly when it is 0 to 7 |
| Prediction.LabelTextInjective | SetFIt/SetFit-Pred.py:80-89 | the eight label texts are distinct, so a text names one code |
| Prediction.OutCells | SetFIt/SetFit-Pred.py:62-72 | a data line has one cell per output column: the record's nine cells, then its sentence under `Sentences` |
| Prediction.Labelled | SetFIt/SetFit-Pred.py:62-65 | one labelled line per row |
| Prediction.LabelledLines | SetFIt/SetFit-Pred.py:62-65 | the k-th line is the k-th row with the classifier's code and its label text |
| Prediction.WriteBatches | SetFIt/SetFit-Pred.py:53-72 | with no rows the file is left as it was; otherwise it is replaced by one header followed by every labelled row, in order |
| Prediction.ProcessDataframe | SetFIt/SetFit-Pred.py:40-72 | the output file holds one header and the labelled rows of each record's sentences in record order, or is untouched when there are none |
| Prediction.OneHeader | SetFIt/SetFit-Pred.py:67-72 | the written file has exactly one header, first, and one data line per row |
| RecordStore.NatToDecimal | Reddit/Reddit_API.py:133 | a written number has at least one digit |
| RecordStore.NatToDecimalRoundTrip | Reddit/Reddit_API.py:133 | the digits written for a natural number read back as that number, and only zero starts with `0` |
| RecordStore.IntToDecimalRoundTrip | Reddit/Reddit_API.py:133 | the Score cell, an optional minus sign followed by digits, reads back as the score |
| RecordStore.Cells | Reddit/Reddit_API.py:133 | a row is written as one cell per header column, with Type, ID and Author first |
| RecordStore.CellsOf | Reddit/Reddit_API.py:133 | the written lines are the rows' cells, one line per row, in order |
| RecordStore.IdColumn | Reddit/Reddit_API.py:229 | the ID column can be read if and only if every line has at least two cells |
| RecordStore.ExistingIds | Reddit/Reddit_API.py:226-229 | an empty file gives no ids; otherwise the ids can be read exactly when the ID column after the header line can |
| RecordStore.ExistingIdsReadsLines | Reddit/Reddit_API.py:228-229 | reading fails exactly when a line after the first has fewer than two cells; otherwise every such line's ID cell is among the ids |
| RecordStore.ExistingIdsComeFromLines | Reddit/Reddit_API.py:229 | every id read is the ID cell of some line after the first |
| RecordStore.OpenStore | Reddit/Reddit_API.py:218-229 | a missing file is created with the header and gives no ids; an existing file is kept as it is, can be opened exactly when its ID column can be read, and gives the ids read from it |
| RecordStore.HeaderOnlyStoreHasNoIds | Reddit/Reddit_API.py:223-229 | a file holding only the header gives no ids |
| RecordStore.IdColumnAppend | Reddit/Reddit_API.py:229 | the ID column of two blocks of lines is the union of theirs, and fails if either fails |
| RecordStore.IdColumnOfRows | Reddit/Reddit_API.py:229 | the ID column of written rows is exactly their ids |
| RecordStore.AppendedIdsReadBack | Reddit/Reddit_API.py:226-229 | after rows are appended to a file with a header, the ids read back are the old ids plus the new rows' ids |
| RecordStore.HeaderlessFileLosesFirstId | Reddit/Reddit_API.py:228 | in a file without a header the first row is skipped as if it were the header |
| Anonymizer.AnonId | Reddit/Reddit_API.py:112 | an anonymous id is 8 lowercase hex digits, a prefix of the name's digest |
| Anonymizer.LoadNames | Reddit/Reddit_API.py:95-100 | the saved map, or an empty one when there is none |
| Anonymizer.Resolve | Reddit/Reddit_API.py:108-113 | a known handle leaves the map unchanged; a new one adds exactly one entry, its hashed id; no entry ever changes |
| Anonymizer.ResolveIsStable | Reddit/Reddit_API.py:108-109 | once a handle has an id, later lookups return the same id, whatever other handles are added |
| Anonymizer.ResolveAllExtends | Reddit/Reddit_API.py:108-113 | resolving any handles only adds entries |
| Anonymizer.NoCollisionCheck | Reddit/Reddit_API.py:112-113 | two handles whose digests share 8 leading digits get the same id |
| Collector.Accepts | Reddit/Reddit_API.py:123-129 | an accepted item has an id not yet in the file and a raw text longer than 100 characters, since processing never lengthens text |
| Collector.MakeRow | Reddit/Reddit_API.py:133 | the cells written are, column by column, the kind, the id, the anonymous id, the title (the processed text for a post, empty for a comment), the processed text, which is no longer than the raw text, the subreddit, the score, the link and the date; the comment row at :175 has the same layout |
| Collector.VisitUser | Reddit/Reddit_API.py:108-203 | a visit resolves the author's id first, only appends rows, raises the counters by the number of rows appended, and is complete exactly when neither listing raised |
| Collector.Collect | Reddit/Reddit_API.py:103-207 | the author loop never changes an entry of the map, only appends rows, and counts every row it appends |
| Collector.GetPosts | Reddit/Reddit_API.py:82-213 | the saved map keeps every loaded entry, and the two returned counters add up to the rows appended |
| Collector.RunMain | Reddit/Reddit_API.py:215-236 | `main` fails exactly when, in an existing file, a line after the first has fewer than two cells; it keeps the old lines, starts a new file with the header, and grows the file by one line per counted row |
| Collector.Accepted | Reddit/Reddit_API.py:122-136 | a listing yields no more rows than it has items |
| Collector.Scan | Reddit/Reddit_API.py:164-178 | scanning a listing leaves the name map alone |
| Collector.ScanAppendsAccepted | Reddit/Reddit_API.py:122-136 | scanning a listing appends exactly its accepted items' rows, in order, and raises that kind's counter by their number and the other not at all |
| CollectorProps.AcceptedItemWritten | Reddit/Reddit_API.py:123-134 | an item whose id is new and whose processed text is longer than 100 characters is written |
| CollectorProps.WrittenRowIsAccepted | Reddit/Reddit_API.py:165-176 | every written row comes from an item whose id is new and whose processed text is longer than 100 characters |
| CollectorProps.AcceptedIds | Reddit/Reddit_API.py:123-129 | the ids written for a listing are exactly the ids of its accepted items |
| CollectorProps.ScanKeepsValid | Reddit/Reddit_API.py:122-136 | scanning keeps every row valid and each counter equal to the number of rows of its kind |
| CollectorProps.VisitKeepsValid | Reddit/Reddit_API.py:103-203 | visiting an author keeps the invariant, only appends rows, and only adds map entries |
| CollectorProps.CollectKeepsValid | Reddit/Reddit_API.py:103-207 | the author loop keeps the invariant, only appends rows, and only adds map entries |
| CollectorProps.GetPostsIsValid | Reddit/Reddit_API.py:82-213 | every row `GetPosts` appends has a new id, an ASCII body longer than 100 characters, the title its kind demands and a mapped author, and the counters count the rows of each kind |
| CollectorProps.RowsMatchHeader | Reddit/Reddit_API.py:223 | a row has 9 cells, as many as the header |
| CollectorProps.DeletedAuthorSkipped | Reddit/Reddit_API.py:105-107 | a deleted author changes nothing: no map entry, no rows, no counter |
| CollectorProps.SubmissionsFailureSkipsComments | Reddit/Reddit_API.py:141-161 | an exception in the submissions listing keeps the rows already written, skips the comments and the limit check, and moves to the next author |
| CollectorProps.CommentsFailureMovesOn | Reddit/Reddit_API.py:183-203 | an exception in the comments listing keeps the rows written and moves to the next author without the limit check |
| CollectorProps.StopsAtLimit | Reddit/Reddit_API.py:205-207 | the loop stops after an author whose two listings both finished once the counters reach the limit |
| CollectorProps.VisitEffect | Reddit/Reddit_API.py:108-203 | visiting an author resolves its id, appends its accepted submissions and, unless they failed, its accepted comments, and counts each appended row once |
| CollectorProps.CollectUserStep | Reddit/Reddit_API.py:103-207 | one step of the author loop: visit, then stop only when both listings finished and the limit is reached |
| CollectorProps.VisitTwice | Reddit/Reddit_API.py:123 | since `existing_ids` is not updated, visiting the same author twice writes the same rows twice |
| CollectorProps.KnownAuthorKeepsNames | Reddit/Reddit_API.py:108-109 | a known author leaves the map as it is |
| CollectorProps.RepeatedAuthorAppendedTwice | Reddit/Reddit_API.py:123-176 | an author listed twice in a row has every accepted item appended twice |
| CollectorProps.CollectAppendsAcceptedIds | Reddit/Reddit_API.py:103-207 | below the limit, the ids appended in a run are exactly the accepted ids among the items reached |
| CollectorProps.VisitAppendsAcceptedIds | Reddit/Reddit_API.py:121-180 | an author's visit appends exactly the accepted ids of the items reached, and counts at most one per item |
| CollectorProps.NothingAcceptedNothingAppended | Reddit/Reddit_API.py:123-165 | when no reached item is accepted, the loop appends nothing |
| CollectorProps.RerunAppendsNothing | Reddit/Reddit_API.py:215-236 | running `main` again on its own output, with the same authors and the saved map, appends nothing (file missing or non-empty, fewer items than the limit) |

## Left out

- The Reddit client (`reddit.subreddit`, `new`, `user.submissions.new`, `user.comments.new`) is an external network library. Its results are input data: `GetAuthors` gives the author list, and each listing is a sequence of items plus an optional caught exception. `post_limit` is applied by the provider, so listings of any length are accepted.
- Collector.Collect: two authors are the same only when their handles are equal. `Redditor` equality and hashing are not modelled.
- Anonymizer.AnonId: SHA-256 and the UTF-8 encoding of the name are a parameter `sha` returning 64 lowercase hex digits. The digest is not computed.
- CSV quoting and parsing, `pickle` load and save, `.env` loading and file modes are library I/O. The record file is a sequence of lines of cells, and the pickled map is a `map`.
- `time.sleep(90)`, `time.time()` and every `print` have no effect on the data and are left out.
- `datetime.fromtimestamp` depends on floating point and the local time zone. An item carries its date as a ready string.
- The classifier, `model([x]).item()`, is a parameter returning an integer. SetFit training, `Compare-algo/Multi-algo.py`, `Sentence Transformers/ST-API.py` and `Application/Application.py` are machine learning or presentation code and are not part of this model.
- Uncaught exceptions are not modelled. A corrupt pickle at Reddit/Reddit_API.py:97, or an `OverflowError` from `fromtimestamp` at :131 and :173, ends the run. The map is then not saved (:210-211), while the rows already appended stay in the file.
- An item's author is taken to be the user whose listing yields it. The source looks up `hashed_usernames[post.author]` and `hashed_usernames[comment.author]` (Reddit/Reddit_API.py:133, 175), and for a user's own listings that is the same Redditor, so every row carries the visited user's id.
- Prediction.Explode: pandas reads an empty body as NaN, and `split_into_sentences` would then raise. Bodies are strings here.
- TextNormalizer.ReplaceTags: the leftmost, non-overlapping replacement is stated generically by `RegexSub.SubReplacesLeftmost` and `RegexSub.SubCopiesPrefix`, and the tag matcher's choice of the shortest match by `TextNormalizer.TagMatchLenIsShortest` and `TextNormalizerProps.ShortestTagIsMatched`. It is not restated as one lemma about `ReplaceTags`.
- CollectorProps.RerunAppendsNothing: it requires the file to be missing or non-empty, and fewer reached items than `authors_limit`. An existing empty file loses its first row's id. A first run cut short by the limit leaves later authors unread, and the second run appends their items.
