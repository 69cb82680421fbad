/** `process_text` of the collector (three `re.sub` stages) and of the
    training script (the first two stages only). */
module TextNormalizer {
  import opened Chars
  import opened RegexSub

  // ---------------------------------------------------------------------
  // Stage 1: `re.sub('<[^<]+?>', ' ', text)`
  // ---------------------------------------------------------------------

  /** `s[..n]` is a match of `<[^<]+?>`: an opening `<`, at least one
      character other than `<`, and a closing `>`. */
  predicate IsTagMatch(s: string, n: nat) {
    && 3 <= n <= |s|
    && s[0] == '<'
    && s[n - 1] == '>'
    && forall k :: 1 <= k < n - 1 ==> s[k] != '<'
  }

  /** Scans for the `>` that closes the tag opened at `s[0]`, from index
      `k` on; 0 when the tag is never closed. */
  function TagCloseFrom(s: string, k: nat): (j: nat)
    requires 1 <= k
    ensures j == 0 || (2 <= j && k <= j < |s|)
    decreases |s| - k
  {
    if k >= |s| || s[k] == '<' then 0
    else if s[k] == '>' && k >= 2 then k
    else TagCloseFrom(s, k + 1)
  }

  /** The scan finds the first `>` after at least one other character, and
      gives up at a second `<` or at the end of the text. */
  lemma {:induction false} TagCloseFromFinds(s: string, k: nat)
    requires 1 <= k && |s| > 0 && s[0] == '<'
    requires forall i :: 1 <= i < k && i < |s| ==> s[i] != '<'
    requires forall i :: 2 <= i < k && i < |s| ==> s[i] != '>'
    ensures var j := TagCloseFrom(s, k);
            && (j > 0 ==> IsTagMatch(s, j + 1))
            && (j > 0 ==> forall n: nat :: n <= j ==> !IsTagMatch(s, n))
            && (j == 0 ==> forall n :: !IsTagMatch(s, n))
    decreases |s| - k
  {
    if !(k >= |s| || s[k] == '<') && !(s[k] == '>' && k >= 2) {
      TagCloseFromFinds(s, k + 1);
    }
  }

  /** Length of the match of `<[^<]+?>` at the start of `s`: the lazy
      quantifier makes it the shortest match; 0 when there is none. */
  function TagMatchLen(s: string): (n: nat)
    ensures n == 0 || 3 <= n <= |s|
  {
    if |s| > 0 && s[0] == '<' then
      var j := TagCloseFrom(s, 1);
      if j == 0 then 0 else j + 1
    else
      0
  }

  /** `TagMatchLen` is the length of the shortest tag match, and 0 exactly
      when no prefix of the text is a tag. */
  lemma TagMatchLenIsShortest(s: string)
    ensures var n := TagMatchLen(s);
            && (n > 0 ==> IsTagMatch(s, n))
            && (n > 0 ==> forall n': nat :: n' < n ==> !IsTagMatch(s, n'))
            && (n == 0 ==> forall n' :: !IsTagMatch(s, n'))
  {
    if |s| > 0 && s[0] == '<' {
      TagCloseFromFinds(s, 1);
    }
  }

  lemma TagMatcherSound()
    ensures Sound(TagMatchLen)
  {
  }

  /** Every tag match, found left to right without overlap, becomes one space. */
  function ReplaceTags(s: string): (r: string)
    ensures |r| <= |s|
  {
    TagMatcherSound();
    Sub(TagMatchLen, " ", s)
  }

  // ---------------------------------------------------------------------
  // Stage 2: `re.sub(r'http\S+|www.\S+', '', text)`
  // ---------------------------------------------------------------------

  /** Length of the longest prefix of `s` holding no whitespace. */
  function NonSpaceRun(s: string): (n: nat)
    ensures n <= |s|
  {
    if |s| == 0 || IsSpace(s[0]) then 0
    else 1 + NonSpaceRun(s[1..])
  }

  /** The run holds no whitespace and stops at whitespace or the end. */
  lemma {:induction false} NonSpaceRunIsLongest(s: string)
    ensures var n := NonSpaceRun(s);
            && (forall k :: 0 <= k < n ==> !IsSpace(s[k]))
            && (n == |s| || IsSpace(s[n]))
    decreases |s|
  {
    if !(|s| == 0 || IsSpace(s[0])) {
      NonSpaceRunIsLongest(s[1..]);
      var n := NonSpaceRun(s);
      forall k | 0 <= k < n ensures !IsSpace(s[k]) {
        if k > 0 {
          assert s[k] == s[1..][k - 1];
        }
      }
    }
  }

  /** `s[..n]` is a match of `http\S+` or of `www.\S+`, where the
      unescaped `.` stands for any character but a newline. */
  predicate IsUrlMatch(s: string, n: nat) {
    && 5 <= n <= |s|
    && (s[..4] == "http" || (s[..3] == "www" && s[3] != '\n'))
    && forall k :: 4 <= k < n ==> !IsSpace(s[k])
  }

  /** Length of the match of `http\S+|www.\S+` at the start of `s`: the
      greedy `\S+` makes it the longest match; 0 when there is none. */
  function UrlMatchLen(s: string): (n: nat)
    ensures n == 0 || 5 <= n <= |s|
  {
    if |s| < 5 then 0
    else if s[..4] == "http" && !IsSpace(s[4]) then 4 + NonSpaceRun(s[4..])
    else if s[..3] == "www" && s[3] != '\n' && !IsSpace(s[4]) then 4 + NonSpaceRun(s[4..])
    else 0
  }

  /** `UrlMatchLen` is the length of the longest URL match, and 0 exactly
      when no prefix of the text is one. */
  lemma UrlMatchLenIsLongest(s: string)
    ensures var n := UrlMatchLen(s);
            && (n > 0 ==> IsUrlMatch(s, n))
            && (n > 0 ==> forall n' :: n < n' ==> !IsUrlMatch(s, n'))
            && (n == 0 ==> forall n' :: !IsUrlMatch(s, n'))
  {
    if |s| >= 5 {
      var t := s[4..];
      NonSpaceRunIsLongest(t);
      var r := NonSpaceRun(t);
      assert forall k :: 4 <= k < 4 + r ==> s[k] == t[k - 4];
      if 4 + r < |s| {
        assert s[4 + r] == t[r];
      }
    }
  }

  lemma UrlMatcherSound()
    ensures Sound(UrlMatchLen)
  {
  }

  /** Every URL match, found left to right without overlap, is deleted. */
  function DeleteUrls(s: string): (r: string)
    ensures |r| <= |s|
  {
    UrlMatcherSound();
    Sub(UrlMatchLen, "", s)
  }

  // ---------------------------------------------------------------------
  // Stage 3: `re.sub('[^\x00-\x7F]+', '', text)`
  // ---------------------------------------------------------------------

  /** Deleting every run of characters above U+007F keeps the ASCII
      characters in order and nothing else. */
  function DropNonAscii(s: string): (r: string)
    ensures |r| <= |s|
  {
    if |s| == 0 then []
    else if IsAscii(s[0]) then [s[0]] + DropNonAscii(s[1..])
    else DropNonAscii(s[1..])
  }

  /** What is left is ASCII, and ASCII text is left alone. */
  lemma {:induction false} DropNonAsciiIsAscii(s: string)
    ensures IsAsciiText(DropNonAscii(s))
    ensures IsAsciiText(s) ==> DropNonAscii(s) == s
    decreases |s|
  {
    if |s| > 0 {
      DropNonAsciiIsAscii(s[1..]);
    }
  }

  // ---------------------------------------------------------------------
  // The two `process_text` functions
  // ---------------------------------------------------------------------

  /** `process_text` of the collector: tags, then URLs, then non-ASCII. */
  function ProcessText(s: string): (r: string)
    ensures |r| <= |s|
  {
    DropNonAscii(DeleteUrls(ReplaceTags(s)))
  }

  /** The collector's `process_text` leaves only ASCII characters. */
  lemma ProcessTextIsAscii(s: string)
    ensures IsAsciiText(ProcessText(s))
  {
    DropNonAsciiIsAscii(DeleteUrls(ReplaceTags(s)));
  }

  /** `process_text` of the training script: tags, then URLs. */
  function ProcessTrainText(s: string): (r: string)
    ensures |r| <= |s|
  {
    DeleteUrls(ReplaceTags(s))
  }
}
