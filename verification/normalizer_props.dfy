/** What the normaliser promises, and the edge cases of its two patterns. */
module TextNormalizerProps {
  import opened Chars
  import opened RegexSub
  import opened TextNormalizer

  // ---------------------------------------------------------------------
  // Tag stage
  // ---------------------------------------------------------------------

  /** The tag stage changes a text exactly when some position of it starts
      a match of `<[^<]+?>`: every match is at least three characters long
      and its replacement is one. */
  lemma {:induction false} ReplaceTagsUnchangedIff(s: string)
    ensures ReplaceTags(s) == s <==> NoMatch(TagMatchLen, s)
  {
    TagMatcherSound();
    SubUnchangedIff(TagMatchLen, " ", s);
  }

  /** A text without `<` passes the tag stage unchanged. */
  lemma {:induction false} ReplaceTagsWithoutOpening(s: string)
    requires '<' !in s
    ensures ReplaceTags(s) == s
  {
    forall k | 0 <= k < |s| ensures TagMatchLen(s[k..]) == 0 {
      assert s[k..][0] == s[k];
    }
    ReplaceTagsUnchangedIff(s);
  }

  /** The tag stage only adds spaces: every other character of its result
      comes from the text. */
  lemma {:induction false} ReplaceTagsChars(s: string, c: char)
    requires c in ReplaceTags(s)
    ensures c in s || c == ' '
  {
    TagMatcherSound();
    SubChars(TagMatchLen, " ", s, c);
  }

  /** The lazy `+?` makes the shortest tag at the start of a text the one
      matched. */
  lemma ShortestTagIsMatched(t: string, n: nat)
    requires IsTagMatch(t, n)
    requires forall n': nat :: n' < n ==> !IsTagMatch(t, n')
    ensures TagMatchLen(t) == n
  {
    TagMatchLenIsShortest(t);
  }

  /** `<>` is not a tag: `[^<]+` needs at least one character. */
  lemma EmptyTagKept()
    ensures ReplaceTags("<>") == "<>"
  {
    assert TagMatchLen("<>") == 0;
    assert TagMatchLen(">") == 0;
    assert "<>"[1..] == ">";
    assert ">"[1..] == [];
    TagMatcherSound();
  }

  /** `<>>` is a tag: the first `>` is the character inside it. */
  lemma GreaterInsideTag()
    ensures ReplaceTags("<>>") == " "
  {
    assert IsTagMatch("<>>", 3);
    assert TagMatchLen("<>>") == 3;
    assert "<>>"[3..] == [];
    TagMatcherSound();
  }

  /** One pass is not enough to remove every tag: in `<<a>b>` the first `<`
      cannot open a tag, `<a>` is replaced, and the result `< b>` is itself
      a tag. */
  lemma OnePassLeavesTag()
    ensures ReplaceTags("<<a>b>") == "< b>"
    ensures IsTagMatch("< b>", 4)
  {
    var s := "<<a>b>";
    TagMatcherSound();
    assert TagMatchLen(s) == 0 by {
      assert forall n :: !IsTagMatch(s, n);
    }
    assert s[1..] == "<a>b>";
    assert IsTagMatch("<a>b>", 3);
    assert TagMatchLen("<a>b>") == 3;
    assert s[1..][3..] == "b>";
    assert TagMatchLen("b>") == 0;
    assert TagMatchLen(">") == 0;
    assert "b>"[1..] == ">";
    assert ">"[1..] == [];
    assert ReplaceTags("b>") == "b>";
    assert ReplaceTags("<a>b>") == " " + "b>";
  }

  // ---------------------------------------------------------------------
  // URL stage
  // ---------------------------------------------------------------------

  /** The URL stage changes a text exactly when some position of it starts
      a match of `http\S+|www.\S+`. */
  lemma {:induction false} DeleteUrlsUnchangedIff(s: string)
    ensures DeleteUrls(s) == s <==> NoMatch(UrlMatchLen, s)
  {
    UrlMatcherSound();
    forall t ensures UrlMatchLen(t) == 0 || 0 < UrlMatchLen(t) {
    }
    SubUnchangedIff(UrlMatchLen, "", s);
  }

  /** A text in which neither `http` nor `www` occurs passes the URL stage
      unchanged. */
  lemma {:induction false} DeleteUrlsWithoutPrefix(s: string)
    requires !HasInfix(s, "http") && !HasInfix(s, "www")
    ensures DeleteUrls(s) == s
  {
    forall k | 0 <= k < |s| ensures UrlMatchLen(s[k..]) == 0 {
      var t := s[k..];
      assert !("http" <= t) && !("www" <= t);
      assert |t| >= 4 ==> t[..4] != "http";
      assert |t| >= 3 ==> t[..3] != "www";
    }
    DeleteUrlsUnchangedIff(s);
  }

  /** The URL stage only deletes: every character of its result comes from
      the text. */
  lemma {:induction false} DeleteUrlsChars(s: string, c: char)
    requires c in DeleteUrls(s)
    ensures c in s
  {
    UrlMatcherSound();
    SubChars(UrlMatchLen, "", s, c);
  }

  /** The `.` of `www.` matches a space, so `www x` is deleted whole. */
  lemma DotMatchesSpace()
    ensures DeleteUrls("www x") == ""
  {
    assert "www x"[..3] == "www";
    assert UrlMatchLen("www x") == 5;
    assert "www x"[5..] == [];
    UrlMatcherSound();
  }

  /** The `.` of `www.` does not match a newline, so nothing is deleted from
      `www\nx`. */
  lemma DotSkipsNewline()
    ensures DeleteUrls("www\nx") == "www\nx"
  {
    var s := "www\nx";
    forall k | 0 <= k < |s| ensures UrlMatchLen(s[k..]) == 0 {
      assert |s[k..]| < 5 || s[k..][3] == '\n';
      if k == 0 {
        assert s[..4] != "http";
      }
    }
    DeleteUrlsUnchangedIff(s);
  }

  /** `\S+` is greedy: `http://a b` loses the whole token, and the space
      after it is kept. */
  lemma UrlTokenDeleted()
    ensures DeleteUrls("http://a b") == " b"
  {
    var s := "http://a b";
    UrlMatcherSound();
    HttpTokenLength();
    DeleteUrlsWithoutPrefix(" b");
    assert s[8..] == " b";
    SubReplacesLeftmost(UrlMatchLen, "", s, 0);
    assert s[0..] == s && s[..0] == [];
  }

  /** The match at the start of `http://a b` stops before the space. */
  lemma HttpTokenLength()
    ensures UrlMatchLen("http://a b") == 8
  {
    var s := "http://a b";
    assert s[..4] == "http";
    assert s[4..] == "://a b";
    assert NonSpaceRun(" b") == 0;
    assert "a b"[1..] == " b";
    assert NonSpaceRun("a b") == 1;
    assert "/a b"[1..] == "a b";
    assert "//a b"[1..] == "/a b";
    assert "://a b"[1..] == "//a b";
    assert NonSpaceRun("://a b") == 4;
  }

  // ---------------------------------------------------------------------
  // Non-ASCII stage
  // ---------------------------------------------------------------------

  /** Dropping non-ASCII characters works piece by piece: together with
      keeping ASCII text and deleting a single non-ASCII character it pins
      the stage down. */
  lemma {:induction false} DropNonAsciiAppend(a: string, b: string)
    ensures DropNonAscii(a + b) == DropNonAscii(a) + DropNonAscii(b)
    decreases |a|
  {
    if |a| == 0 {
      assert a + b == b;
    } else {
      assert (a + b)[0] == a[0];
      assert (a + b)[1..] == a[1..] + b;
      DropNonAsciiAppend(a[1..], b);
      if IsAscii(a[0]) {
        assert DropNonAscii(a + b) == [a[0]] + DropNonAscii(a[1..] + b);
        assert DropNonAscii(a) == [a[0]] + DropNonAscii(a[1..]);
      }
    }
  }

  lemma DropNonAsciiSingle(c: char)
    ensures DropNonAscii([c]) == if IsAscii(c) then [c] else []
  {
    assert [c][1..] == [];
  }

  // ---------------------------------------------------------------------
  // The two `process_text` functions
  // ---------------------------------------------------------------------

  /** An ASCII text with no `<`, no `http` and no `www` comes back unchanged
      from the collector's `process_text`. */
  lemma ProcessTextUnchanged(s: string)
    requires IsAsciiText(s)
    requires '<' !in s && !HasInfix(s, "http") && !HasInfix(s, "www")
    ensures ProcessText(s) == s
  {
    ReplaceTagsWithoutOpening(s);
    DeleteUrlsWithoutPrefix(s);
    DropNonAsciiIsAscii(s);
  }

  /** A text with no `<`, no `http` and no `www` comes back unchanged from
      the training script's `process_text`, non-ASCII characters included. */
  lemma ProcessTrainTextUnchanged(s: string)
    requires '<' !in s && !HasInfix(s, "http") && !HasInfix(s, "www")
    ensures ProcessTrainText(s) == s
  {
    ReplaceTagsWithoutOpening(s);
    DeleteUrlsWithoutPrefix(s);
  }

  /** The training script's version adds at most spaces to the characters of
      the text; it never drops a character for being non-ASCII. */
  lemma ProcessTrainTextChars(s: string, c: char)
    requires c in ProcessTrainText(s)
    ensures c in s || c == ' '
  {
    DeleteUrlsChars(ReplaceTags(s), c);
    ReplaceTagsChars(s, c);
  }

  /** The collector's `process_text` is the training script's followed by
      deleting every non-ASCII character. */
  lemma CollectorIsTrainWithoutNonAscii(s: string)
    ensures ProcessText(s) == DropNonAscii(ProcessTrainText(s))
  {
  }
}
