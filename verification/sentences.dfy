/** `split_into_sentences` of the inference script: `re.split(r'[.!?]')`,
    `str.strip()` on every piece, and only pieces longer than 50 characters
    kept. */
module Sentences {
  import opened Chars

  /** Pieces of 50 characters or fewer are dropped. */
  const MinSentenceLength := 50

  predicate IsDelimiter(c: char) {
    c == '.' || c == '!' || c == '?'
  }

  predicate NoDelimiter(p: string) {
    forall k :: 0 <= k < |p| ==> !IsDelimiter(p[k])
  }

  /** The delimiters of `s`, in order. */
  function Delimiters(s: string): (d: string)
    ensures |d| <= |s|
    ensures forall k :: 0 <= k < |d| ==> IsDelimiter(d[k])
  {
    if |s| == 0 then []
    else if IsDelimiter(s[0]) then [s[0]] + Delimiters(s[1..])
    else Delimiters(s[1..])
  }

  // ---------------------------------------------------------------------
  // `re.split(r'[.!?]', text)`
  // ---------------------------------------------------------------------

  /** The pieces between delimiters, empty ones included: one more piece
      than there are delimiters, none holding a delimiter. */
  function Split(s: string): (r: seq<string>)
    ensures |r| == |Delimiters(s)| + 1
  {
    if |s| == 0 then [""]
    else if IsDelimiter(s[0]) then [""] + Split(s[1..])
    else
      var rest := Split(s[1..]);
      [[s[0]] + rest[0]] + rest[1..]
  }

  /** No piece of the split holds a delimiter. */
  lemma {:induction false} SplitPieceHasNoDelimiter(s: string, k: nat)
    requires k < |Split(s)|
    ensures NoDelimiter(Split(s)[k])
    decreases |s|
  {
    if |s| > 0 {
      var rest := Split(s[1..]);
      if IsDelimiter(s[0]) {
        if k > 0 {
          SplitPieceHasNoDelimiter(s[1..], k - 1);
        }
      } else if k == 0 {
        SplitPieceHasNoDelimiter(s[1..], 0);
        var p := [s[0]] + rest[0];
        forall i | 0 <= i < |p| ensures !IsDelimiter(p[i]) {
          if i > 0 {
            assert p[i] == rest[0][i - 1];
          }
        }
      } else {
        SplitPieceHasNoDelimiter(s[1..], k);
      }
    }
  }

  /** Puts the delimiters back between the pieces. */
  function Interleave(ps: seq<string>, ds: string): string
    requires |ps| == |ds| + 1
    decreases |ds|
  {
    if |ds| == 0 then ps[0]
    else ps[0] + [ds[0]] + Interleave(ps[1..], ds[1..])
  }

  // ---------------------------------------------------------------------
  // `str.strip()`
  // ---------------------------------------------------------------------

  /** Drops leading whitespace. */
  function TrimStart(s: string): (r: string)
    ensures |r| <= |s|
  {
    if |s| > 0 && IsSpace(s[0]) then TrimStart(s[1..]) else s
  }

  /** `TrimStart` keeps a suffix, drops only whitespace, and stops at the
      first character that is not whitespace. */
  lemma {:induction false} TrimStartFacts(s: string)
    ensures var r := TrimStart(s);
            && r == s[|s| - |r|..]
            && (forall k :: 0 <= k < |s| - |r| ==> IsSpace(s[k]))
            && (r == [] || !IsSpace(r[0]))
    decreases |s|
  {
    if |s| > 0 && IsSpace(s[0]) {
      var t := s[1..];
      TrimStartFacts(t);
      var r := TrimStart(t);
      assert t[|t| - |r|..] == s[|s| - |r|..];
      forall k | 0 <= k < |s| - |r| ensures IsSpace(s[k]) {
        if k > 0 {
          assert s[k] == t[k - 1];
        }
      }
    }
  }

  /** Drops trailing whitespace. */
  function TrimEnd(s: string): (r: string)
    ensures |r| <= |s|
  {
    if |s| > 0 && IsSpace(s[|s| - 1]) then TrimEnd(s[..|s| - 1]) else s
  }

  /** `TrimEnd` keeps a prefix, drops only whitespace, and stops at the last
      character that is not whitespace. */
  lemma {:induction false} TrimEndFacts(s: string)
    ensures var r := TrimEnd(s);
            && r == s[..|r|]
            && (forall k :: |r| <= k < |s| ==> IsSpace(s[k]))
            && (r == [] || !IsSpace(r[|r| - 1]))
    decreases |s|
  {
    if |s| > 0 && IsSpace(s[|s| - 1]) {
      var t := s[..|s| - 1];
      TrimEndFacts(t);
      var r := TrimEnd(t);
      assert t[..|r|] == s[..|r|];
      forall k | |r| <= k < |s| ensures IsSpace(s[k]) {
        if k < |s| - 1 {
          assert s[k] == t[k];
        }
      }
    }
  }

  /** Where the stripped text starts inside `s`. */
  function StripStart(s: string): nat {
    |s| - |TrimStart(s)|
  }

  /** `str.strip()`. */
  function Strip(s: string): (r: string)
    ensures |r| <= |s|
  {
    TrimEnd(TrimStart(s))
  }

  /** `str.strip()` gives an infix of `s`, starting at `StripStart(s)`, that
      neither starts nor ends with whitespace. */
  lemma StripIsTrimmedInfix(s: string)
    ensures StripStart(s) + |Strip(s)| <= |s|
    ensures Strip(s) == s[StripStart(s)..StripStart(s) + |Strip(s)|]
    ensures IsTrimmed(Strip(s))
  {
    var t := TrimStart(s);
    var r := TrimEnd(t);
    var a := |s| - |t|;
    TrimStartFacts(s);
    TrimEndFacts(t);
    assert t == s[a..] && r == t[..|r|];
    assert s[a..][..|r|] == s[a..a + |r|];
    if |r| > 0 {
      assert r[0] == t[0];
    }
  }

  /** `str.strip()` removes whitespace only, at both ends. */
  lemma StripDropsOnlyWhitespace(s: string)
    ensures forall k :: 0 <= k < StripStart(s) ==> IsSpace(s[k])
    ensures forall k :: StripStart(s) + |Strip(s)| <= k < |s| ==> IsSpace(s[k])
  {
    var t := TrimStart(s);
    var a := |s| - |t|;
    TrimStartFacts(s);
    TrimEndFacts(t);
    forall k | a + |Strip(s)| <= k < |s| ensures IsSpace(s[k]) {
      assert s[k] == t[k - a];
    }
  }

  /** Neither starts nor ends with whitespace. */
  predicate IsTrimmed(p: string) {
    p == [] || (!IsSpace(p[0]) && !IsSpace(p[|p| - 1]))
  }

  lemma StripKeepsNoDelimiter(p: string)
    requires NoDelimiter(p)
    ensures NoDelimiter(Strip(p)) && IsTrimmed(Strip(p))
  {
    var r := Strip(p);
    StripIsTrimmedInfix(p);
    InfixKeepsNoDelimiter(p, StripStart(p), r);
  }

  lemma InfixKeepsNoDelimiter(p: string, a: nat, r: string)
    requires NoDelimiter(p)
    requires a + |r| <= |p| && r == p[a..a + |r|]
    ensures NoDelimiter(r)
  {
    forall k | 0 <= k < |r| ensures !IsDelimiter(r[k]) {
      assert r[k] == p[a + k];
    }
  }

  // ---------------------------------------------------------------------
  // The two list comprehensions
  // ---------------------------------------------------------------------

  /** `[s.strip() for s in sentences]` */
  function StripAll(ps: seq<string>): (r: seq<string>)
    ensures |r| == |ps|
  {
    if |ps| == 0 then [] else [Strip(ps[0])] + StripAll(ps[1..])
  }

  /** Element `k` of the stripped list is piece `k`, stripped. */
  lemma {:induction false} StripAllAt(ps: seq<string>, k: nat)
    requires k < |ps|
    ensures StripAll(ps)[k] == Strip(ps[k])
    decreases |ps|
  {
    if k > 0 {
      StripAllAt(ps[1..], k - 1);
    }
  }

  /** The filter `s and len(s) > 50`. */
  predicate IsKept(p: string) {
    |p| > 0 && |p| > MinSentenceLength
  }

  /** `[s for s in sentences if s and len(s) > 50]` */
  function KeepLong(ps: seq<string>): (r: seq<string>)
    ensures |r| <= |ps|
  {
    if |ps| == 0 then []
    else if IsKept(ps[0]) then [ps[0]] + KeepLong(ps[1..])
    else KeepLong(ps[1..])
  }

  /** The filter keeps exactly the long pieces. */
  lemma {:induction false} KeepLongKeeps(ps: seq<string>, x: string)
    ensures x in KeepLong(ps) <==> x in ps && IsKept(x)
    decreases |ps|
  {
    if |ps| > 0 {
      KeepLongKeeps(ps[1..], x);
      assert x in ps <==> x == ps[0] || x in ps[1..];
    }
  }

  /** `split_into_sentences(text)`. Every sentence is longer than 50
      characters, holds no `.`, `!` or `?`, neither starts nor ends with
      whitespace, and there is at most one more sentence than delimiters. */
  function SplitIntoSentences(text: string): (r: seq<string>)
    ensures |r| <= |Delimiters(text)| + 1
    ensures forall k :: 0 <= k < |r| ==> |r[k]| > MinSentenceLength
    ensures forall k :: 0 <= k < |r| ==> NoDelimiter(r[k])
    ensures forall k :: 0 <= k < |r| ==> IsTrimmed(r[k])
  {
    var r := KeepLong(StripAll(Split(text)));
    SentencesAreStrippedPieces(text, r);
    r
  }

  lemma SentencesAreStrippedPieces(text: string, r: seq<string>)
    requires r == KeepLong(StripAll(Split(text)))
    ensures forall k :: 0 <= k < |r| ==> |r[k]| > MinSentenceLength && NoDelimiter(r[k]) && IsTrimmed(r[k])
  {
    var ps := Split(text);
    var stripped := StripAll(ps);
    forall k | 0 <= k < |r| ensures |r[k]| > MinSentenceLength && NoDelimiter(r[k]) && IsTrimmed(r[k]) {
      KeepLongKeeps(stripped, r[k]);
      var j :| 0 <= j < |stripped| && stripped[j] == r[k];
      StripAllAt(ps, j);
      SplitPieceHasNoDelimiter(text, j);
      StripKeepsNoDelimiter(ps[j]);
    }
  }

  // ---------------------------------------------------------------------
  // Properties
  // ---------------------------------------------------------------------

  /** Splitting loses nothing: putting the delimiters back between the
      pieces gives the text again. */
  lemma {:induction false} SplitRoundTrip(s: string)
    ensures Interleave(Split(s), Delimiters(s)) == s
    decreases |s|
  {
    if |s| > 0 {
      var t := s[1..];
      SplitRoundTrip(t);
      var ps, ds := Split(t), Delimiters(t);
      if IsDelimiter(s[0]) {
        assert Split(s)[1..] == ps;
        assert Interleave(Split(s), Delimiters(s)) == "" + [s[0]] + Interleave(ps, ds);
      } else if |ds| == 0 {
        assert Interleave(Split(s), Delimiters(s)) == [s[0]] + ps[0];
      } else {
        var qs := Split(s);
        assert qs[1..] == ps[1..];
        assert Interleave(qs, ds) == [s[0]] + ps[0] + [ds[0]] + Interleave(ps[1..], ds[1..]);
      }
    }
  }

  /** The strings of `rs` occur in `s` as contiguous pieces, in the same
      order and without overlapping. */
  predicate Embeds(rs: seq<string>, s: string)
    decreases |s|, |rs|
  {
    if |rs| == 0 then true
    else (rs[0] <= s && Embeds(rs[1..], s[|rs[0]|..])) || (|s| > 0 && Embeds(rs, s[1..]))
  }

  /** What fits into a suffix of `s` fits into `s`. */
  lemma {:induction false} EmbedsSkip(rs: seq<string>, s: string, k: nat)
    requires k <= |s| && Embeds(rs, s[k..])
    ensures Embeds(rs, s)
    decreases k
  {
    if k > 0 && |rs| > 0 {
      assert s[1..][k - 1..] == s[k..];
      EmbedsSkip(rs, s[1..], k - 1);
    }
  }

  /** `x` at offset `a`, followed by `rs` in what comes after it. */
  lemma {:induction false} EmbedsCons(x: string, rs: seq<string>, s: string, a: nat)
    requires a + |x| <= |s| && s[a..a + |x|] == x
    requires Embeds(rs, s[a + |x|..])
    ensures Embeds([x] + rs, s)
  {
    var u := s[a..];
    assert x <= u;
    assert u[|x|..] == s[a + |x|..];
    assert ([x] + rs)[1..] == rs;
    assert Embeds([x] + rs, u);
    EmbedsSkip([x] + rs, s, a);
  }

  lemma {:induction false} EmbedsInterleave(ps: seq<string>, ds: string)
    requires |ps| == |ds| + 1
    ensures Embeds(ps, Interleave(ps, ds))
    decreases |ds|
  {
    var s := Interleave(ps, ds);
    if |ds| == 0 {
      assert ps == [ps[0]] + ps[1..];
      assert s[0..|ps[0]|] == ps[0];
      EmbedsCons(ps[0], ps[1..], s, 0);
    } else {
      var rest := Interleave(ps[1..], ds[1..]);
      EmbedsInterleave(ps[1..], ds[1..]);
      var tail := [ds[0]] + rest;
      assert tail[1..] == rest;
      EmbedsSkip(ps[1..], tail, 1);
      assert s == ps[0] + tail;
      assert s[|ps[0]|..] == tail;
      assert s[0..|ps[0]|] == ps[0];
      EmbedsCons(ps[0], ps[1..], s, 0);
      assert ps == [ps[0]] + ps[1..];
    }
  }

  lemma {:induction false} EmbedsStripAll(ps: seq<string>, s: string)
    requires Embeds(ps, s)
    ensures Embeds(StripAll(ps), s)
    decreases |s|, |ps|
  {
    if |ps| > 0 {
      if ps[0] <= s && Embeds(ps[1..], s[|ps[0]|..]) {
        EmbedsStripAll(ps[1..], s[|ps[0]|..]);
        var p := ps[0];
        StripIsTrimmedInfix(p);
        EmbedsInfixHead(p, Strip(p), StripStart(p), StripAll(ps[1..]), s);
        assert StripAll(ps) == [Strip(p)] + StripAll(ps[1..]);
      } else {
        EmbedsStripAll(ps, s[1..]);
        EmbedsSkip(StripAll(ps), s, 1);
      }
    }
  }

  /** An infix `r` of a piece `p` that starts `s` can stand for `p`. */
  lemma {:induction false} EmbedsInfixHead(p: string, r: string, a: nat, rest: seq<string>, s: string)
    requires p <= s
    requires a + |r| <= |p| && r == p[a..a + |r|]
    requires Embeds(rest, s[|p|..])
    ensures Embeds([r] + rest, s)
  {
    var b := a + |r|;
    assert s[b..][|p| - b..] == s[|p|..];
    EmbedsSkip(rest, s[b..], |p| - b);
    assert s[a..b] == r by {
      assert forall i :: 0 <= i < |p| ==> p[i] == s[i];
      forall i | 0 <= i < |r| ensures s[a..b][i] == r[i] {
        assert s[a..b][i] == s[a + i] == p[a + i];
      }
    }
    EmbedsCons(r, rest, s, a);
  }

  lemma {:induction false} EmbedsKeepLong(ps: seq<string>, s: string)
    requires Embeds(ps, s)
    ensures Embeds(KeepLong(ps), s)
    decreases |s|, |ps|
  {
    if |ps| > 0 {
      if ps[0] <= s && Embeds(ps[1..], s[|ps[0]|..]) {
        var p := ps[0];
        EmbedsKeepLong(ps[1..], s[|p|..]);
        if IsKept(p) {
          assert s[0..|p|] == p;
          EmbedsCons(p, KeepLong(ps[1..]), s, 0);
        } else {
          EmbedsSkip(KeepLong(ps[1..]), s, |p|);
        }
      } else {
        EmbedsKeepLong(ps, s[1..]);
        EmbedsSkip(KeepLong(ps), s, 1);
      }
    }
  }

  /** The sentences are contiguous pieces of the text, in text order. */
  lemma SentencesInOrder(text: string)
    ensures Embeds(SplitIntoSentences(text), text)
  {
    SplitRoundTrip(text);
    EmbedsInterleave(Split(text), Delimiters(text));
    EmbedsStripAll(Split(text), text);
    EmbedsKeepLong(StripAll(Split(text)), text);
  }

  /** A string is a sentence of `text` exactly when it is a stripped piece of
      the split that is longer than 50 characters. */
  lemma SentenceMembership(text: string, x: string)
    ensures x in SplitIntoSentences(text) <==>
            IsKept(x) && exists k :: 0 <= k < |Split(text)| && Strip(Split(text)[k]) == x
  {
    var ps := Split(text);
    var stripped := StripAll(ps);
    KeepLongKeeps(stripped, x);
    forall k | 0 <= k < |ps| ensures stripped[k] == Strip(ps[k]) {
      StripAllAt(ps, k);
    }
  }
}
