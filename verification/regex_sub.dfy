/** Python's `re.sub(pattern, rep, s)` for a pattern that never matches the
    empty string: the text is scanned left to right; where the pattern
    matches, the match is replaced by `rep` and scanning resumes just after
    it; elsewhere one character is copied and scanning moves on by one. The
    pattern is given as a matcher that reports the length of the match the
    regex engine would pick at the start of a text. */
module RegexSub {

  /** Length of the match at the start of a text, 0 where there is none. */
  type Matcher = string -> nat

  /** A matcher never reports a match longer than the text. */
  ghost predicate Sound(m: Matcher) {
    forall t :: m(t) <= |t|
  }

  /** No position of `s` starts a match. */
  ghost predicate NoMatch(m: Matcher, s: string) {
    forall k :: 0 <= k < |s| ==> m(s[k..]) == 0
  }

  /** Every match is at least as long as its replacement. */
  ghost predicate NeverLonger(m: Matcher, rep: string) {
    forall t :: m(t) == 0 || |rep| <= m(t)
  }

  /** The substitution scanner. */
  function Sub(m: Matcher, rep: string, s: string): (r: string)
    requires Sound(m)
    ensures NeverLonger(m, rep) ==> |r| <= |s|
    decreases |s|
  {
    if |s| == 0 then []
    else if m(s) > 0 then rep + Sub(m, rep, s[m(s)..])
    else [s[0]] + Sub(m, rep, s[1..])
  }

  /** Every character of the result is copied from the text or comes from
      the replacement. */
  lemma {:induction false} SubChars(m: Matcher, rep: string, s: string, c: char)
    requires Sound(m)
    requires c in Sub(m, rep, s)
    ensures c in s || c in rep
    decreases |s|
  {
    if m(s) > 0 {
      var t := s[m(s)..];
      if c !in rep {
        SubChars(m, rep, t, c);
        var k :| 0 <= k < |t| && t[k] == c;
        assert s[m(s) + k] == c;
      }
    } else {
      var t := s[1..];
      if c != s[0] {
        SubChars(m, rep, t, c);
      }
    }
  }

  /** The position of the leftmost match in `s`, or `|s|` when there is none. */
  function FirstMatch(m: Matcher, s: string): (k: nat)
    ensures k <= |s|
    ensures forall j :: 0 <= j < k ==> m(s[j..]) == 0
    ensures k < |s| ==> m(s[k..]) > 0
    decreases |s|
  {
    if |s| == 0 || m(s) > 0 then 0
    else
      var k := 1 + FirstMatch(m, s[1..]);
      assert forall j :: 1 <= j <= |s| ==> s[1..][j - 1..] == s[j..];
      k
  }

  /** With no match anywhere the text comes back unchanged. */
  lemma SubWithoutMatch(m: Matcher, rep: string, s: string)
    requires Sound(m)
    requires FirstMatch(m, s) == |s|
    ensures Sub(m, rep, s) == s
  {
    SubCopiesPrefix(m, rep, s, |s|);
    assert s[..|s|] == s;
  }

  /** What `re.sub` promises: the text up to the leftmost match, at `i`, is
      copied unchanged, that match is replaced by `rep`, and the substitution
      goes on after its end. */
  lemma SubReplacesLeftmost(m: Matcher, rep: string, s: string, i: nat)
    requires Sound(m)
    requires i < |s| && m(s[i..]) > 0
    requires forall j :: 0 <= j < i ==> m(s[j..]) == 0
    ensures Sub(m, rep, s) == s[..i] + rep + Sub(m, rep, s[i + m(s[i..])..])
  {
    SubCopiesPrefix(m, rep, s, i);
    SubAtFirstMatch(m, rep, s, i);
  }

  lemma SubAtFirstMatch(m: Matcher, rep: string, s: string, k: nat)
    requires Sound(m)
    requires k < |s| && m(s[k..]) > 0
    requires Sub(m, rep, s) == s[..k] + Sub(m, rep, s[k..])
    ensures Sub(m, rep, s) == s[..k] + rep + Sub(m, rep, s[k + m(s[k..])..])
  {
    SubAtMatch(m, rep, s, k);
  }

  /** At a position where a match starts, the match is replaced. */
  lemma SubAtMatch(m: Matcher, rep: string, s: string, k: nat)
    requires Sound(m)
    requires k < |s| && m(s[k..]) > 0
    ensures Sub(m, rep, s[k..]) == rep + Sub(m, rep, s[k + m(s[k..])..])
  {
    var u := s[k..];
    assert u[m(u)..] == s[k + m(u)..];
  }

  /** A prefix in which no match starts is copied unchanged. */
  lemma {:induction false} SubCopiesPrefix(m: Matcher, rep: string, s: string, i: nat)
    requires Sound(m)
    requires i <= |s|
    requires forall j :: 0 <= j < i ==> m(s[j..]) == 0
    ensures Sub(m, rep, s) == s[..i] + Sub(m, rep, s[i..])
    decreases i
  {
    if i == 0 {
      assert s[..0] == [] && s[0..] == s;
    } else {
      SubCopiesPrefix(m, rep, s, i - 1);
      SubCopiesOne(m, rep, s, i - 1);
      AppendLast(s, i, Sub(m, rep, s[i..]));
    }
  }

  /** Where no match starts, one character is copied. */
  lemma SubCopiesOne(m: Matcher, rep: string, s: string, i: nat)
    requires Sound(m)
    requires i < |s| && m(s[i..]) == 0
    ensures Sub(m, rep, s[i..]) == [s[i]] + Sub(m, rep, s[i + 1..])
  {
    assert s[i..][1..] == s[i + 1..];
  }

  lemma AppendLast(s: string, i: nat, rest: string)
    requires 0 < i <= |s|
    ensures s[..i - 1] + ([s[i - 1]] + rest) == s[..i] + rest
  {
  }

  /** A text in which the pattern matches nowhere is left unchanged. */
  lemma {:induction false} SubIdentity(m: Matcher, rep: string, s: string)
    requires Sound(m)
    requires NoMatch(m, s)
    ensures Sub(m, rep, s) == s
  {
    assert FirstMatch(m, s) == |s|;
    SubWithoutMatch(m, rep, s);
  }

  /** When every match is strictly longer than its replacement, the text is
      unchanged exactly when the pattern matches nowhere in it. */
  lemma {:induction false} SubUnchangedIff(m: Matcher, rep: string, s: string)
    requires Sound(m)
    requires forall t :: m(t) == 0 || |rep| < m(t)
    ensures Sub(m, rep, s) == s <==> NoMatch(m, s)
  {
    if NoMatch(m, s) {
      SubIdentity(m, rep, s);
    } else {
      var k := FirstMatch(m, s);
      assert k < |s|;
      SubReplacesLeftmost(m, rep, s, k);
      var rest := s[k + m(s[k..])..];
      assert |Sub(m, rep, rest)| <= |rest|;
      assert |Sub(m, rep, s)| < |s|;
    }
  }
}
