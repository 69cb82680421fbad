/** The `hashed_usernames` map of the collector: a user name is replaced by
    the first eight hexadecimal digits of the SHA-256 digest of its UTF-8
    bytes. SHA-256 itself is a parameter. */
module Anonymizer {
  import opened Common
  import opened Chars

  type Handle = string

  /** A `hexdigest()` of SHA-256: 64 lowercase hexadecimal digits. */
  type Digest = s: string | |s| == 64 && IsLowerHex(s)
    witness seq(64, _ => '0')

  /** `hashlib.sha256(name.encode()).hexdigest()` */
  type Hasher = Handle -> Digest

  type Names = map<Handle, string>

  const AnonIdLength := 8

  /** `...hexdigest()[:8]`: eight lowercase hex digits, a prefix of the
      digest. */
  function AnonId(sha: Hasher, h: Handle): (id: string)
    ensures |id| == AnonIdLength && IsLowerHex(id)
    ensures id <= sha(h)
  {
    sha(h)[..AnonIdLength]
  }

  /** The pickled map, or an empty one when the file is not found. */
  function LoadNames(saved: Option<Names>): (names: Names)
    ensures saved.Some? ==> names == saved.value
    ensures saved.None? ==> names == map[]
  {
    saved.GetOr(map[])
  }

  /** Every entry of `a` is in `b` with the same value. */
  predicate Extends(a: Names, b: Names) {
    forall h :: h in a ==> h in b && b[h] == a[h]
  }

  /** The lookup-or-insert of `GetPosts`: a known handle keeps its id and the
      map is left as it is; a new handle gets the hash-derived id. No entry
      ever changes, and nothing checks whether the new id is taken. */
  function Resolve(names: Names, h: Handle, sha: Hasher): (r: Names)
    ensures h in r && Extends(names, r)
    ensures h in names ==> r == names
    ensures h !in names ==> r.Keys == names.Keys + {h} && r[h] == AnonId(sha, h)
  {
    if h in names then names else names[h := AnonId(sha, h)]
  }

  /** Resolving a handle twice, with other handles resolved in between,
      gives the same id both times. */
  lemma ResolveIsStable(names: Names, h: Handle, others: seq<Handle>, sha: Hasher)
    ensures var first := Resolve(names, h, sha);
            var later := ResolveAll(first, others, sha);
            Resolve(later, h, sha)[h] == first[h]
  {
    ResolveAllExtends(Resolve(names, h, sha), others, sha);
  }

  /** Resolves the handles one after the other. */
  function ResolveAll(names: Names, hs: seq<Handle>, sha: Hasher): Names
    decreases |hs|
  {
    if |hs| == 0 then names else ResolveAll(Resolve(names, hs[0], sha), hs[1..], sha)
  }

  lemma {:induction false} ResolveAllExtends(names: Names, hs: seq<Handle>, sha: Hasher)
    ensures Extends(names, ResolveAll(names, hs, sha))
    decreases |hs|
  {
    if |hs| > 0 {
      ResolveAllExtends(Resolve(names, hs[0], sha), hs[1..], sha);
    }
  }

  /** Two handles whose digests share their first eight digits get the same
      id: there is no collision check. */
  lemma NoCollisionCheck(names: Names, a: Handle, b: Handle, sha: Hasher)
    requires a != b && a !in names && b !in names
    requires sha(a)[..AnonIdLength] == sha(b)[..AnonIdLength]
    ensures var r := Resolve(Resolve(names, a, sha), b, sha);
            r[a] == r[b]
  {
  }
}
