/**
 * The three textual tests the scan applies to one log line: the failure
 * marker (a plain substring test), the digest pattern `sha256:[A-Fa-f0-9]{64}`
 * and the request-URI pattern
 * `"http.request.uri":"/api/v0/repositories/([^/]*)/([^/]*)`.
 * Each regular expression is modelled by a function that decides whether it
 * matches at one start position, and `Search`, which tries the start
 * positions from left to right exactly as a regular-expression search does.
 */
module LogPatterns {
  import opened Wrappers

  /** The phrase the registry's API server logs when a tag scan summary fails. */
  const Marker: string := "Unable to make tag scan summary"

  /** The algorithm tag of a digest and the number of hex digits after it. */
  const DigestTag: string := "sha256:"
  const HexDigits: nat := 64
  const DigestLength: nat := |DigestTag| + HexDigits

  /**
   * The literal part of the request-URI pattern. As in the regular
   * expression, each '.' in it stands for any character except a newline.
   */
  const UriPrefix: string := "\"http.request.uri\":\"/api/v0/repositories/"

  /** A (namespace, repository) pair: the two groups of the request-URI pattern. */
  type Image = (string, string)

  // ---------------------------------------------------------------------------
  // Leftmost search

  /**
   * Tries `matchAt` at the start positions `from`, `from + 1`, ..., `|line|`
   * and returns the first position that matches, with what it matched.
   */
  function Search<R>(line: string, matchAt: (string, nat) -> Option<R>, from: nat): (r: Option<(nat, R)>)
    ensures r.Some? ==> from <= r.value.0 <= |line| && matchAt(line, r.value.0) == Some(r.value.1)
    ensures r.Some? ==> forall p: nat :: from <= p < r.value.0 ==> matchAt(line, p).None?
    ensures r.None? ==> forall p: nat :: from <= p <= |line| ==> matchAt(line, p).None?
    decreases |line| + 1 - from
  {
    if from > |line| then None
    else
      match matchAt(line, from)
      case Some(x) => Some((from, x))
      case None => Search(line, matchAt, from + 1)
  }

  // ---------------------------------------------------------------------------
  // The failure marker

  /** `pat` occurs in `line` starting at position `p`. */
  predicate LiteralAt(line: string, pat: string, p: nat) {
    p + |pat| <= |line| && line[p..p + |pat|] == pat
  }

  ghost predicate ContainsMarker(line: string) {
    exists p: nat :: LiteralAt(line, Marker, p)
  }

  function MarkerAt(line: string, p: nat): Option<()> {
    if LiteralAt(line, Marker, p) then Some(()) else None
  }

  /** The substring test `Marker in line`. */
  function HasMarker(line: string): (b: bool)
    ensures b <==> ContainsMarker(line)
  {
    var r := Search(line, MarkerAt, 0);
    if r.None? then
      assert forall p: nat :: !LiteralAt(line, Marker, p) by {
        forall p: nat ensures !LiteralAt(line, Marker, p) {
          assert MarkerAt(line, p).None?;
        }
      }
      false
    else
      assert LiteralAt(line, Marker, r.value.0);
      true
  }

  // ---------------------------------------------------------------------------
  // The digest pattern sha256:[A-Fa-f0-9]{64}

  predicate IsHexDigit(c: char) {
    '0' <= c <= '9' || 'a' <= c <= 'f' || 'A' <= c <= 'F'
  }

  /** The shape every extracted digest has: the tag, then exactly 64 hex digits. */
  predicate IsDigest(d: string) {
    |d| == DigestLength && d[..|DigestTag|] == DigestTag &&
    forall k :: |DigestTag| <= k < |d| ==> IsHexDigit(d[k])
  }

  /** The digest pattern matches `line` at position `p`. */
  predicate DigestOccursAt(line: string, p: nat) {
    p + DigestLength <= |line| && IsDigest(line[p..p + DigestLength])
  }

  ghost predicate HasDigest(line: string) {
    exists p: nat :: DigestOccursAt(line, p)
  }

  function DigestAt(line: string, p: nat): Option<string> {
    if DigestOccursAt(line, p) then Some(line[p..p + DigestLength]) else None
  }

  /**
   * `re.search("sha256:[A-Fa-f0-9]{64}", line).group(0)`, with `None` where
   * the search finds nothing: the digest that starts leftmost in the line.
   * A longer run of hex digits yields only its first 64.
   */
  function FindDigest(line: string): (r: Option<string>)
    ensures r.None? <==> !HasDigest(line)
    ensures r.Some? ==> IsDigest(r.value)
    ensures r.Some? ==>
      exists p: nat :: DigestOccursAt(line, p) && line[p..p + DigestLength] == r.value &&
        forall q: nat :: q < p ==> !DigestOccursAt(line, q)
  {
    var s := Search(line, DigestAt, 0);
    if s.None? then
      assert forall p: nat :: !DigestOccursAt(line, p) by {
        forall p: nat ensures !DigestOccursAt(line, p) {
          assert DigestAt(line, p).None?;
        }
      }
      None
    else
      var p := s.value.0;
      assert DigestOccursAt(line, p);
      assert forall q: nat :: q < p ==> !DigestOccursAt(line, q) by {
        forall q: nat | q < p ensures !DigestOccursAt(line, q) {
          assert DigestAt(line, q).None?;
        }
      }
      Some(s.value.1)
  }

  // ---------------------------------------------------------------------------
  // The request-URI pattern "http.request.uri":"/api/v0/repositories/([^/]*)/([^/]*)

  /** One character of the pattern's literal part: '.' matches anything but a newline. */
  predicate PatternCharMatches(pc: char, c: char) {
    if pc == '.' then c != '\n' else c == pc
  }

  /** The literal part of the request-URI pattern matches `line` at position `p`. */
  predicate UriPrefixAt(line: string, p: nat) {
    p + |UriPrefix| <= |line| &&
    forall k :: 0 <= k < |UriPrefix| ==> PatternCharMatches(UriPrefix[k], line[p + k])
  }

  /**
   * The whole request-URI pattern matches at `p` with groups `ns` and `repo`:
   * the literal part, then `ns + "/" + repo`, where both groups are free of
   * '/' and `repo` is followed by a '/' or the end of the line (the greedy
   * `[^/]*` takes the maximal run).
   */
  ghost predicate UriFragmentAt(line: string, p: nat, ns: string, repo: string) {
    var q := p + |UriPrefix|;
    var end := q + |ns| + 1 + |repo|;
    UriPrefixAt(line, p) && end <= |line| &&
    line[q..end] == ns + "/" + repo &&
    '/' !in ns && '/' !in repo &&
    (end == |line| || line[end] == '/')
  }

  /** The pattern matches at `p` exactly when the literal part does and a '/' follows somewhere after it. */
  ghost predicate UriMatchesAt(line: string, p: nat) {
    UriPrefixAt(line, p) && '/' in line[p + |UriPrefix|..]
  }

  ghost predicate HasUri(line: string) {
    exists p: nat :: UriMatchesAt(line, p)
  }

  /** The first position at or after `i` that holds a '/', or `|line|` if there is none. */
  function NextSlash(line: string, i: nat): (r: nat)
    requires i <= |line|
    ensures i <= r <= |line|
    ensures r < |line| ==> line[r] == '/'
    ensures forall k :: i <= k < r ==> line[k] != '/'
    decreases |line| - i
  {
    if i == |line| || line[i] == '/' then i else NextSlash(line, i + 1)
  }

  /** The regular-expression engine's match attempt at one start position. */
  function UriAt(line: string, p: nat): Option<Image> {
    if !UriPrefixAt(line, p) then None
    else
      var q := p + |UriPrefix|;
      var j := NextSlash(line, q);
      if j == |line| then None
      else
        var k := NextSlash(line, j + 1);
        Some((line[q..j], line[j + 1..k]))
  }

  /** A run of non-'/' characters ending at a '/' or the end must be the one `NextSlash` finds. */
  lemma NextSlashUnique(line: string, i: nat, j: nat)
    requires i <= j <= |line|
    requires forall k :: i <= k < j ==> line[k] != '/'
    requires j < |line| ==> line[j] == '/'
    ensures NextSlash(line, i) == j
  {
  }

  /** What the match attempt at `p` yields fits the declarative description. */
  lemma UriAtSound(line: string, p: nat)
    requires UriAt(line, p).Some?
    ensures UriFragmentAt(line, p, UriAt(line, p).value.0, UriAt(line, p).value.1)
  {
  }

  /** Whatever fits the declarative description is what the match attempt at `p` yields. */
  lemma UriAtComplete(line: string, p: nat, ns: string, repo: string)
    requires UriFragmentAt(line, p, ns, repo)
    ensures UriAt(line, p) == Some((ns, repo))
  {
    var q := p + |UriPrefix|;
    var j := q + |ns|;
    var end := j + 1 + |repo|;
    var frag := line[q..end];
    assert frag == ns + "/" + repo;
    assert line[q..j] == frag[..|ns|] == ns;
    assert line[j + 1..end] == frag[|ns| + 1..] == repo;
    assert line[j] == frag[|ns|] == '/';
    forall m | q <= m < j ensures line[m] != '/' {
      assert line[m] == ns[m - q];
    }
    NextSlashUnique(line, q, j);
    forall m | j + 1 <= m < end ensures line[m] != '/' {
      assert line[m] == repo[m - j - 1];
    }
    NextSlashUnique(line, j + 1, end);
  }

  /** The match attempt at `p` succeeds with groups (ns, repo) exactly when the declarative description holds. */
  lemma UriAtCorrect(line: string, p: nat, ns: string, repo: string)
    ensures UriAt(line, p) == Some((ns, repo)) <==> UriFragmentAt(line, p, ns, repo)
  {
    if UriAt(line, p) == Some((ns, repo)) {
      UriAtSound(line, p);
    }
    if UriFragmentAt(line, p, ns, repo) {
      UriAtComplete(line, p, ns, repo);
    }
  }

  /** The match attempt at `p` succeeds exactly when the literal part matches and a '/' follows it. */
  lemma UriAtSome(line: string, p: nat)
    ensures UriAt(line, p).Some? <==> UriMatchesAt(line, p)
  {
  }

  /**
   * `re.search(<request-URI pattern>, line).groups(2)`, with `None` where the
   * search finds nothing: the two groups of the leftmost match.
   */
  function FindRepoUri(line: string): (r: Option<Image>)
    ensures r.None? <==> !HasUri(line)
    ensures r.Some? ==> '/' !in r.value.0 && '/' !in r.value.1
    ensures r.Some? ==>
      exists p: nat :: UriFragmentAt(line, p, r.value.0, r.value.1) &&
        forall q: nat :: q < p ==> !UriMatchesAt(line, q)
  {
    var s := Search(line, UriAt, 0);
    if s.None? then
      assert forall p: nat :: !UriMatchesAt(line, p) by {
        forall p: nat ensures !UriMatchesAt(line, p) {
          if p <= |line| {
            UriAtSome(line, p);
          }
        }
      }
      None
    else
      var p := s.value.0;
      var img := s.value.1;
      UriAtSound(line, p);
      UriAtSome(line, p);
      assert forall q: nat :: q < p ==> !UriMatchesAt(line, q) by {
        forall q: nat | q < p ensures !UriMatchesAt(line, q) {
          UriAtSome(line, q);
        }
      }
      Some(img)
  }

  // ---------------------------------------------------------------------------
  // What the searches find in a line assembled around a match

  /**
   * A digest embedded in arbitrary text is the one found, provided no digest
   * starts further left. Text after it may continue the hex run: only the
   * first 64 digits belong to the digest.
   */
  lemma EmbeddedDigest(pre: string, d: string, post: string)
    requires IsDigest(d)
    requires forall p: nat :: p < |pre| ==> !DigestOccursAt(pre + d + post, p)
    ensures FindDigest(pre + d + post) == Some(d)
  {
    var line := pre + d + post;
    assert line[|pre|..|pre| + DigestLength] == d;
    assert DigestOccursAt(line, |pre|);
    var r := FindDigest(line);
    var p: nat :| DigestOccursAt(line, p) && line[p..p + DigestLength] == r.value &&
      forall q: nat :: q < p ==> !DigestOccursAt(line, q);
    assert p == |pre|;
  }

  /** The leftmost place where the request-URI pattern matches decides what `FindRepoUri` yields. */
  lemma LeftmostUri(line: string, p: nat, ns: string, repo: string)
    requires UriFragmentAt(line, p, ns, repo)
    requires forall q: nat :: q < p ==> !UriMatchesAt(line, q)
    ensures FindRepoUri(line) == Some((ns, repo))
  {
    UriAtComplete(line, p, ns, repo);
    UriAtSome(line, p);
    var r := FindRepoUri(line);
    var p': nat :| UriFragmentAt(line, p', r.value.0, r.value.1) &&
      forall q: nat :: q < p' ==> !UriMatchesAt(line, q);
    UriAtComplete(line, p', r.value.0, r.value.1);
    UriAtSome(line, p');
    assert p' == p;
  }

  /**
   * A request-URI fragment embedded in arbitrary text yields its namespace and
   * repository, provided the pattern matches nowhere further left and the
   * repository ends at a '/' or at the end of the line.
   */
  lemma EmbeddedUri(pre: string, ns: string, repo: string, post: string)
    requires '/' !in ns && '/' !in repo
    requires post == [] || post[0] == '/'
    requires forall p: nat :: p < |pre| ==> !UriMatchesAt(pre + UriPrefix + ns + "/" + repo + post, p)
    ensures FindRepoUri(pre + UriPrefix + ns + "/" + repo + post) == Some((ns, repo))
  {
    var frag := ns + "/" + repo;
    var line := pre + UriPrefix + frag + post;
    assert line == pre + UriPrefix + ns + "/" + repo + post;
    var p0 := |pre|;
    var q := p0 + |UriPrefix|;
    var end := q + |frag|;
    assert line[p0..q] == UriPrefix;
    assert UriPrefixAt(line, p0) by {
      forall k | 0 <= k < |UriPrefix| ensures PatternCharMatches(UriPrefix[k], line[p0 + k]) {
        assert line[p0 + k] == line[p0..q][k];
      }
    }
    assert line[q..end] == frag;
    assert end < |line| ==> line[end] == post[0];
    assert UriFragmentAt(line, p0, ns, repo);
    LeftmostUri(line, p0, ns, repo);
  }
}
