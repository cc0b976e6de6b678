/**
 * The log-scanning pass of fixscan.py: keep the lines that report a failed
 * tag scan summary, pull a digest and a (namespace, repository) pair out of
 * each, then drop duplicates and fold the pairs into a namespace-to-repository
 * map. The log lines are an input; reading them from the API container is
 * not part of this model.
 */
module FixScan {
  import opened Wrappers
  import opened LogPatterns

  /** What one log line appends to the two match lists. */
  datatype LineFinding = LineFinding(digest: Option<string>, image: Option<Image>)

  /**
   * The body of the `for line in logs` loop. A line without the marker is
   * skipped. On a marker line a failed digest search raises AttributeError
   * before either append, so nothing is kept; a digest found is appended
   * before the request-URI search, so it is kept even when that search fails.
   */
  function ScanLine(line: string): (f: LineFinding)
    ensures f.digest.Some? <==> ContainsMarker(line) && HasDigest(line)
    ensures f.image.Some? <==> ContainsMarker(line) && HasDigest(line) && HasUri(line)
    ensures f.digest.Some? ==> f.digest == FindDigest(line)
    ensures f.image.Some? ==> f.image == FindRepoUri(line)
  {
    if !HasMarker(line) then LineFinding(None, None)
    else
      match FindDigest(line)
      case None => LineFinding(None, None)
      case Some(d) => LineFinding(Some(d), FindRepoUri(line))
  }

  /** The list the loop builds when each line appends what `pick` finds in it. */
  function Collect<T>(logs: seq<string>, pick: string -> Option<T>): seq<T> {
    if logs == [] then []
    else Collect(logs[..|logs| - 1], pick) + ToSeq(pick(logs[|logs| - 1]))
  }

  /** An element is collected exactly when some line yields it. */
  lemma {:induction false} CollectMembers<T>(logs: seq<string>, pick: string -> Option<T>, x: T)
    ensures x in Collect(logs, pick) <==> exists i :: 0 <= i < |logs| && pick(logs[i]) == Some(x)
  {
    if logs != [] {
      var init := logs[..|logs| - 1];
      CollectMembers(init, pick, x);
      if exists i :: 0 <= i < |logs| && pick(logs[i]) == Some(x) {
        var i :| 0 <= i < |logs| && pick(logs[i]) == Some(x);
        if i < |init| {
          assert init[i] == logs[i];
        }
      }
      if x in Collect(init, pick) {
        var i :| 0 <= i < |init| && pick(init[i]) == Some(x);
        assert logs[i] == init[i];
      }
    }
  }

  function LineDigest(line: string): Option<string> {
    ScanLine(line).digest
  }

  function LineImage(line: string): Option<Image> {
    ScanLine(line).image
  }

  /** `matched_digests` after the loop has seen `logs`. */
  function MatchedDigests(logs: seq<string>): seq<string> {
    Collect(logs, LineDigest)
  }

  /** `matched_images` after the loop has seen `logs`. */
  function MatchedImages(logs: seq<string>): seq<Image> {
    Collect(logs, LineImage)
  }

  /** The number of lines that contain the marker. */
  function MarkerLineCount(logs: seq<string>): nat {
    if logs == [] then 0
    else MarkerLineCount(logs[..|logs| - 1]) + (if HasMarker(logs[|logs| - 1]) then 1 else 0)
  }

  /**
   * The loop of lines 28-41, appending to the two match lists step by step.
   */
  method ScanLogs(logs: seq<string>) returns (matchedDigests: seq<string>, matchedImages: seq<Image>)
    ensures matchedDigests == MatchedDigests(logs)
    ensures matchedImages == MatchedImages(logs)
    ensures |matchedImages| <= |matchedDigests| <= MarkerLineCount(logs)
  {
    matchedDigests, matchedImages := [], [];
    for i := 0 to |logs|
      invariant matchedDigests == Collect(logs[..i], LineDigest)
      invariant matchedImages == Collect(logs[..i], LineImage)
    {
      var line := logs[i];
      assert logs[..i + 1][..i] == logs[..i] && logs[..i + 1][i] == line;
      assert Collect(logs[..i + 1], LineDigest) == matchedDigests + ToSeq(LineDigest(line));
      assert Collect(logs[..i + 1], LineImage) == matchedImages + ToSeq(LineImage(line));
      if HasMarker(line) {
        var digest := FindDigest(line);
        if digest.Some? {
          matchedDigests := matchedDigests + [digest.value];
          var image := FindRepoUri(line);
          if image.Some? {
            matchedImages := matchedImages + [image.value];
          }
        }
      }
    }
    assert logs[..|logs|] == logs;
    CountsBounded(logs);
  }

  // ---------------------------------------------------------------------------
  // What the loop keeps

  /** No more images than digests, and no more digests than marker lines. */
  lemma {:induction false} CountsBounded(logs: seq<string>)
    ensures |MatchedImages(logs)| <= |MatchedDigests(logs)| <= MarkerLineCount(logs) <= |logs|
  {
    if logs != [] {
      CountsBounded(logs[..|logs| - 1]);
    }
  }

  /**
   * A digest is kept exactly when some marker line has it as its leftmost
   * digest; with `FindDigest`, it has the digest shape and occurs in that line.
   */
  lemma MatchedDigestsFromLines(logs: seq<string>, d: string)
    ensures d in MatchedDigests(logs) <==>
      exists i :: 0 <= i < |logs| && HasMarker(logs[i]) && FindDigest(logs[i]) == Some(d)
  {
    CollectMembers(logs, LineDigest, d);
  }

  /**
   * A pair is kept exactly when some marker line has a digest and has this
   * pair as the groups of its leftmost request-URI match.
   */
  lemma MatchedImagesFromLines(logs: seq<string>, img: Image)
    ensures img in MatchedImages(logs) <==>
      exists i :: 0 <= i < |logs| && HasMarker(logs[i]) && FindDigest(logs[i]).Some? &&
        FindRepoUri(logs[i]) == Some(img)
  {
    CollectMembers(logs, LineImage, img);
  }

  /** A log with no marker line yields no digest and no image. */
  lemma {:induction false} NoMarkerNoFindings(logs: seq<string>)
    requires forall i :: 0 <= i < |logs| ==> !ContainsMarker(logs[i])
    ensures MatchedDigests(logs) == [] && MatchedImages(logs) == []
  {
    if logs != [] {
      NoMarkerNoFindings(logs[..|logs| - 1]);
    }
  }

  // ---------------------------------------------------------------------------
  // `list(set(...))` and `dict(...)`

  predicate NoDuplicates<T(==)>(s: seq<T>) {
    forall i, j :: 0 <= i < j < |s| ==> s[i] != s[j]
  }

  /**
   * `list(set(s))`: the elements of `s`, each once. Python lists them in hash
   * order; the contract says nothing about the order.
   */
  function Distinct<T(==,!new)>(s: seq<T>): (r: seq<T>)
    ensures forall x :: x in r <==> x in s
    ensures NoDuplicates(r)
    ensures |r| <= |s|
  {
    if s == [] then []
    else if s[0] in s[1..] then Distinct(s[1..])
    else [s[0]] + Distinct(s[1..])
  }

  /** A list that repeats one value collapses to that value alone. */
  lemma DistinctOfRepeats<T(!new)>(s: seq<T>, x: T)
    requires |s| > 0 && forall i :: 0 <= i < |s| ==> s[i] == x
    ensures Distinct(s) == [x]
  {
  }

  /** The namespaces of a list of pairs. */
  ghost function Namespaces(pairs: seq<Image>): set<string> {
    set img | img in pairs :: img.0
  }

  /**
   * `dict((x, y) for x, y in pairs)`: the keys are exactly the namespaces,
   * and each maps to the repository of some pair with that namespace.
   */
  function ToDict(pairs: seq<Image>): (m: map<string, string>)
    ensures m.Keys == Namespaces(pairs)
    ensures forall ns :: ns in m ==> (ns, m[ns]) in pairs
  {
    if pairs == [] then map[]
    else
      var init, last := pairs[..|pairs| - 1], pairs[|pairs| - 1];
      assert pairs == init + [last];
      ToDict(init)[last.0 := last.1]
  }

  /** A later pair with the same namespace overwrites an earlier one. */
  lemma {:induction false} ToDictLastWins(pairs: seq<Image>, i: nat)
    requires i < |pairs|
    requires forall j :: i < j < |pairs| ==> pairs[j].0 != pairs[i].0
    ensures ToDict(pairs)[pairs[i].0] == pairs[i].1
  {
    if i < |pairs| - 1 {
      var init := pairs[..|pairs| - 1];
      assert init[i] == pairs[i];
      ToDictLastWins(init, i);
    }
  }

  /**
   * Lines 28-46: scan the log, drop the duplicate digests and pairs, and
   * build the namespace-to-repository map.
   */
  method RunScan(logs: seq<string>) returns (digests: seq<string>, imagesList: seq<Image>, images: map<string, string>)
    ensures NoDuplicates(digests) && forall d :: d in digests <==> d in MatchedDigests(logs)
    ensures NoDuplicates(imagesList) && forall img :: img in imagesList <==> img in MatchedImages(logs)
    ensures images.Keys == Namespaces(MatchedImages(logs))
    ensures forall ns :: ns in images ==> (ns, images[ns]) in MatchedImages(logs)
    ensures forall d :: d in digests ==> IsDigest(d)
    ensures forall img :: img in imagesList ==> '/' !in img.0 && '/' !in img.1
  {
    var matchedDigests, matchedImages := ScanLogs(logs);
    digests := Distinct(matchedDigests);
    imagesList := Distinct(matchedImages);
    images := ToDict(imagesList);
    forall d | d in digests ensures IsDigest(d) {
      MatchedDigestsFromLines(logs, d);
    }
    forall img | img in imagesList ensures '/' !in img.0 && '/' !in img.1 {
      MatchedImagesFromLines(logs, img);
    }
  }
}
