# dtr-fixscan: the log-scanning pass

fixscan.py reads the log of a Docker Trusted Registry `dtr-api` container and
looks for the places where a corrupted vulnerability scan shows up. It keeps
each line that contains the phrase `Unable to make tag scan summary`. From each
kept line it takes:

- the leftmost `sha256:` digest, which is the tag followed by 64 hex digits;
- the namespace and repository from the leftmost
  `"http.request.uri":"/api/v0/repositories/<ns>/<repo>` fragment.

It then removes duplicates from both lists and folds the pairs into a
namespace-to-repository dictionary.

This project models that pass, lines 28-46 of fixscan.py. The log lines are an
input `seq<string>`.

- `wrappers.dfy` (module `Wrappers`) defines `Option`, which stands for
  Python's `None` when a `re.search` finds nothing.
- `patterns.dfy` (module `LogPatterns`) holds the marker test and the two
  regular expressions. Each pattern has a match-at-one-position function. A
  generic leftmost `Search` tries the start positions from left to right, as
  `re.search` does. Each pattern also has a declarative description of what a
  match is (`DigestOccursAt`, `UriFragmentAt`, `UriMatchesAt`), and the lemmas
  connect the search to it.
- `fixscan.dfy` (module `FixScan`) holds:
  - the body of the `for` loop (`ScanLine`);
  - the loop itself, as a method with invariants (`ScanLogs`);
  - the specification of the lists it builds (`Collect`, `MatchedDigests`,
    `MatchedImages`);
  - `list(set(...))` (`Distinct`) and the dictionary (`ToDict`);
  - the whole pass (`RunScan`).

Points where the model follows the code:

- The pattern string `"http.request.uri"` has unescaped dots. Each dot is a
  regular-expression wildcard that matches any character except a newline, and
  `PatternCharMatches` models it that way.
- `[^/]` matches any character other than `/`, newlines included. The first
  group is followed by a literal `/`, so it must be the whole slash-free run up
  to the next `/`. If there is no `/` after the prefix, the pattern does not
  match at that position. The second group is the maximal slash-free run that
  follows.
- The code accepts empty namespaces and repositories (`[^/]*`). It does not
  check that they are well-formed. It handles only the request-URI form of the
  image path; a free-text `image ns/repo` form does not appear in it.
- On a marker line, a failed digest search raises `AttributeError` before
  either append, so that line adds nothing. A failed request-URI search comes
  after the digest has been appended, so the digest is kept.

## Model

| member | source | states |
|---|---|---|
| LogPatterns.Search | fixscan.py:36-38 | the result is the first start position, at or after `from`, where the pattern matches, together with what matched there; no earlier position matches; `None` means no position up to the end of the line matches |
| LogPatterns.HasMarker | fixscan.py:32 | true exactly when the marker phrase occurs somewhere in the line as a substring |
| LogPatterns.FindDigest | fixscan.py:36 | `None` exactly when the line holds no `sha256:` plus 64 hex digits; otherwise the result has that shape (71 characters), occurs in the line, and starts at the leftmost position where the shape occurs |
| LogPatterns.EmbeddedDigest | fixscan.py:36 | a digest placed anywhere in a line is the one found when no digest starts further left, whatever follows it (a longer hex run yields only its first 64 digits) |
| LogPatterns.NextSlash | fixscan.py:38 | the position of the first `/` at or after `i` (or the end of the line); no `/` lies in between, which is what a greedy `[^/]*` consumes |
| LogPatterns.NextSlashUnique | fixscan.py:38 | any slash-free run that ends at a `/` or at the end of the line is the one `NextSlash` finds |
| LogPatterns.UriAtSound | fixscan.py:38 | a match attempt at one position that succeeds yields groups fitting the declarative description: the prefix, then `ns/repo`, both slash-free, with `repo` ending at a `/` or at the end |
| LogPatterns.UriAtComplete | fixscan.py:38 | groups that fit the declarative description at a position are exactly what the match attempt there yields |
| LogPatterns.UriAtCorrect | fixscan.py:38 | both directions: the match attempt at `p` yields `(ns, repo)` if and only if the declarative description holds for them |
| LogPatterns.UriAtSome | fixscan.py:38 | the match attempt at `p` succeeds if and only if the prefix matches there and a `/` follows somewhere after it |
| LogPatterns.FindRepoUri | fixscan.py:38 | `None` exactly when the pattern matches nowhere; otherwise both groups are free of `/` (possibly empty) and are those of the leftmost match |
| LogPatterns.LeftmostUri | fixscan.py:38 | the groups at the leftmost matching position are what the search returns |
| LogPatterns.EmbeddedUri | fixscan.py:38 | a request-URI fragment `prefix + ns + "/" + repo` placed in any text is what the search returns, when nothing matches further left and the repository ends at a `/` or at the end of the line |
| FixScan.ScanLine | fixscan.py:32-41 | a line contributes a digest if and only if it has the marker and a digest; it contributes an image if and only if it also has a request-URI match; so a marker line with no digest adds nothing even if it has a URI, and one with a digest but no URI adds only the digest |
| FixScan.CollectMembers | fixscan.py:31-41 | an element is in the list that the appending loop builds if and only if some line yields it |
| FixScan.ScanLogs | fixscan.py:28-41 | the loop's two lists are exactly the specified `MatchedDigests` and `MatchedImages` of the whole log, with no more images than digests and no more digests than marker lines |
| FixScan.CountsBounded | fixscan.py:31-39 | images appended <= digests appended <= marker lines <= lines |
| FixScan.MatchedDigestsFromLines | fixscan.py:31-37 | a digest is in `matched_digests` if and only if some marker line has it as its leftmost digest |
| FixScan.MatchedImagesFromLines | fixscan.py:31-39 | a pair is in `matched_images` if and only if some marker line has a digest and has that pair as its leftmost request-URI match |
| FixScan.NoMarkerNoFindings | fixscan.py:31-32 | a log with no marker line yields no digests and no images |
| FixScan.Distinct | fixscan.py:43-44 | `list(set(s))` has exactly the elements of `s`, with no duplicates, and is no longer than `s` |
| FixScan.DistinctOfRepeats | fixscan.py:43-44 | a list that repeats one value any number of times collapses to that single value |
| FixScan.ToDict | fixscan.py:46 | the dictionary's keys are exactly the namespaces of the pairs, and each key maps to the repository of some pair with that namespace |
| FixScan.ToDictLastWins | fixscan.py:46 | when a namespace occurs more than once, the last pair in the list that has it decides its value |
| FixScan.RunScan | fixscan.py:28-46 | `digests` and `images_list` have no duplicates and have exactly the elements of `matched_digests` and `matched_images`; every digest has the digest shape and every pair is slash-free; the dictionary's keys are the namespaces of the matched images, each mapped to a repository matched with it |

## Left out

- The Docker client on the Unix socket, the `dtr-api` container lookup and the reading of its log (fixscan.py:9, 12, 22-27). These are I/O against a foreign library. The log lines are a parameter instead.
- The `IndexError` handler (fixscan.py:25-26). It only logs, and afterwards `api_container` is unbound. This is environment error handling.
- Logging setup and messages (fixscan.py:14-21). They are pure side effects.
- Bytes versus text: the script splits a byte log into lines (Python 2 `str`). Lines are modelled as `string`, and text encodings play no part.
- A general regular-expression engine. Each of the two fixed patterns is modelled by a dedicated matcher.
- RunScan: the order of `list(set(...))` depends on Python's hashing and is not modelled. `Distinct` has one fixed order, but its contract and everything built on it state only set-level facts. For the same reason, which repository wins for a repeated namespace in `images` is also not stated. `ToDictLastWins` describes `dict` over a given list, not over a particular hash order.
- Deleting store rows, running a helper container, parsing `deleted:<N>` output, the confirmation prompt and command-line flags do not appear in fixscan.py. They are not part of this model.
