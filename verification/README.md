# d-scan corner detection, modelled in Dafny

d-scan finds the four corners of a document in a photo. A corner detector
yields candidate points, and the core then works in two steps:

1. **Ranking.** The candidates are copied four times. Each copy is sorted for
   one corner role:
   - top-left: smallest x + y first;
   - top-right: largest x − y first;
   - bottom-left: smallest x − y first;
   - bottom-right: largest x + y first.
2. **Edge search.** Each document edge (left, top, right, bottom) pairs two
   ranked lists. The search walks base index p upward and tries the rank
   pairs (p, p), (p+1, p), (p, p+1) and (p+1, p+1). For each pair it probes
   the midpoint of the two points: it looks along the four diagonals around
   the midpoint for a pixel whose mean of R, G and B exceeds a brightness
   limit. The first pair whose midpoint is close to such an edge pixel is
   accepted. After the last base index, the code falls back to the rank-0
   pair. On the lists the program actually passes, the last base index reads
   a rank the lists do not have, so a search with no hit throws before it
   reaches that fallback (see Findings).

The repository holds this logic twice:
- `src/helpers.ts` exports it as free functions. The edge search there
  returns a trace of every attempt.
- `src/main.ts` holds it as private methods of the `DScan` class. The edge
  search there returns only the chosen pair.

The model covers both copies and proves them equal, except for the four
rankings: those agree on the score at every rank but may order ties
differently.

Modules:
- `Model` (`model.dfy`): the record types of `src/model.ts`, plus `Result`
  and `Option`. A `Result` failure stands for the TypeError that JavaScript
  throws when the search reads a list slot that does not exist.
- `Pixels` (`pixels.dfy`): the RGBA buffer and the colour index of a pixel.
  It also holds the sampled brightness: a read outside the buffer gives NaN,
  and NaN never exceeds the limit. Colour clamping is here too.
- `Ranking` (`ranking.dfy`): the four corner rankings.
- `Probe` (`probe.dfy`): the rounded midpoint and the diagonal edge probe.
- `Search` (`search.dfy`): the per-edge search with its trace, and the
  four-edge search. It also holds the corrected search described under
  Findings.
- `DScan` (`dscan.dfy`): the `main.ts` copy, written as imperative methods.
  Each method is proved equal to the helpers' model, except for the
  rankings (`DScan.SortCopy`, `DScan.FindMaxCornerPoints`). Those are proved
  to rank the candidates and to agree with the helpers' rankings on the
  score at every rank.

Conventions:
- The brightness percentage is a `real`. The limit is the exact rational
  255 · (percentage / 100).
- `Math.round` is floor(v + 0.5). So a midpoint coordinate is
  (a + b + 1) / 2 under floor division.
- The JavaScript sort comparators do not order ties consistently. A ranking
  is therefore modelled as any permutation of the candidates that is sorted
  by the role's score. The order of equal-score candidates is left
  unspecified.

The comparison with the limit is strict. So at a percentage of 100 or more nothing is ever hit, not even pure
white (`Probe.ProbeNeverHitsAtFullLimit`).

## Model

| member | source | states |
|---|---|---|
| Pixels.ColorIndexDecodes | src/helpers.ts:169-171 | the colour index is a multiple of 4, it equals 4 · (y · width + x), and for a pixel inside a row it decodes back to (x, y) |
| Pixels.ColorIndexWrapsToNextRow | src/helpers.ts:169-171 | x + width in row y addresses the same byte as x in row y + 1, because x is not range-checked |
| Pixels.PixelInsidePictureIsReadable | src/helpers.ts:145-152 | for every pixel inside a well-formed picture, all of its colour bytes lie inside the buffer |
| Pixels.NormColor | src/helpers.ts:149-152 | the mean of three bytes is defined exactly when the three bytes are inside the buffer, and then it lies in 0..255 |
| Pixels.SampleExceeds | src/helpers.ts:138-154 | a sample counts as a hit exactly when its bytes are inside the buffer and 100 · (r + g + b) > 765 · percentage |
| Pixels.NoSampleExceedsFullLimit | src/helpers.ts:138-154 | at a percentage of 100 or more no sample is a hit |
| Pixels.TruncateColor | src/helpers.ts:47-54 | the result lies in 0..255, and a value already in range is returned unchanged |
| Pixels.TruncateColorIsNearest | src/helpers.ts:47-54 | the clamped value is the in-range value nearest the input |
| Pixels.TruncateColorIdempotent | src/helpers.ts:47-54 | clamping twice is clamping once |
| Pixels.TruncateColorMonotonic | src/helpers.ts:47-54 | clamping preserves order |
| Ranking.Insert | src/helpers.ts:64-71 | inserting into a ranked list gives a ranked list with exactly one more occurrence of the point |
| Ranking.SortForRole | src/helpers.ts:64-71 | the sorted copy is a permutation of the input, ordered by the role's score |
| Ranking.FindMaxCornerPoints | src/helpers.ts:56-73 | all four lists are rankings of the candidates for their roles, and each list's length equals `length` |
| Ranking.RankingHeadIsExtremal | src/helpers.ts:64-71 | the first entry of a ranking is a candidate that may precede every candidate |
| Ranking.CornerHeadsAreExtremal | src/helpers.ts:56-73 | element 0 of each list has the least x + y (top-left), the greatest x − y (top-right), the least x − y (bottom-left) and the greatest x + y (bottom-right) among the candidates |
| Ranking.KeysPreserveMultiset | src/helpers.ts:64-71 | permuting the points permutes their scores |
| Ranking.SortedIntsUnique | src/helpers.ts:64-71 | two sorted sequences of scores with the same elements are equal |
| Ranking.RankingsAgreeOnScores | src/helpers.ts:64-71 | any two rankings of the same candidates for one role have the same score at every rank, so they differ only in the order of ties |
| Probe.RoundOfHalfSum | src/helpers.ts:130-135 | Math.round(a + 0.5 · (b − a)) equals (a + b + 1) / 2 under floor division |
| Probe.FindMidPoint | src/helpers.ts:130-135 | each coordinate is the rounded-up half sum and lies between the two points' coordinates |
| Probe.FindMidPointSymmetric | src/helpers.ts:130-135 | the midpoint does not depend on argument order, and the midpoint of a point with itself is that point |
| Probe.MidPointIsCloseToEdge | src/helpers.ts:137-167 | the probed point is returned unchanged; the full contract is Probe.MidPointIsCloseToEdgeSpec |
| Probe.ProbeFromSpec | src/helpers.ts:140-166 | from radius i on: the point is unchanged; a hit occurs exactly when some radius in [i, maxDistance) hits; the measurements are those of radii i onward, ending at the first hit or at maxDistance |
| Probe.MidPointIsCloseToEdgeSpec | src/helpers.ts:137-167 | hitEdge holds exactly when a diagonal pixel at some radius below maxDistance exceeds the limit; measurement k records the coordinates at radius k; the list ends at the first hit, or covers every radius on a miss |
| Probe.ProbeWithoutRadius | src/helpers.ts:140-166 | with maxDistance ≤ 0 the probe records nothing and finds no edge |
| Probe.ProbeThresholdMonotonic | src/helpers.ts:138-154 | a hit at some percentage is also a hit at every lower percentage |
| Probe.ProbeNeverHitsAtFullLimit | src/helpers.ts:138-154 | at a percentage of 100 or more the probe never hits |
| Probe.WhitePixelIsHit | src/helpers.ts:137-160 | a single white pixel in a black 10 × 10 picture is hit at radius 0 |
| Probe.EmptyBufferNeverHits | src/helpers.ts:149-154 | with an empty buffer every sample is NaN, so the probe never hits |
| Search.MissEntriesSpec | src/helpers.ts:105-111 | the trace of a run of misses holds one entry per attempt, in order, marked not best match |
| Search.SearchFrom | src/helpers.ts:91-127 | from attempt k on, a successful trace consists of rejected attempts followed by exactly one accepted entry |
| Search.FindPointsCloseToEdge | src/helpers.ts:83-128 | a successful trace consists of rejected attempts followed by exactly one accepted entry |
| Search.EdgeSearchStopsAtFirstHit | src/helpers.ts:91-104 | if attempts 0 .. j − 1 read existing ranks and miss and attempt j hits, the edge search returns those misses followed by the accepted hit |
| Search.EdgeSearchThrowsAtFirstMissingRank | src/helpers.ts:91-95 | if attempts 0 .. j − 1 miss and attempt j reads a rank a list lacks, the edge search throws, reporting that rank |
| Search.EdgeSearchFallsBackWhenAllMiss | src/helpers.ts:91-127 | if all 4 · maxIndex attempts miss, the edge search returns them all followed by the rank-0 pair with an empty probe marked best match, or throws reporting rank 0 when a list is empty |
| Search.SearchStopsAtFirstHit | src/helpers.ts:91-104 | if every attempt before j misses and attempt j hits, the trace is those misses followed by the accepted hit |
| Search.SearchFailsAtFirstMissingRank | src/helpers.ts:91-95 | the first attempt that reads a missing rank throws, reporting that rank; the first list is read first |
| Search.SearchFallsBackWhenAllMiss | src/helpers.ts:91-127 | when every attempt misses, the trace is all the misses followed by the rank-0 fallback, and it throws if either list is empty |
| Search.SearchHitsIff | src/helpers.ts:91-127 | the search ends in a hit exactly when some attempt below the limit hits and every earlier attempt reads existing ranks |
| Search.FullLengthListsNeverFallBack | src/helpers.ts:91-127 | when both lists hold exactly maxIndex points, a result always ends in a hit and a failure always reports rank maxIndex; the fallback is unreachable |
| Search.FindBestCornerPoints | src/helpers.ts:75-81 | the search succeeds exactly when all four edge searches succeed; the result is then the left, top, right and bottom traces joined in that order, and its accepted entries are their final entries; otherwise it carries the first failing edge's error |
| Search.JoinedTracesAccepted | src/helpers.ts:80 | joining four well-formed traces leaves exactly their four final entries marked best match |
| Search.AcceptedOfConcat | src/helpers.ts:80 | the best-match entries of a joined trace are those of its parts, in order |
| Search.AcceptedOfTrace | src/helpers.ts:98-127 | a well-formed trace has exactly one best-match entry, its last |
| Search.BestCornerPointsNeverFallBack | src/helpers.ts:75-128 | on lists of length `length`, a result holds four accepted hits, and a failure reports rank `length` |
| Search.RankedSearchNeverFallsBack | src/helpers.ts:56-128 | ranking the candidates and then searching never takes the fallback |
| Search.FindPointsCloseToEdgeWithinRanks | src/helpers.ts:83-128 | corrected search: the trace is well formed, and on non-empty lists of at least maxIndex points it always succeeds |
| Search.WithinRanksNeverThrows | src/helpers.ts:91-95 | corrected search: no attempt reads beyond the lists when they hold at least maxIndex points |
| Search.FindBestCornerPointsWithinRanks | src/helpers.ts:75-81 | corrected four-edge search: a result has four accepted entries, and when all four lists hold exactly `length` > 0 points it always succeeds |
| Search.SingleCandidateThrows | src/helpers.ts:91-95 | with one candidate and no edge pixels, the search as written throws reading rank 1 |
| Search.SingleCandidateFallsBackWithinRanks | src/helpers.ts:115-127 | on the same input, the corrected search returns the rank-0 fallback |
| DScan.TruncateColor | src/main.ts:154-161 | the result lies in 0..255, an in-range value is unchanged, and it equals the helpers' clamp |
| DScan.GetFirstColorIndexForCoord | src/main.ts:254-256 | the index is a multiple of 4 whose quarter is y · width + x, and it equals the helpers' index |
| DScan.FindPointBetween | src/main.ts:225-230 | the result is the rounded-up half sum, lies between the two points, and equals the helpers' midpoint |
| DScan.PointIsCloseToEdge | src/main.ts:232-252 | the result is true exactly when a diagonal pixel at some radius below maxDistance exceeds the limit, and it equals the helpers' hitEdge |
| DScan.FindPointsCloseToEdge | src/main.ts:195-223 | the result is the pair and midpoint of the final entry of the helpers' trace, or the same error; the midpoint is that of the pair |
| DScan.FindPointsCloseToEdges | src/main.ts:187-193 | succeeds exactly when the helpers' four-edge search does and fails with its error; on success it holds the choices of left, top, right and bottom in that order |
| DScan.SortCopy | src/main.ts:176-183 | the copy is a permutation of the candidates sorted by the role's score |
| DScan.FindMaxCornerPoints | src/main.ts:168-185 | all four lists rank the candidates; at every rank the score matches the helpers' copy |

## Left out

- Reading the picture (`scanFromFile`, `scanFromMedia`), the canvas, and the
  DOM: I/O. `ImageData` is a parameter.
- The jsfeat calls (grayscale, blur, corner detection): foreign code. The
  candidate points are a parameter.
- `imgU8ToImageData`: byte-order-dependent packing into a 32-bit view.
- The contrast, high-pass and brightness filters: floating-point image
  arithmetic outside the corner-selection core. Their clamp,
  `truncateColor`, is modelled.
- Pixels.TruncateColor: does not model NaN or infinite inputs. Values are
  exact reals.
- Pixels.Limit: the limit 255 · (percentage / 100) is exact. Floating-point
  rounding of the limit and of the mean is not modelled.
- Probe.FindMidPoint: the `location` parameter is fixed at its default
  0.5, which is the only value the core passes.
- Probe.MidPointIsCloseToEdge: its own ensures states only that the point is
  unchanged. The full contract is the lemma
  `Probe.MidPointIsCloseToEdgeSpec`, which keeps the search proofs small.
- Ranking.FindMaxCornerPoints: the order of equal-score candidates depends
  on the JavaScript engine's sort and on inconsistent comparators, so it is
  not modelled. Two rankings are shown to agree on the score at every rank.
- `findCornerPoints` in `src/main.ts`: glue that ranks the candidates and
  then searches the four edges. Both steps are modelled.
- Search.SearchFrom: its own ensures states only that a successful trace is
  well formed. Its behaviour is stated by three lemmas, whose premises
  together cover every input (`Search.FirstNonMiss`):
  - the stop at the first hit: `Search.SearchStopsAtFirstHit`;
  - the throw at the first missing rank: `Search.SearchFailsAtFirstMissingRank`;
  - the rank-0 fallback: `Search.SearchFallsBackWhenAllMiss`.
- Search.FindPointsCloseToEdge: its own ensures states only that a
  successful trace is well formed. The attempt order, the stop at the first
  hit, the throw at the first missing rank and the rank-0 fallback are the
  lemmas `Search.EdgeSearchStopsAtFirstHit`,
  `Search.EdgeSearchThrowsAtFirstMissingRank` and
  `Search.EdgeSearchFallsBackWhenAllMiss`.

## Findings

| source | as written | input that shows it | evidently intended | confidence | as-written member | corrected member |
|---|---|---|---|---|---|---|
| src/helpers.ts:91-95 (also src/main.ts:202-206) | the base index runs while pIndex < maxIndex, and attempts read rank pIndex + 1, so the last round reads rank maxIndex; lists of exactly maxIndex points never reach the rank-0 fallback, and an edge with no bright midpoint throws a TypeError instead | one candidate (0, 0) in both lists, maxIndex 1, an empty buffer: attempt (1, 0) reads points1[1], which is undefined | the base index runs while pIndex < maxIndex − 1, so that every read rank exists and a missed edge falls back to rank 0 | not executed | Search.SingleCandidateThrows | Search.FindPointsCloseToEdgeWithinRanks |
