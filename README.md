# longReads FASTQ analysis, modelled in Dafny

This project models the read-analysis core of `longReads`: `analyze_fastq_r` and its helper `mean_qscore`. `analyze_fastq_r` takes the path of a FASTQ file and three optional thresholds, and opens the file with the `bio` reader. The model replaces the path and the reader with a `Source` value (see "## Left out"). The function makes one forward pass over the reader's records. It skips decode failures and reads with an empty sequence. For every other read it computes the length, the mean quality and the GC percentage. When all three thresholds pass, it appends the id and the three metrics to four parallel vectors. If the file cannot be opened it returns four empty vectors.

Modules, one per file:

- `Wrappers` (`wrappers.dfy`): `Option` and `Result`.
- `Fastq` (`fastq.dfy`): bytes, `Record` (id, sequence, quality), the reader's items and the source. The source is `Err` when it cannot be opened, and otherwise holds a sequence of `Ok(record)` / `Err(decode failure)` items.
- `Metrics` (`metrics.dfy`): Phred+33 decoding, `MeanQscore`, GC counting and percentage, and the `as i32` length cast.
- `Filter` (`filter.dfy`): the thresholds and the selection rule as functions (`Usable`, `Kept`), with the lemmas about them.
- `Analyze` (`analyze.dfy`): the loop itself, `AnalyzeFastq`. It is a method that grows four sequences and is proved against `Kept`.

The floating-point averaging inside `mean_qscore` (error probabilities, their mean, `-10 * log10`) is the parameter `phredMean: seq<int> -> real`. It is applied to the decoded scores, so the empty-quality case and the signed decode remain in the model. The GC percentage is exact real arithmetic, `(count / len) * 100`.

`lib.rs` has a single quality averaging, `mean_qscore`. It does not clamp, so a quality byte below 33 gives a negative Phred score (`Metrics.Phreds`). Whether the mean quality can go below 0 is left to the abstract `phredMean`.

## Model

| member | source | states |
|---|---|---|
| `Metrics.Phreds` | src/rust/src/lib.rs:13-17 | one score per quality byte, each exactly `q - 33` as a signed value in [-33, 222]; some byte is below 33 iff some score is negative (no clamping) |
| `Metrics.DecodeEncode` | src/rust/src/lib.rs:17 | decoding the Phred+33 encoding of any score line in [-33, 222] gives the scores back |
| `Metrics.EncodeDecode` | src/rust/src/lib.rs:17 | the decoded scores are always encodable, and re-encoding them gives the quality line back, so decoding is a bijection |
| `Metrics.MeanQscore` | src/rust/src/lib.rs:8-24 | an empty quality line scores 0.0 whatever the averaging; otherwise the score is the averaging applied to a score line of the same length |
| `Metrics.MeanQscoreOfScores` | src/rust/src/lib.rs:13-23 | for a non-empty score line, the mean quality of its encoding is the averaging of exactly those scores |
| `Metrics.IsGc` | src/rust/src/lib.rs:64 | a byte counts as GC exactly when it is one of the ASCII codes of C, G, c and g (67, 71, 99, 103) |
| `Metrics.GcCount` | src/rust/src/lib.rs:64 | the GC count never exceeds the sequence length |
| `Metrics.GcCountByOccurrences` | src/rust/src/lib.rs:64 | the GC count equals the number of occurrences of G, g, C and c in the multiset of bytes |
| `Metrics.GcCountAppend` | src/rust/src/lib.rs:64 | the GC count of a concatenation is the sum of the two counts |
| `Metrics.GcContent` | src/rust/src/lib.rs:64-65 | the GC percentage of a non-empty sequence lies in [0, 100]; it is 0 iff there is no G/C byte and 100 iff every byte is G/C |
| `Metrics.NoGcIsZero` | src/rust/src/lib.rs:64-65 | a sequence with no G, g, C or c has GC percentage 0.0 |
| `Metrics.AllGcIsHundred` | src/rust/src/lib.rs:64-65 | a sequence made only of G, g, C and c has GC percentage 100.0 |
| `Metrics.OtherByteNotCounted` | src/rust/src/lib.rs:64-65 | any other byte adds one to the length and nothing to the GC count |
| `Metrics.AsI32` | src/rust/src/lib.rs:73 | the stored length is in the i32 range and congruent to the length modulo 2^32; it equals the length when the length is below 2^31 |
| `Filter.MeetsLength` | src/rust/src/lib.rs:67 | `map_or(true, \|min\| seq_len >= min)`: an absent bound never rejects; a length equal to the bound passes; a length below it fails |
| `Filter.MeetsReal` | src/rust/src/lib.rs:68-69 | `map_or(true, \|min\| x >= min)` on a real metric: an absent bound never rejects; a metric equal to the bound passes; a metric below it fails |
| `Filter.Passes` | src/rust/src/lib.rs:67-71 | the conjunction of the three checks on a non-empty read: with no thresholds it always passes, and when it passes each present bound is met by its metric (length, mean quality, GC percentage) |
| `Filter.IsUsable` | src/rust/src/lib.rs:57-60 | a decode failure is never usable; a decoded record is usable exactly when its sequence is non-empty |
| `Filter.Kept` | src/rust/src/lib.rs:56-71 | the selection the loop performs: each usable item that passes the thresholds, in stream order; it never holds more records than the usable ones |
| `Filter.Ids` | src/rust/src/lib.rs:72 | one id per record, and entry k is the id of record k |
| `Filter.Usable` | src/rust/src/lib.rs:57-60 | every usable record has a non-empty sequence, and there are no more of them than items |
| `Filter.UsableMembership` | src/rust/src/lib.rs:56-60 | a record is usable iff some item of the stream decoded to it with a non-empty sequence; decode failures and empty reads never are |
| `Filter.KeptMembership` | src/rust/src/lib.rs:56-76 | a record is reported iff it is usable and passes all three thresholds |
| `Filter.NoThresholdsKeepsUsable` | src/rust/src/lib.rs:60-71 | with all three thresholds absent, the report is exactly the usable records, in order |
| `Filter.StricterPasses` | src/rust/src/lib.rs:67-69 | a record that passes stricter thresholds passes looser ones |
| `Filter.TighterKeepsSubsequence` | src/rust/src/lib.rs:67-71 | tightening the thresholds yields a subsequence of the looser report: records are only removed, and order is kept |
| `Filter.KeptSubsequenceOfUsable` | src/rust/src/lib.rs:56-76 | the report is a subsequence, in stream order, of the usable records |
| `Filter.KeptIsConjunction` | src/rust/src/lib.rs:67-71 | a record is reported under all three thresholds iff it is reported under each threshold alone |
| `Filter.BoundsAreInclusive` | src/rust/src/lib.rs:67-69 | for a usable record, each single bound admits it iff its metric is `>=` the bound, so a metric equal to the bound is kept |
| `Filter.KeptAppend` | src/rust/src/lib.rs:56-78 | the report of a concatenated stream is the concatenation of the two reports, because each item is judged on its own |
| `Filter.SkippedItemIsInvisible` | src/rust/src/lib.rs:57-60 | removing a decode failure or an empty read from anywhere in the stream leaves the report unchanged, whatever the thresholds |
| `Filter.ReportedIdsInStreamOrder` | src/rust/src/lib.rs:56-72 | the reported ids are a subsequence, in stream order, of the ids of the decoded records with non-empty sequences |
| `Analyze.Describes` | src/rust/src/lib.rs:71-76 | the four columns each have one entry per reported record, and entry k of each is that record's id, `as i32` length, mean quality and GC percentage; so the four columns always have equal length |
| `Analyze.Reported` | src/rust/src/lib.rs:40-78 | an unopenable source reports nothing (40-48); an opened one reports `Kept` of its items, at most one record per item |
| `Analyze.AnalyzeFastq` | src/rust/src/lib.rs:40-85 | an unopenable source gives four empty columns; otherwise the four columns have equal length and entry k of each describes the k-th reported record: id, `as i32` length, mean quality, GC percentage; the id column is exactly the reported ids |
| `Analyze.GgccScenarios` | src/rust/src/lib.rs:40-85 | one GGCC read of quality IIII is reported with no thresholds, with length 4, GC 100.0 and the averaging of four Phred-40 scores. It is kept at a GC bound of 50.0 and dropped at 100.1. An empty read is never reported, and an unopenable source reports nothing |
| `Analyze.StoredLengthsExact` | src/rust/src/lib.rs:59-73 | a stored length equals the read's sequence length whenever that length is below 2^31 |

## Left out

- R binding: the `extendr` attributes, `list!`, `into_robj` and `extendr_module!` are marshalling at the R boundary and are not modelled. The result is the `Analysis` datatype.
- File opening and FASTQ parsing belong to the `bio` crate and are I/O. The model takes the reader as a `Source` value: `Err` for an open failure, otherwise the decoded-or-failed items in stream order.
- Laziness: the reader's single-pass iterator is modelled as a finite sequence walked once from front to back.
- Metrics.MeanQscore: the floating-point averaging (`powf`, `sum`, `log10`) is left abstract as `phredMean`. The model states the empty-input result and the decoding, but nothing about the averaged value itself (for example, that uniform scores average to that score).
- Metrics.GcContent: exact real division, without IEEE rounding. The model also has no NaN, because the code never divides when the length is 0.
- The logarithm of a zero mean error is not modelled, because it lies inside the abstract averaging. Scores decoded from bytes lie in [-33, 222], so every error probability is positive and finite.
- Ids: `record.id().to_string()` is modelled as the record's `id` string, carried through unchanged.
- Thresholds: `min_length` is an unbounded natural number and the two float thresholds are reals. NaN values for thresholds are not modelled.
