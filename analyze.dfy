/**
 * The analysis loop: one forward pass over the reader's items that grows four
 * parallel columns (ids, lengths, mean qualities, GC percentages).
 */
module Analyze {
  import opened Wrappers
  import opened Fastq
  import opened Metrics
  import opened Filter

  /** The four columns handed back to the caller. */
  datatype Analysis = Analysis(ids: seq<string>, lengths: seq<int>, avgQualities: seq<real>, gcContents: seq<real>)

  const EMPTY_ANALYSIS := Analysis([], [], [], [])

  /** All four columns have one entry per record of `recs`, and entry `k` of
      every column describes `recs[k]`. */
  ghost predicate Describes(out: Analysis, recs: seq<Record>, phredMean: seq<int> -> real): (ok: bool)
    ensures ok ==> |out.ids| == |out.lengths| == |out.avgQualities| == |out.gcContents| == |recs|
  {
    && |out.ids| == |recs|
    && |out.lengths| == |recs|
    && |out.avgQualities| == |recs|
    && |out.gcContents| == |recs|
    && forall k :: 0 <= k < |recs| ==>
         && out.ids[k] == recs[k].id
         && out.lengths[k] == AsI32(|recs[k].sequence|)
         && out.avgQualities[k] == MeanQscore(recs[k].quality, phredMean)
         && |recs[k].sequence| > 0
         && out.gcContents[k] == GcContent(recs[k].sequence)
  }

  /** Appending one row for `r` to every column extends the description by `r`. */
  lemma DescribesAppend(out: Analysis, recs: seq<Record>, r: Record, phredMean: seq<int> -> real)
    requires Describes(out, recs, phredMean) && |r.sequence| > 0
    ensures Describes(Analysis(out.ids + [r.id], out.lengths + [AsI32(|r.sequence|)],
                               out.avgQualities + [MeanQscore(r.quality, phredMean)],
                               out.gcContents + [GcContent(r.sequence)]),
                      recs + [r], phredMean)
  {
  }

  /** The records an analysis of `source` reports: none when it cannot be opened. */
  function Reported(source: Source, th: Thresholds, phredMean: seq<int> -> real): (recs: seq<Record>)
    ensures source.Err? ==> recs == []
    ensures source.Ok? ==> |recs| <= |source.value|
  {
    match source
    case Err(_) => []
    case Ok(items) => Kept(items, th, phredMean)
  }

  /** Runs the analysis over `source` with the thresholds `th`. */
  method AnalyzeFastq(source: Source, th: Thresholds, phredMean: seq<int> -> real) returns (out: Analysis)
    ensures Describes(out, Reported(source, th, phredMean), phredMean)
    ensures source.Err? ==> out == EMPTY_ANALYSIS
    ensures |out.ids| == |out.lengths| == |out.avgQualities| == |out.gcContents|
    ensures out.ids == Ids(Reported(source, th, phredMean))
  {
    if source.Err? {
      return EMPTY_ANALYSIS;
    }
    var items := source.value;

    var ids: seq<string> := [];
    var lengths: seq<int> := [];
    var avgQuals: seq<real> := [];
    var gcContents: seq<real> := [];

    for i := 0 to |items|
      invariant Describes(Analysis(ids, lengths, avgQuals, gcContents), Kept(items[..i], th, phredMean), phredMean)
    {
      KeptStep(items, i, th, phredMean);
      var item := items[i];
      if item.Ok? {
        var record := item.value;
        var seqLen := |record.sequence|;
        if seqLen == 0 { continue; }

        var avgQual := MeanQscore(record.quality, phredMean);
        var gcContent := GcContent(record.sequence);

        var lengthOk := MeetsLength(th.minLength, seqLen);
        var qualOk := MeetsReal(th.minAvgQual, avgQual);
        var gcOk := MeetsReal(th.minGcContent, gcContent);

        if lengthOk && qualOk && gcOk {
          DescribesAppend(Analysis(ids, lengths, avgQuals, gcContents), Kept(items[..i], th, phredMean), record, phredMean);
          ids := ids + [record.id];
          lengths := lengths + [AsI32(seqLen)];
          avgQuals := avgQuals + [avgQual];
          gcContents := gcContents + [gcContent];
        }
      }
    }
    assert items[..|items|] == items;
    out := Analysis(ids, lengths, avgQuals, gcContents);
  }

  /** While every reported read is shorter than 2^31 bases, the stored length is
      the exact sequence length. */
  lemma StoredLengthsExact(out: Analysis, recs: seq<Record>, phredMean: seq<int> -> real, k: nat)
    requires Describes(out, recs, phredMean) && k < |recs|
    requires |recs[k].sequence| < I32_LIMIT
    ensures out.lengths[k] == |recs[k].sequence|
  {
  }

  /** A one-read stream with sequence GGCC and quality IIII (Phred 40), and a
      stream holding only an empty read. */
  lemma GgccScenarios(phredMean: seq<int> -> real)
    ensures var r := Record("read1", ['G' as byte, 'G' as byte, 'C' as byte, 'C' as byte],
                                    ['I' as byte, 'I' as byte, 'I' as byte, 'I' as byte]);
            && Reported(Ok([Ok(r)]), NO_THRESHOLDS, phredMean) == [r]
            && AsI32(|r.sequence|) == 4
            && GcContent(r.sequence) == 100.0
            && MeanQscore(r.quality, phredMean) == phredMean([40, 40, 40, 40])
            && Reported(Ok([Ok(r)]), Thresholds(None, None, Some(50.0)), phredMean) == [r]
            && Reported(Ok([Ok(r)]), Thresholds(None, None, Some(100.1)), phredMean) == []
    ensures Reported(Ok([Ok(Record("empty", [], []))]), NO_THRESHOLDS, phredMean) == []
    ensures forall th :: Reported(Err(ReaderError("no such file")), th, phredMean) == []
  {
    var r := Record("read1", ['G' as byte, 'G' as byte, 'C' as byte, 'C' as byte],
                             ['I' as byte, 'I' as byte, 'I' as byte, 'I' as byte]);
    AllGcIsHundred(r.sequence);
    assert Phreds(r.quality) == [40, 40, 40, 40];
    var items: seq<Item> := [Ok(r)];
    assert items[..0] == [] && items[0] == Ok(r);
    assert Kept(items, NO_THRESHOLDS, phredMean) == [r];
    assert Kept(items, Thresholds(None, None, Some(50.0)), phredMean) == [r];
    assert Kept(items, Thresholds(None, None, Some(100.1)), phredMean) == [];
  }
}
