/**
 * The selection rule of the analysis, as functions over the reader's items:
 * which decoded records are usable, which of them pass the thresholds, and
 * the properties of that selection.
 */
module Filter {
  import opened Wrappers
  import opened Fastq
  import opened Metrics

  /** The three optional lower bounds of one analysis run. */
  datatype Thresholds = Thresholds(minLength: Option<nat>, minAvgQual: Option<real>, minGcContent: Option<real>)

  const NO_THRESHOLDS := Thresholds(None, None, None)

  /** `map_or(true, |min| x >= min)` on a length bound: an absent bound never
      rejects, and a present one is inclusive. */
  predicate MeetsLength(bound: Option<nat>, x: nat): (ok: bool)
    ensures bound.None? ==> ok
    ensures bound == Some(x) ==> ok
    ensures bound.Some? && x < bound.value ==> !ok
  {
    match bound
    case None => true
    case Some(min) => x >= min
  }

  /** `map_or(true, |min| x >= min)` on a real-valued bound: an absent bound
      never rejects, and a present one is inclusive. */
  predicate MeetsReal(bound: Option<real>, x: real): (ok: bool)
    ensures bound.None? ==> ok
    ensures bound == Some(x) ==> ok
    ensures bound.Some? && x < bound.value ==> !ok
  {
    match bound
    case None => true
    case Some(min) => x >= min
  }

  /** The conjunction of the three threshold checks for a non-empty read. */
  predicate Passes(th: Thresholds, r: Record, phredMean: seq<int> -> real): (ok: bool)
    requires |r.sequence| > 0
    ensures th == NO_THRESHOLDS ==> ok
    ensures ok && th.minLength.Some? ==> |r.sequence| >= th.minLength.value
    ensures ok && th.minAvgQual.Some? ==> MeanQscore(r.quality, phredMean) >= th.minAvgQual.value
    ensures ok && th.minGcContent.Some? ==> GcContent(r.sequence) >= th.minGcContent.value
  {
    && MeetsLength(th.minLength, |r.sequence|)
    && MeetsReal(th.minAvgQual, MeanQscore(r.quality, phredMean))
    && MeetsReal(th.minGcContent, GcContent(r.sequence))
  }

  /** An item the analysis measures at all: a decoded record with a non-empty sequence. */
  predicate IsUsable(item: Item): (ok: bool)
    ensures item.Err? ==> !ok
    ensures item.Ok? && item.value.sequence == [] ==> !ok
    ensures item.Ok? && item.value.sequence != [] ==> ok
  {
    item.Ok? && |item.value.sequence| > 0
  }

  /** The usable records of a stream, in stream order. */
  function Usable(items: seq<Item>): (recs: seq<Record>)
    ensures forall r :: r in recs ==> |r.sequence| > 0
    ensures |recs| <= |items|
  {
    if items == [] then []
    else
      var last := items[|items| - 1];
      Usable(items[..|items| - 1]) + (if IsUsable(last) then [last.value] else [])
  }

  /** The records the analysis reports, in stream order. */
  function Kept(items: seq<Item>, th: Thresholds, phredMean: seq<int> -> real): (recs: seq<Record>)
    ensures |recs| <= |Usable(items)|
  {
    if items == [] then []
    else
      var last := items[|items| - 1];
      Kept(items[..|items| - 1], th, phredMean)
        + (if IsUsable(last) && Passes(th, last.value, phredMean) then [last.value] else [])
  }

  /** One more item of the stream adds at most that item's record to the report. */
  lemma KeptStep(items: seq<Item>, i: nat, th: Thresholds, phredMean: seq<int> -> real)
    requires i < |items|
    ensures Kept(items[..i + 1], th, phredMean)
            == Kept(items[..i], th, phredMean)
               + (if IsUsable(items[i]) && Passes(th, items[i].value, phredMean) then [items[i].value] else [])
  {
    assert items[..i + 1][..i] == items[..i];
    assert items[..i + 1][i] == items[i];
  }

  /** `a` is `b` with some elements left out, the rest in their order. */
  ghost predicate IsSubsequence<T>(a: seq<T>, b: seq<T>)
    decreases |b|
  {
    if a == [] then true
    else if b == [] then false
    else (a[|a| - 1] == b[|b| - 1] && IsSubsequence(a[..|a| - 1], b[..|b| - 1]))
         || IsSubsequence(a, b[..|b| - 1])
  }

  lemma SubsequenceExtend<T>(a: seq<T>, b: seq<T>, x: T)
    requires IsSubsequence(a, b)
    ensures IsSubsequence(a, b + [x])
  {
  }

  lemma SubsequenceBoth<T>(a: seq<T>, b: seq<T>, x: T)
    requires IsSubsequence(a, b)
    ensures IsSubsequence(a + [x], b + [x])
  {
  }

  /** A record is usable exactly when some item of the stream decoded to it
      with a non-empty sequence: decode failures and empty reads never are. */
  lemma {:induction false} UsableMembership(items: seq<Item>, r: Record)
    ensures r in Usable(items) <==> exists i :: 0 <= i < |items| && items[i] == Ok(r) && |r.sequence| > 0
  {
    if items != [] {
      var init := items[..|items| - 1];
      var last := items[|items| - 1];
      UsableMembership(init, r);
      if r in Usable(items) {
        if r in Usable(init) {
          var i :| 0 <= i < |init| && init[i] == Ok(r) && |r.sequence| > 0;
          assert items[i] == init[i];
        } else {
          assert items[|items| - 1] == Ok(r);
        }
      }
      if exists i :: 0 <= i < |items| && items[i] == Ok(r) && |r.sequence| > 0 {
        var i :| 0 <= i < |items| && items[i] == Ok(r) && |r.sequence| > 0;
        if i < |init| {
          assert init[i] == items[i];
        }
      }
    }
  }

  /** A record is reported exactly when it is usable and passes all three thresholds. */
  lemma {:induction false} KeptMembership(items: seq<Item>, th: Thresholds, phredMean: seq<int> -> real, r: Record)
    ensures r in Kept(items, th, phredMean) <==> r in Usable(items) && Passes(th, r, phredMean)
  {
    if items != [] {
      KeptMembership(items[..|items| - 1], th, phredMean, r);
    }
  }

  /** With no thresholds every usable record is reported. */
  lemma {:induction false} NoThresholdsKeepsUsable(items: seq<Item>, phredMean: seq<int> -> real)
    ensures Kept(items, NO_THRESHOLDS, phredMean) == Usable(items)
  {
    if items != [] {
      NoThresholdsKeepsUsable(items[..|items| - 1], phredMean);
    }
  }

  /** Each bound of `strict` is present wherever `loose` has one, and at least as high. */
  predicate AtLeastAsStrict(strict: Thresholds, loose: Thresholds)
  {
    && (loose.minLength.Some? ==> strict.minLength.Some? && strict.minLength.value >= loose.minLength.value)
    && (loose.minAvgQual.Some? ==> strict.minAvgQual.Some? && strict.minAvgQual.value >= loose.minAvgQual.value)
    && (loose.minGcContent.Some? ==> strict.minGcContent.Some? && strict.minGcContent.value >= loose.minGcContent.value)
  }

  /** A record that passes stricter thresholds passes looser ones. */
  lemma StricterPasses(strict: Thresholds, loose: Thresholds, r: Record, phredMean: seq<int> -> real)
    requires AtLeastAsStrict(strict, loose) && |r.sequence| > 0
    ensures Passes(strict, r, phredMean) ==> Passes(loose, r, phredMean)
  {
  }

  /** Tightening thresholds only removes records; the rest keep their order. */
  lemma {:induction false} TighterKeepsSubsequence(items: seq<Item>, strict: Thresholds, loose: Thresholds, phredMean: seq<int> -> real)
    requires AtLeastAsStrict(strict, loose)
    ensures IsSubsequence(Kept(items, strict, phredMean), Kept(items, loose, phredMean))
  {
    if items != [] {
      var init := items[..|items| - 1];
      var last := items[|items| - 1];
      TighterKeepsSubsequence(init, strict, loose, phredMean);
      var ks, kl := Kept(init, strict, phredMean), Kept(init, loose, phredMean);
      if IsUsable(last) {
        var r := last.value;
        StricterPasses(strict, loose, r, phredMean);
        var ps, pl := Passes(strict, r, phredMean), Passes(loose, r, phredMean);
        if ps {
          SubsequenceBoth(ks, kl, r);
        } else if pl {
          assert Kept(items, strict, phredMean) == ks;
          assert Kept(items, loose, phredMean) == kl + [r];
          SubsequenceExtend(ks, kl, r);
        } else {
          assert Kept(items, strict, phredMean) == ks;
          assert Kept(items, loose, phredMean) == kl;
        }
      } else {
        assert Kept(items, strict, phredMean) == ks;
        assert Kept(items, loose, phredMean) == kl;
      }
    }
  }

  /** The report is the usable records with some left out, in stream order. */
  lemma KeptSubsequenceOfUsable(items: seq<Item>, th: Thresholds, phredMean: seq<int> -> real)
    ensures IsSubsequence(Kept(items, th, phredMean), Usable(items))
  {
    TighterKeepsSubsequence(items, th, NO_THRESHOLDS, phredMean);
    NoThresholdsKeepsUsable(items, phredMean);
  }

  /** Each threshold taken alone. */
  function OnlyLength(th: Thresholds): Thresholds { Thresholds(th.minLength, None, None) }
  function OnlyAvgQual(th: Thresholds): Thresholds { Thresholds(None, th.minAvgQual, None) }
  function OnlyGcContent(th: Thresholds): Thresholds { Thresholds(None, None, th.minGcContent) }

  /** The three thresholds combine by conjunction: a record is reported under
      all of them exactly when it is reported under each one alone. */
  lemma KeptIsConjunction(items: seq<Item>, th: Thresholds, phredMean: seq<int> -> real, r: Record)
    ensures r in Kept(items, th, phredMean) <==>
              && r in Kept(items, OnlyLength(th), phredMean)
              && r in Kept(items, OnlyAvgQual(th), phredMean)
              && r in Kept(items, OnlyGcContent(th), phredMean)
  {
    KeptMembership(items, th, phredMean, r);
    KeptMembership(items, OnlyLength(th), phredMean, r);
    KeptMembership(items, OnlyAvgQual(th), phredMean, r);
    KeptMembership(items, OnlyGcContent(th), phredMean, r);
  }

  /** Every bound is inclusive: a usable record whose metric equals the bound is reported. */
  lemma BoundsAreInclusive(items: seq<Item>, r: Record, minLength: nat, min: real, phredMean: seq<int> -> real)
    requires r in Usable(items)
    ensures r in Kept(items, Thresholds(Some(minLength), None, None), phredMean) <==> |r.sequence| >= minLength
    ensures r in Kept(items, Thresholds(None, Some(min), None), phredMean) <==> MeanQscore(r.quality, phredMean) >= min
    ensures r in Kept(items, Thresholds(None, None, Some(min)), phredMean) <==> GcContent(r.sequence) >= min
  {
    KeptMembership(items, Thresholds(Some(minLength), None, None), phredMean, r);
    KeptMembership(items, Thresholds(None, Some(min), None), phredMean, r);
    KeptMembership(items, Thresholds(None, None, Some(min)), phredMean, r);
  }

  /** The selection of a concatenated stream is the concatenation of the
      selections: each item is judged on its own. */
  lemma {:induction false} KeptAppend(a: seq<Item>, b: seq<Item>, th: Thresholds, phredMean: seq<int> -> real)
    ensures Kept(a + b, th, phredMean) == Kept(a, th, phredMean) + Kept(b, th, phredMean)
  {
    if b == [] {
      assert a + b == a;
    } else {
      var init := b[..|b| - 1];
      KeptAppend(a, init, th, phredMean);
      assert (a + b)[..|a + b| - 1] == a + init;
      assert (a + b)[|a + b| - 1] == b[|b| - 1];
    }
  }

  /** A decode failure or an empty read can be removed from the stream without
      changing the report, whatever the thresholds. */
  lemma SkippedItemIsInvisible(a: seq<Item>, item: Item, b: seq<Item>, th: Thresholds, phredMean: seq<int> -> real)
    requires !IsUsable(item)
    ensures Kept(a + [item] + b, th, phredMean) == Kept(a + b, th, phredMean)
  {
    var single := [item];
    assert single[..0] == [] && single[0] == item;
    assert Kept(single, th, phredMean) == [];
    KeptAppend(a, single, th, phredMean);
    assert Kept(a + single, th, phredMean) == Kept(a, th, phredMean);
    KeptAppend(a + single, b, th, phredMean);
    KeptAppend(a, b, th, phredMean);
  }

  /** The ids of a sequence of records, in order. */
  function Ids(recs: seq<Record>): (ids: seq<string>)
    ensures |ids| == |recs|
    ensures forall k :: 0 <= k < |recs| ==> ids[k] == recs[k].id
  {
    if recs == [] then [] else Ids(recs[..|recs| - 1]) + [recs[|recs| - 1].id]
  }

  /** Taking ids keeps a subsequence a subsequence. */
  lemma {:induction false} IdsOfSubsequence(a: seq<Record>, b: seq<Record>)
    requires IsSubsequence(a, b)
    ensures IsSubsequence(Ids(a), Ids(b))
    decreases |b|
  {
    if a != [] {
      var a', b' := a[..|a| - 1], b[..|b| - 1];
      assert Ids(b)[..|b| - 1] == Ids(b');
      if a[|a| - 1] == b[|b| - 1] && IsSubsequence(a', b') {
        IdsOfSubsequence(a', b');
        assert Ids(a)[..|a| - 1] == Ids(a');
      } else {
        IdsOfSubsequence(a, b');
      }
    }
  }

  /** The reported ids are a subsequence, in stream order, of the ids of the
      usable records. */
  lemma ReportedIdsInStreamOrder(items: seq<Item>, th: Thresholds, phredMean: seq<int> -> real)
    ensures IsSubsequence(Ids(Kept(items, th, phredMean)), Ids(Usable(items)))
  {
    KeptSubsequenceOfUsable(items, th, phredMean);
    IdsOfSubsequence(Kept(items, th, phredMean), Usable(items));
  }
}
