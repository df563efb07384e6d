/**
 * Per-record metrics: the decoded Phred scores and mean quality of a quality
 * line, the GC count and GC percentage of a sequence line, and the 32-bit
 * length the analysis stores.
 */
module Metrics {
  import opened Fastq

  /** Phred+33: the byte 33 stands for Phred score 0. */
  const PHRED_OFFSET: int := 33

  /** Decodes each quality byte as the signed score `q - 33`, unclamped, so a
      byte below 33 yields a negative score. */
  function Phreds(quality: seq<byte>): (ps: seq<int>)
    ensures |ps| == |quality|
    ensures forall i :: 0 <= i < |quality| ==> ps[i] == quality[i] as int - PHRED_OFFSET
    ensures forall i :: 0 <= i < |ps| ==> -PHRED_OFFSET <= ps[i] < 256 - PHRED_OFFSET
    ensures (exists i :: 0 <= i < |quality| && quality[i] < 33) <==> (exists i :: 0 <= i < |ps| && ps[i] < 0)
  {
    if quality == [] then [] else [quality[0] as int - PHRED_OFFSET] + Phreds(quality[1..])
  }

  /** The scores a sequence of bytes can decode to. */
  ghost predicate EncodableScores(ps: seq<int>)
  {
    forall i :: 0 <= i < |ps| ==> -PHRED_OFFSET <= ps[i] < 256 - PHRED_OFFSET
  }

  /** Phred+33 encoding, the inverse of Phreds. */
  function EncodeQuality(ps: seq<int>): (quality: seq<byte>)
    requires EncodableScores(ps)
    ensures |quality| == |ps|
  {
    if ps == [] then [] else [(ps[0] + PHRED_OFFSET) as byte] + EncodeQuality(ps[1..])
  }

  /** Decoding an encoded score line gives the scores back. */
  lemma {:induction false} DecodeEncode(ps: seq<int>)
    requires EncodableScores(ps)
    ensures Phreds(EncodeQuality(ps)) == ps
  {
    if ps != [] {
      DecodeEncode(ps[1..]);
      assert EncodeQuality(ps)[1..] == EncodeQuality(ps[1..]);
    }
  }

  /** Encoding the decoded scores gives the quality line back: no two quality
      lines decode to the same scores. */
  lemma {:induction false} EncodeDecode(quality: seq<byte>)
    ensures EncodableScores(Phreds(quality))
    ensures EncodeQuality(Phreds(quality)) == quality
  {
    if quality != [] {
      EncodeDecode(quality[1..]);
      assert Phreds(quality)[1..] == Phreds(quality[1..]);
    }
  }

  /** The mean quality of a read. An empty quality line scores 0.0. Otherwise
      the score is `phredMean` of the decoded scores, where `phredMean` stands
      for the floating-point averaging of error probabilities, which this
      model leaves abstract. */
  function MeanQscore(quality: seq<byte>, phredMean: seq<int> -> real): (q: real)
    ensures |quality| == 0 ==> q == 0.0
    ensures |quality| > 0 ==> exists ps :: |ps| == |quality| && q == phredMean(ps)
  {
    if |quality| == 0 then 0.0 else phredMean(Phreds(quality))
  }

  /** The scored value of a non-empty quality line is that of its decoded scores. */
  lemma MeanQscoreOfScores(ps: seq<int>, phredMean: seq<int> -> real)
    requires |ps| > 0 && EncodableScores(ps)
    ensures MeanQscore(EncodeQuality(ps), phredMean) == phredMean(ps)
  {
    DecodeEncode(ps);
  }

  /** The four bytes counted as G or C: the ASCII codes of C, G, c and g. */
  predicate IsGc(b: byte): (ok: bool)
    ensures ok <==> b as int in {67, 71, 99, 103}
  {
    b == 'G' as byte || b == 'g' as byte || b == 'C' as byte || b == 'c' as byte
  }

  /** The number of G, g, C and c bytes in a sequence. */
  function GcCount(s: seq<byte>): (n: nat)
    ensures n <= |s|
  {
    if s == [] then 0 else GcCount(s[..|s| - 1]) + (if IsGc(s[|s| - 1]) then 1 else 0)
  }

  /** GC content as a percentage of the sequence length. */
  function GcContent(s: seq<byte>): (pct: real)
    requires |s| > 0
    ensures 0.0 <= pct <= 100.0
    ensures pct == 0.0 <==> GcCount(s) == 0
    ensures pct == 100.0 <==> GcCount(s) == |s|
  {
    var count := GcCount(s) as real;
    var len := |s| as real;
    RatioBounds(count, len);
    (count / len) * 100.0
  }

  /** A part over a positive whole is a fraction in [0, 1], and it is 0 or 1
      exactly at the ends. */
  lemma RatioBounds(part: real, whole: real)
    requires 0.0 <= part <= whole && whole > 0.0
    ensures 0.0 <= part / whole <= 1.0
    ensures part / whole == 0.0 <==> part == 0.0
    ensures part / whole == 1.0 <==> part == whole
  {
    var q := part / whole;
    assert q * whole == part;
  }

  /** GC counting agrees with counting occurrences in the multiset of bytes. */
  lemma {:induction false} GcCountByOccurrences(s: seq<byte>)
    ensures GcCount(s) == multiset(s)['G' as byte] + multiset(s)['g' as byte]
                          + multiset(s)['C' as byte] + multiset(s)['c' as byte]
  {
    if s != [] {
      var init := s[..|s| - 1];
      GcCountByOccurrences(init);
      assert s == init + [s[|s| - 1]];
      assert multiset(s) == multiset(init) + multiset{s[|s| - 1]};
    }
  }

  /** The GC count of a concatenation is the sum of the counts. */
  lemma {:induction false} GcCountAppend(s: seq<byte>, t: seq<byte>)
    ensures GcCount(s + t) == GcCount(s) + GcCount(t)
  {
    if t != [] {
      var init := t[..|t| - 1];
      GcCountAppend(s, init);
      assert (s + t)[..|s + t| - 1] == s + init;
      assert (s + t)[|s + t| - 1] == t[|t| - 1];
    } else {
      assert s + t == s;
    }
  }

  /** A sequence without G, g, C or c has GC content 0.0. */
  lemma {:induction false} NoGcIsZero(s: seq<byte>)
    requires |s| > 0
    requires forall i :: 0 <= i < |s| ==> !IsGc(s[i])
    ensures GcContent(s) == 0.0
  {
    NoGcCountsZero(s);
  }

  lemma {:induction false} NoGcCountsZero(s: seq<byte>)
    requires forall i :: 0 <= i < |s| ==> !IsGc(s[i])
    ensures GcCount(s) == 0
  {
    if s != [] {
      NoGcCountsZero(s[..|s| - 1]);
    }
  }

  /** A sequence made only of G, g, C and c has GC content 100.0. */
  lemma {:induction false} AllGcIsHundred(s: seq<byte>)
    requires |s| > 0
    requires forall i :: 0 <= i < |s| ==> IsGc(s[i])
    ensures GcContent(s) == 100.0
  {
    AllGcCountsAll(s);
  }

  lemma {:induction false} AllGcCountsAll(s: seq<byte>)
    requires forall i :: 0 <= i < |s| ==> IsGc(s[i])
    ensures GcCount(s) == |s|
  {
    if s != [] {
      AllGcCountsAll(s[..|s| - 1]);
    }
  }

  /** A byte other than G, g, C and c lengthens the sequence but leaves its
      GC count unchanged. */
  lemma OtherByteNotCounted(s: seq<byte>, b: byte)
    requires !IsGc(b)
    ensures |s + [b]| == |s| + 1 && GcCount(s + [b]) == GcCount(s)
  {
  }

  const I32_MODULUS: int := 0x1_0000_0000
  const I32_MIN: int := -0x8000_0000
  const I32_LIMIT: int := 0x8000_0000

  /** Rust's `as i32` on an unsigned length: two's-complement wrap-around. */
  function AsI32(n: nat): (r: int)
    ensures I32_MIN <= r < I32_LIMIT
    ensures (n - r) % I32_MODULUS == 0
    ensures n < I32_LIMIT ==> r == n
  {
    (n + I32_LIMIT) % I32_MODULUS - I32_LIMIT
  }
}
