/** The arithmetic of the result screen (components/ResultView.tsx): totals over
    the batch, the overall saving and whether it is shown, and download names. */
module ResultView {
  import opened Types
  import SizeFormat

  /** results.reduce((acc, curr) => acc + size(curr), 0): the sizes added from the left. */
  function SumBy(results: seq<CompressionResult>, size: CompressionResult -> nat): nat
  {
    if results == [] then 0
    else SumBy(results[..|results| - 1], size) + size(results[|results| - 1])
  }

  function TotalOriginal(results: seq<CompressionResult>): nat
  {
    SumBy(results, (r: CompressionResult) => r.originalSizeRaw)
  }

  function TotalNew(results: seq<CompressionResult>): nat
  {
    SumBy(results, (r: CompressionResult) => r.newSizeRaw)
  }

  function TotalSavings(results: seq<CompressionResult>): int
  {
    TotalOriginal(results) - TotalNew(results)
  }

  function IsOverallGain(results: seq<CompressionResult>): bool
  {
    TotalSavings(results) > 0
  }

  /** The "Toplam ... kazanç sağlandı." line, rendered only on an overall gain. */
  function SavingsMessage(results: seq<CompressionResult>): Option<string>
  {
    if IsOverallGain(results) then
      Some("Toplam " + SizeFormat.FormatSize(TotalSavings(results)) + " kazanç sağlandı.")
    else None
  }

  /** The name a result is downloaded under. */
  function DownloadName(result: CompressionResult): (name: string)
    ensures |name| == |"optimize_"| + |result.fileName|
    ensures name[..|"optimize_"|] == "optimize_" && name[|"optimize_"|..] == result.fileName
  {
    "optimize_" + result.fileName
  }

  // ---------------------------------------------------------------------------
  // Properties

  lemma {:induction false} SumByAppend(a: seq<CompressionResult>, b: seq<CompressionResult>, size: CompressionResult -> nat)
    ensures SumBy(a + b, size) == SumBy(a, size) + SumBy(b, size)
    decreases |b|
  {
    if b == [] {
      assert a + b == a;
    } else {
      var n := |b| - 1;
      assert (a + b)[..|a + b| - 1] == a + b[..n];
      SumByAppend(a, b[..n], size);
    }
  }

  /** Appending one result adds its size. */
  lemma {:induction false} SumBySnoc(a: seq<CompressionResult>, x: CompressionResult, size: CompressionResult -> nat)
    ensures SumBy(a + [x], size) == SumBy(a, size) + size(x)
  {
    assert (a + [x])[..|a|] == a;
  }

  /** Removing one result takes exactly its size off the total. */
  lemma {:induction false} SumByRemove(s: seq<CompressionResult>, k: nat, size: CompressionResult -> nat)
    requires k < |s|
    ensures SumBy(s, size) == size(s[k]) + SumBy(s[..k] + s[k + 1..], size)
  {
    var pre, x, post := s[..k], s[k], s[k + 1..];
    assert s == (pre + [x]) + post;
    SumBySnoc(pre, x, size);
    SumByAppend(pre + [x], post, size);
    SumByAppend(pre, post, size);
  }

  /** The totals do not depend on the order of the results. */
  lemma {:induction false} SumByPermutation(a: seq<CompressionResult>, b: seq<CompressionResult>, size: CompressionResult -> nat)
    requires multiset(a) == multiset(b)
    ensures SumBy(a, size) == SumBy(b, size)
    decreases |a|
  {
    if a != [] {
      var n := |a| - 1;
      var x := a[n];
      assert a == a[..n] + [x];
      assert x in multiset(b);
      var k :| 0 <= k < |b| && b[k] == x;
      var rest := b[..k] + b[k + 1..];
      assert b == b[..k] + [x] + b[k + 1..];
      assert multiset(rest) == multiset(b) - multiset{x};
      assert multiset(a[..n]) == multiset(a) - multiset{x};
      SumByPermutation(a[..n], rest, size);
      SumByRemove(b, k, size);
    } else {
      assert |b| == |multiset(b)| == 0;
    }
  }

  lemma {:induction false} TotalsOrderIndependent(a: seq<CompressionResult>, b: seq<CompressionResult>)
    requires multiset(a) == multiset(b)
    ensures TotalOriginal(a) == TotalOriginal(b) && TotalNew(a) == TotalNew(b)
    ensures TotalSavings(a) == TotalSavings(b) && IsOverallGain(a) == IsOverallGain(b)
  {
    SumByPermutation(a, b, (r: CompressionResult) => r.originalSizeRaw);
    SumByPermutation(a, b, (r: CompressionResult) => r.newSizeRaw);
  }

  /** The overall gain is exactly "the new total is below the original total", and
      the savings line appears exactly then. */
  lemma {:induction false} GainAndMessage(results: seq<CompressionResult>)
    ensures IsOverallGain(results) <==> TotalNew(results) < TotalOriginal(results)
    ensures SavingsMessage(results).Some? <==> IsOverallGain(results)
    ensures IsOverallGain(results) ==> TotalSavings(results) == TotalOriginal(results) - TotalNew(results) > 0
  {
  }
}
