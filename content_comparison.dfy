/**
 * `compareContent(storedContent, crawledContent)`: both texts are cut at
 * blank lines and every (stored, crawled) paragraph pair whose similarity
 * `1 - distance / longer length` exceeds 0.8 is reported with its score.
 * Scores are exact rationals here.
 */
module ContentComparison {
  import opened JsStrings
  import opened Levenshtein

  /** One reported pair. */
  datatype Similarity = Similarity(storedIndex: int, crawledIndex: int, similarityScore: real)

  /** `1 - d / m`, defined when the longer length `m` is positive: a score
      between 0 and 1 that is 1 exactly for equal paragraphs. */
  function Score(a: string, b: string): (r: real)
    requires Max(|a|, |b|) > 0
    ensures 0.0 <= r <= 1.0
    ensures r == 1.0 <==> a == b
  {
    DistanceAtMostLonger(a, b);
    DistanceZeroIffEqual(a, b);
    ScaleWithin(Distance(a, b) as real, Max(|a|, |b|) as real);
    1.0 - (Distance(a, b) as real) / (Max(|a|, |b|) as real)
  }

  lemma ScaleWithin(d: real, m: real)
    requires 0.0 <= d <= m && m > 0.0
    ensures 0.0 <= 1.0 - d / m <= 1.0
    ensures 1.0 - d / m == 1.0 <==> d == 0.0
  {
  }

  /** The test of the inner loop. When both paragraphs are empty the score is
      `0 / 0`, which is NaN in JavaScript, and `NaN > 0.8` is false. */
  predicate Close(a: string, b: string) {
    Max(|a|, |b|) > 0 && Score(a, b) > 0.8
  }

  /** The reports of the inner loop for stored paragraph `i`, over the first
      `n` crawled paragraphs. */
  function Row(sp: seq<string>, cp: seq<string>, i: nat, n: nat): seq<Similarity>
    requires i < |sp| && n <= |cp|
  {
    if n == 0 then [] else
      Row(sp, cp, i, n - 1)
      + (if Close(sp[i], cp[n - 1]) then [Similarity(i, n - 1, Score(sp[i], cp[n - 1]))] else [])
  }

  /** The reports after the first `m` stored paragraphs. */
  function Matches(sp: seq<string>, cp: seq<string>, m: nat): seq<Similarity>
    requires m <= |sp|
  {
    if m == 0 then [] else Matches(sp, cp, m - 1) + Row(sp, cp, m - 1, |cp|)
  }

  /** `compareContent(storedContent, crawledContent)`. */
  method CompareContent(storedContent: string, crawledContent: string) returns (similarities: seq<Similarity>)
    ensures similarities == Matches(SplitBlankLines(storedContent), SplitBlankLines(crawledContent), |SplitBlankLines(storedContent)|)
  {
    var storedParagraphs := SplitBlankLines(storedContent);
    var crawledParagraphs := SplitBlankLines(crawledContent);
    similarities := [];
    for storedIndex := 0 to |storedParagraphs|
      invariant similarities == Matches(storedParagraphs, crawledParagraphs, storedIndex)
    {
      ghost var rowStart := similarities;
      var storedParagraph := storedParagraphs[storedIndex];
      for crawledIndex := 0 to |crawledParagraphs|
        invariant similarities == rowStart + Row(storedParagraphs, crawledParagraphs, storedIndex, crawledIndex)
      {
        var crawledParagraph := crawledParagraphs[crawledIndex];
        var longer := Max(|storedParagraph|, |crawledParagraph|);
        if longer > 0 {
          var similarityScore := 1.0 - (Distance(storedParagraph, crawledParagraph) as real) / (longer as real);
          if similarityScore > 0.8 {
            similarities := similarities + [Similarity(storedIndex, crawledIndex, similarityScore)];
          }
        }
      }
    }
  }

  /** With exact arithmetic the threshold is an integer comparison:
      `1 - d/m > 0.8` exactly when `5 d < m`. */
  lemma CloseIffFifth(a: string, b: string)
    ensures Close(a, b) <==> 5 * Distance(a, b) < Max(|a|, |b|)
  {
    if Max(|a|, |b|) > 0 {
      ThresholdOnReals(Distance(a, b) as real, Max(|a|, |b|) as real);
    }
  }

  lemma ThresholdOnReals(d: real, m: real)
    requires m > 0.0
    ensures 1.0 - d / m > 0.8 <==> 5.0 * d < m
  {
  }

  /** Every report holds in-bounds indices, a pair that passes the test,
      and that pair's score; and every passing pair is reported. */
  predicate InRow(ds: seq<Similarity>, i: int, j: int) {
    exists k :: 0 <= k < |ds| && ds[k].storedIndex == i && ds[k].crawledIndex == j
  }

  predicate Sound(ds: seq<Similarity>, sp: seq<string>, cp: seq<string>) {
    forall k :: 0 <= k < |ds| ==>
      && 0 <= ds[k].storedIndex < |sp| && 0 <= ds[k].crawledIndex < |cp|
      && Close(sp[ds[k].storedIndex], cp[ds[k].crawledIndex])
      && ds[k].similarityScore == Score(sp[ds[k].storedIndex], cp[ds[k].crawledIndex])
  }

  /** Reports strictly increase by stored index, then by crawled index. */
  predicate Ordered(ds: seq<Similarity>) {
    forall a, b :: 0 <= a < b < |ds| ==>
      ds[a].storedIndex < ds[b].storedIndex
      || (ds[a].storedIndex == ds[b].storedIndex && ds[a].crawledIndex < ds[b].crawledIndex)
  }

  lemma {:induction false} RowShape(sp: seq<string>, cp: seq<string>, i: nat, n: nat)
    requires i < |sp| && n <= |cp|
    ensures Sound(Row(sp, cp, i, n), sp, cp)
    ensures forall k :: 0 <= k < |Row(sp, cp, i, n)| ==>
      Row(sp, cp, i, n)[k].storedIndex == i && Row(sp, cp, i, n)[k].crawledIndex < n
    ensures forall a, b :: 0 <= a < b < |Row(sp, cp, i, n)| ==> Row(sp, cp, i, n)[a].crawledIndex < Row(sp, cp, i, n)[b].crawledIndex
  {
    if n > 0 {
      RowShape(sp, cp, i, n - 1);
    }
  }

  lemma {:induction false} MatchesShape(sp: seq<string>, cp: seq<string>, m: nat)
    requires m <= |sp|
    ensures Sound(Matches(sp, cp, m), sp, cp) && Ordered(Matches(sp, cp, m))
    ensures forall k :: 0 <= k < |Matches(sp, cp, m)| ==> Matches(sp, cp, m)[k].storedIndex < m
  {
    if m > 0 {
      MatchesShape(sp, cp, m - 1);
      RowShape(sp, cp, m - 1, |cp|);
      var prev, row := Matches(sp, cp, m - 1), Row(sp, cp, m - 1, |cp|);
      SoundAppend(prev, row, sp, cp);
      OrderedAppend(prev, row, m - 1);
      assert Matches(sp, cp, m) == prev + row;
    }
  }

  lemma SoundAppend(prev: seq<Similarity>, row: seq<Similarity>, sp: seq<string>, cp: seq<string>)
    requires Sound(prev, sp, cp) && Sound(row, sp, cp)
    ensures Sound(prev + row, sp, cp)
  {
    var all := prev + row;
    forall k | 0 <= k < |all| ensures all[k] == if k < |prev| then prev[k] else row[k - |prev|] {
    }
  }

  /** Reports of earlier rows followed by an ordered row `i` stay ordered. */
  lemma OrderedAppend(prev: seq<Similarity>, row: seq<Similarity>, i: int)
    requires Ordered(prev) && forall k :: 0 <= k < |prev| ==> prev[k].storedIndex < i
    requires forall k :: 0 <= k < |row| ==> row[k].storedIndex == i
    requires forall a, b :: 0 <= a < b < |row| ==> row[a].crawledIndex < row[b].crawledIndex
    ensures Ordered(prev + row) && forall k :: 0 <= k < |prev + row| ==> (prev + row)[k].storedIndex <= i
  {
    var all := prev + row;
    forall k | 0 <= k < |all| ensures all[k] == if k < |prev| then prev[k] else row[k - |prev|] {
    }
  }

  lemma {:induction false} RowComplete(sp: seq<string>, cp: seq<string>, i: nat, n: nat)
    requires i < |sp| && n <= |cp|
    ensures forall j :: 0 <= j < n && Close(sp[i], cp[j]) ==> InRow(Row(sp, cp, i, n), i, j)
  {
    if n > 0 {
      RowComplete(sp, cp, i, n - 1);
      var prev := Row(sp, cp, i, n - 1);
      var cur := Row(sp, cp, i, n);
      assert prev <= cur;
      forall j | 0 <= j < n && Close(sp[i], cp[j]) ensures InRow(cur, i, j) {
        if j < n - 1 {
          var k :| 0 <= k < |prev| && prev[k].storedIndex == i && prev[k].crawledIndex == j;
          assert cur[k] == prev[k];
        } else {
          assert cur[|prev|].crawledIndex == j;
        }
      }
    }
  }

  lemma {:induction false} MatchesComplete(sp: seq<string>, cp: seq<string>, m: nat)
    requires m <= |sp|
    ensures forall i, j :: 0 <= i < m && 0 <= j < |cp| && Close(sp[i], cp[j]) ==> InRow(Matches(sp, cp, m), i, j)
  {
    if m > 0 {
      MatchesComplete(sp, cp, m - 1);
      RowComplete(sp, cp, m - 1, |cp|);
      var prev, row := Matches(sp, cp, m - 1), Row(sp, cp, m - 1, |cp|);
      var cur := prev + row;
      forall i, j | 0 <= i < m && 0 <= j < |cp| && Close(sp[i], cp[j]) ensures InRow(cur, i, j) {
        if i < m - 1 {
          var k :| 0 <= k < |prev| && prev[k].storedIndex == i && prev[k].crawledIndex == j;
          assert cur[k] == prev[k];
        } else {
          var k :| 0 <= k < |row| && row[k].storedIndex == i && row[k].crawledIndex == j;
          assert cur[|prev| + k] == row[k];
        }
      }
    }
  }

  /** The whole comparison: a pair of paragraphs is reported (once, with its
      score) exactly when it passes the test, in row-major order. */
  lemma CompareContentMeaning(sp: seq<string>, cp: seq<string>)
    ensures Sound(Matches(sp, cp, |sp|), sp, cp) && Ordered(Matches(sp, cp, |sp|))
    ensures forall i, j :: 0 <= i < |sp| && 0 <= j < |cp| ==>
      (InRow(Matches(sp, cp, |sp|), i, j) <==> Close(sp[i], cp[j]))
  {
    var r := Matches(sp, cp, |sp|);
    MatchesShape(sp, cp, |sp|);
    MatchesComplete(sp, cp, |sp|);
    forall i, j | 0 <= i < |sp| && 0 <= j < |cp| && InRow(r, i, j) ensures Close(sp[i], cp[j]) {
      var k :| 0 <= k < |r| && r[k].storedIndex == i && r[k].crawledIndex == j;
    }
  }

  /** Every reported score lies in (0.8, 1]. */
  lemma ScoreBounds(a: string, b: string)
    requires Close(a, b)
    ensures 0.8 < Score(a, b) <= 1.0
  {
  }

  /** Two empty paragraphs are never reported. */
  lemma EmptyPairNotClose()
    ensures !Close("", "")
  {
  }

  /** A non-empty paragraph is always reported against itself, with score 1. */
  lemma IdenticalClose(a: string)
    requires |a| > 0
    ensures Close(a, a) && Score(a, a) == 1.0
  {
    DistanceToSelf(a);
  }
}
