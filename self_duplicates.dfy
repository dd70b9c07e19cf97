/**
 * `detectDuplicates(text)` of the text utilities: the text is cut at blank
 * lines and every paragraph whose hash was already seen is reported, with
 * its position. The hash function (MD5 in hex) is a parameter.
 */
module SelfDuplicates {
  import opened JsStrings

  /** One reported repeat: the paragraph and its position in the text. */
  datatype Duplicate = Duplicate(index: int, paragraph: string)

  /** The hashes of the first `n` paragraphs. */
  function HashesOf<H(==)>(ps: seq<string>, hash: string -> H, n: nat): set<H>
    requires n <= |ps|
  {
    set k | 0 <= k < n :: hash(ps[k])
  }

  /** Some paragraph before position `k` has the same hash as paragraph `k`. */
  predicate SeenBefore<H(==)>(ps: seq<string>, hash: string -> H, k: nat)
    requires k < |ps|
  {
    exists j :: 0 <= j < k && hash(ps[j]) == hash(ps[k])
  }

  /** Position `k` is among the reported ones. */
  predicate Reported(ds: seq<Duplicate>, k: int) {
    exists m :: 0 <= m < |ds| && ds[m].index == k
  }

  /** The reports after the first `n` paragraphs of the scan. */
  function Scan<H(==)>(ps: seq<string>, hash: string -> H, n: nat): seq<Duplicate>
    requires n <= |ps|
  {
    if n == 0 then []
    else
      Scan(ps, hash, n - 1)
        + (if hash(ps[n - 1]) in HashesOf(ps, hash, n - 1) then [Duplicate(n - 1, ps[n - 1])] else [])
  }

  /** `detectDuplicates(text)`, with `hashParagraph` passed in. */
  method DetectDuplicates<H(==)>(text: string, hashParagraph: string -> H) returns (duplicates: seq<Duplicate>)
    ensures duplicates == Scan(SplitBlankLines(text), hashParagraph, |SplitBlankLines(text)|)
  {
    var paragraphs := SplitBlankLines(text);
    var hashes: set<H> := {};
    duplicates := [];
    for index := 0 to |paragraphs|
      invariant hashes == HashesOf(paragraphs, hashParagraph, index)
      invariant duplicates == Scan(paragraphs, hashParagraph, index)
    {
      var paragraph := paragraphs[index];
      var hash := hashParagraph(paragraph);
      HashesStep(paragraphs, hashParagraph, index);
      if hash in hashes {
        duplicates := duplicates + [Duplicate(index, paragraph)];
      } else {
        hashes := hashes + {hash};
      }
    }
    assert hashes == HashesOf(paragraphs, hashParagraph, |paragraphs|);
  }

  /** One more paragraph adds its hash to the set. */
  lemma HashesStep<H>(ps: seq<string>, hash: string -> H, n: nat)
    requires n < |ps|
    ensures HashesOf(ps, hash, n + 1) == HashesOf(ps, hash, n) + {hash(ps[n])}
  {
    var a := HashesOf(ps, hash, n + 1);
    var b := HashesOf(ps, hash, n) + {hash(ps[n])};
    forall h | h in a ensures h in b {
      var k :| 0 <= k < n + 1 && hash(ps[k]) == h;
      if k < n {
        assert hash(ps[k]) in HashesOf(ps, hash, n);
      }
    }
    assert hash(ps[n]) in a;
    forall h | h in HashesOf(ps, hash, n) ensures h in a {
      var k :| 0 <= k < n && hash(ps[k]) == h;
      assert hash(ps[k]) in a;
    }
  }

  /** Every report names a position of the text, holds the paragraph found
      there, and the positions strictly increase. */
  lemma {:induction false} ScanShape<H>(ps: seq<string>, hash: string -> H, n: nat)
    requires n <= |ps|
    ensures forall m :: 0 <= m < |Scan(ps, hash, n)| ==>
      0 <= Scan(ps, hash, n)[m].index < n && Scan(ps, hash, n)[m].paragraph == ps[Scan(ps, hash, n)[m].index]
    ensures forall a, b :: 0 <= a < b < |Scan(ps, hash, n)| ==> Scan(ps, hash, n)[a].index < Scan(ps, hash, n)[b].index
  {
    if n > 0 {
      ScanShape(ps, hash, n - 1);
    }
  }

  /** Position `k` is reported exactly when an earlier paragraph has the same
      hash; so the first paragraph with any given hash is never reported. */
  lemma {:induction false} ScanReportsRepeats<H>(ps: seq<string>, hash: string -> H, n: nat)
    requires n <= |ps|
    ensures forall k :: 0 <= k < n ==> (Reported(Scan(ps, hash, n), k) <==> SeenBefore(ps, hash, k))
  {
    if n > 0 {
      ScanReportsRepeats(ps, hash, n - 1);
      forall k | 0 <= k < n ensures Reported(Scan(ps, hash, n), k) <==> SeenBefore(ps, hash, k) {
        if k < n - 1 {
          ScanKeepsEarlierReports(ps, hash, n, k);
        } else {
          ScanReportsLast(ps, hash, n);
          SeenBeforeIsMembership(ps, hash, k);
        }
      }
    }
  }

  /** Whether an earlier position is reported does not change with a step. */
  lemma ScanKeepsEarlierReports<H>(ps: seq<string>, hash: string -> H, n: nat, k: nat)
    requires 0 < n <= |ps| && k < n - 1
    ensures Reported(Scan(ps, hash, n), k) <==> Reported(Scan(ps, hash, n - 1), k)
  {
    var prev := Scan(ps, hash, n - 1);
    var cur := Scan(ps, hash, n);
    assert prev <= cur;
    ScanShape(ps, hash, n - 1);
    if Reported(cur, k) {
      var m :| 0 <= m < |cur| && cur[m].index == k;
      if m < |prev| {
        assert prev[m].index == k;
      }
    }
    if Reported(prev, k) {
      var m :| 0 <= m < |prev| && prev[m].index == k;
      assert cur[m].index == k;
    }
  }

  /** The step for position `n - 1` reports it when its hash is already in
      the set. */
  lemma ScanReportsLast<H>(ps: seq<string>, hash: string -> H, n: nat)
    requires 0 < n <= |ps|
    ensures Reported(Scan(ps, hash, n), n - 1) <==> hash(ps[n - 1]) in HashesOf(ps, hash, n - 1)
  {
    var prev := Scan(ps, hash, n - 1);
    var cur := Scan(ps, hash, n);
    ScanShape(ps, hash, n - 1);
    if hash(ps[n - 1]) in HashesOf(ps, hash, n - 1) {
      assert cur[|prev|].index == n - 1;
    } else {
      assert cur == prev;
    }
  }

  /** Seen before means the hash is in the set built so far. */
  lemma SeenBeforeIsMembership<H>(ps: seq<string>, hash: string -> H, k: nat)
    requires k < |ps|
    ensures SeenBefore(ps, hash, k) <==> hash(ps[k]) in HashesOf(ps, hash, k)
  {
    if SeenBefore(ps, hash, k) {
      var j :| 0 <= j < k && hash(ps[j]) == hash(ps[k]);
      assert hash(ps[j]) in HashesOf(ps, hash, k);
    }
  }

  /** The reports and the distinct hashes together account for every
      paragraph once. */
  lemma {:induction false} ScanCount<H>(ps: seq<string>, hash: string -> H, n: nat)
    requires n <= |ps|
    ensures |Scan(ps, hash, n)| + |HashesOf(ps, hash, n)| == n
  {
    if n > 0 {
      ScanCount(ps, hash, n - 1);
      HashesStep(ps, hash, n - 1);
    }
  }

  /** The whole text: the first paragraph is never reported. */
  lemma FirstParagraphNeverReported<H>(ps: seq<string>, hash: string -> H)
    requires |ps| >= 1
    ensures !Reported(Scan(ps, hash, |ps|), 0)
  {
    ScanReportsRepeats(ps, hash, |ps|);
  }
}
