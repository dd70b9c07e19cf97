/**
 * The comparison loop of `DuplicateDetectionService.detectDuplicatesAcrossEntries`:
 * every stored entry is segmented, its paragraphs are matched exactly against
 * the new text's hash table and then pairwise against the new text's
 * paragraphs, and the matches are appended to one array, `externalDuplicates`.
 *
 * The store query, the hash function and the two in-text helpers are not
 * part of this model: the entries come in as a sequence and the helpers as
 * function parameters.
 */
module CrossEntry {
  import opened Segmenter

  datatype Kind = Exact | Similar

  /** A stored text entry, as far as the comparison reads it. */
  datatype Entry = Entry(uuid: string, content: string)

  /** One element of `externalDuplicates`. */
  datatype ExternalDuplicate = ExternalDuplicate(
    sourceUuid: string,
    sourceParagraphIndex: int,
    paragraph: string,
    newTextIndex: int,
    kind: Kind)

  /** The two fields `detectDuplicatesInText(newText)` is destructured into. */
  datatype InTextDuplicates<H, I> = InTextDuplicates(hashes: map<H, int>, duplicates: seq<I>)

  /** The object `detectDuplicatesAcrossEntries` resolves to. */
  datatype Detection<I> = Detection(internalDuplicates: seq<I>, externalDuplicates: seq<ExternalDuplicate>)

  /** What stays fixed while the entries are compared: the segmenter
      (`this.splitIntoParagraphs`), the new text's paragraphs and hash table,
      `hashParagraph` and `detectSimilarSections`. */
  datatype Context<H> = Context(
    segment: string -> seq<string>,
    newParagraphs: seq<string>,
    newHashes: map<H, int>,
    hash: string -> H,
    similar: (string, string) -> bool)

  /** `ds.some(d => d.sourceParagraphIndex === i && d.newTextIndex === j)`. */
  predicate HasPair(ds: seq<ExternalDuplicate>, i: int, j: int) {
    exists k :: 0 <= k < |ds| && ds[k].sourceParagraphIndex == i && ds[k].newTextIndex == j
  }

  /** What the exact pass appends for stored paragraph `index`. */
  function ExactAt<H>(uuid: string, paragraph: string, index: int, ctx: Context<H>): seq<ExternalDuplicate> {
    var h := ctx.hash(paragraph);
    if h in ctx.newHashes then [ExternalDuplicate(uuid, index, paragraph, ctx.newHashes[h], Exact)] else []
  }

  /** The records of the exact pass over the first `n` stored paragraphs. */
  function ExactPass<H>(uuid: string, ex: seq<string>, ctx: Context<H>, n: nat): seq<ExternalDuplicate>
    requires n <= |ex|
  {
    if n == 0 then [] else ExactPass(uuid, ex, ctx, n - 1) + ExactAt(uuid, ex[n - 1], n - 1, ctx)
  }

  /** One step of the similar pass: pair `(i, j)` against what has been
      accumulated so far, across all entries. */
  function SimilarAt<H>(acc: seq<ExternalDuplicate>, uuid: string, ex: seq<string>, ctx: Context<H>, i: nat, j: nat): (r: seq<ExternalDuplicate>)
    requires i < |ex| && j < |ctx.newParagraphs|
    ensures acc <= r
  {
    if ctx.similar(ex[i], ctx.newParagraphs[j]) && !HasPair(acc, i, j)
    then acc + [ExternalDuplicate(uuid, i, ex[i], j, Similar)]
    else acc
  }

  /** The inner loop for stored paragraph `i`, over new paragraphs `0..n-1`. */
  function SimilarRow<H>(acc: seq<ExternalDuplicate>, uuid: string, ex: seq<string>, ctx: Context<H>, i: nat, n: nat): (r: seq<ExternalDuplicate>)
    requires i < |ex| && n <= |ctx.newParagraphs|
    ensures acc <= r
  {
    if n == 0 then acc else SimilarAt(SimilarRow(acc, uuid, ex, ctx, i, n - 1), uuid, ex, ctx, i, n - 1)
  }

  /** The outer loop of the similar pass, over stored paragraphs `0..m-1`. */
  function SimilarPass<H>(acc: seq<ExternalDuplicate>, uuid: string, ex: seq<string>, ctx: Context<H>, m: nat): (r: seq<ExternalDuplicate>)
    requires m <= |ex|
    ensures acc <= r
  {
    if m == 0 then acc
    else SimilarRow(SimilarPass(acc, uuid, ex, ctx, m - 1), uuid, ex, ctx, m - 1, |ctx.newParagraphs|)
  }

  /** One iteration of the loop over the entries: the exact pass, then the
      similar pass. */
  function CompareEntry<H>(acc: seq<ExternalDuplicate>, entry: Entry, ctx: Context<H>): (r: seq<ExternalDuplicate>)
    ensures acc <= r
  {
    var ex := ctx.segment(entry.content);
    var withExact := acc + ExactPass(entry.uuid, ex, ctx, |ex|);
    assert acc <= withExact;
    SimilarPass(withExact, entry.uuid, ex, ctx, |ex|)
  }

  /** `externalDuplicates` after the first `n` entries. */
  function ExternalDuplicates<H>(entries: seq<Entry>, ctx: Context<H>, n: nat): seq<ExternalDuplicate>
    requires n <= |entries|
  {
    if n == 0 then [] else CompareEntry(ExternalDuplicates(entries, ctx, n - 1), entries[n - 1], ctx)
  }

  /** `detectDuplicatesAcrossEntries(newText, userId)`, with the entries the
      store returns for `userId` passed in. */
  method DetectDuplicatesAcrossEntries<H(==), I>(
    newText: string,
    existingEntries: seq<Entry>,
    hashParagraph: string -> H,
    detectDuplicatesInText: string -> InTextDuplicates<H, I>,
    detectSimilarSections: (string, string) -> bool)
    returns (result: Detection<I>)
    ensures result.internalDuplicates == detectDuplicatesInText(newText).duplicates
    ensures result.externalDuplicates == ExternalDuplicates(
      existingEntries,
      Context(SplitIntoParagraphs, SplitIntoParagraphs(newText), detectDuplicatesInText(newText).hashes, hashParagraph, detectSimilarSections),
      |existingEntries|)
  {
    var inText := detectDuplicatesInText(newText);
    var externalDuplicates: seq<ExternalDuplicate> := [];
    var newParagraphs := SplitIntoParagraphs(newText);
    var ctx := Context(SplitIntoParagraphs, newParagraphs, inText.hashes, hashParagraph, detectSimilarSections);

    for e := 0 to |existingEntries|
      invariant externalDuplicates == ExternalDuplicates(existingEntries, ctx, e)
    {
      var entry := existingEntries[e];
      var existingParagraphs := SplitIntoParagraphs(entry.content);
      assert existingParagraphs == ctx.segment(entry.content);
      ghost var before := externalDuplicates;
      externalDuplicates := AppendExactMatches(externalDuplicates, entry.uuid, existingParagraphs, ctx);
      externalDuplicates := AppendSimilarMatches(externalDuplicates, entry.uuid, existingParagraphs, ctx);
      assert externalDuplicates == CompareEntry(before, entry, ctx);
    }
    result := Detection(inText.duplicates, externalDuplicates);
  }

  /** The `existingParagraphs.forEach` exact pass for one entry. */
  method AppendExactMatches<H(==)>(externalDuplicates: seq<ExternalDuplicate>, uuid: string, existingParagraphs: seq<string>, ctx: Context<H>)
    returns (r: seq<ExternalDuplicate>)
    ensures r == externalDuplicates + ExactPass(uuid, existingParagraphs, ctx, |existingParagraphs|)
  {
    r := externalDuplicates;
    for index := 0 to |existingParagraphs|
      invariant r == externalDuplicates + ExactPass(uuid, existingParagraphs, ctx, index)
    {
      var paragraph := existingParagraphs[index];
      var hash := ctx.hash(paragraph);
      if hash in ctx.newHashes {
        r := r + [ExternalDuplicate(uuid, index, paragraph, ctx.newHashes[hash], Exact)];
      }
      assert ExactPass(uuid, existingParagraphs, ctx, index + 1)
        == ExactPass(uuid, existingParagraphs, ctx, index) + ExactAt(uuid, paragraph, index, ctx);
    }
  }

  /** The nested `for` loops of the similar pass for one entry, with the
      guard that searches everything accumulated so far. */
  method AppendSimilarMatches<H>(externalDuplicates: seq<ExternalDuplicate>, uuid: string, existingParagraphs: seq<string>, ctx: Context<H>)
    returns (r: seq<ExternalDuplicate>)
    ensures r == SimilarPass(externalDuplicates, uuid, existingParagraphs, ctx, |existingParagraphs|)
  {
    r := externalDuplicates;
    var newParagraphs := ctx.newParagraphs;
    for i := 0 to |existingParagraphs|
      invariant r == SimilarPass(externalDuplicates, uuid, existingParagraphs, ctx, i)
    {
      ghost var rowStart := r;
      for j := 0 to |newParagraphs|
        invariant r == SimilarRow(rowStart, uuid, existingParagraphs, ctx, i, j)
      {
        if ctx.similar(existingParagraphs[i], newParagraphs[j]) {
          if !HasPair(r, i, j) {
            r := r + [ExternalDuplicate(uuid, i, existingParagraphs[i], j, Similar)];
          }
        }
      }
    }
  }

  // ---------------------------------------------------------------------
  // What every record says about the entry it came from

  /** `d` is a record an entry with this uuid and these paragraphs can
      produce: an exact one points at the new text's index for the hash of
      its paragraph, a similar one at a new paragraph the predicate accepts. */
  predicate Describes<H>(d: ExternalDuplicate, uuid: string, ex: seq<string>, ctx: Context<H>) {
    && d.sourceUuid == uuid
    && 0 <= d.sourceParagraphIndex < |ex|
    && d.paragraph == ex[d.sourceParagraphIndex]
    && (d.kind == Exact ==>
          ctx.hash(d.paragraph) in ctx.newHashes && d.newTextIndex == ctx.newHashes[ctx.hash(d.paragraph)])
    && (d.kind == Similar ==>
          0 <= d.newTextIndex < |ctx.newParagraphs| && ctx.similar(d.paragraph, ctx.newParagraphs[d.newTextIndex]))
  }

  predicate RecordOf<H>(d: ExternalDuplicate, entry: Entry, ctx: Context<H>) {
    Describes(d, entry.uuid, ctx.segment(entry.content), ctx)
  }

  /** `r` is what the exact pass over the first `n` stored paragraphs must
      give: one `exact` record for each paragraph whose hash is in the new
      text's table, and nothing else, in increasing paragraph order. */
  predicate ExactRecords<H>(r: seq<ExternalDuplicate>, uuid: string, ex: seq<string>, ctx: Context<H>, n: nat) {
    && (forall k :: 0 <= k < |r| ==>
          r[k].kind == Exact && r[k].sourceParagraphIndex < n && Describes(r[k], uuid, ex, ctx))
    && (forall a, b :: 0 <= a < b < |r| ==> r[a].sourceParagraphIndex < r[b].sourceParagraphIndex)
    && (forall i :: 0 <= i < n && i < |ex| && ctx.hash(ex[i]) in ctx.newHashes ==>
          exists k :: 0 <= k < |r| && r[k].sourceParagraphIndex == i)
  }

  lemma {:induction false} ExactPassRecords<H>(uuid: string, ex: seq<string>, ctx: Context<H>, n: nat)
    requires n <= |ex|
    ensures ExactRecords(ExactPass(uuid, ex, ctx, n), uuid, ex, ctx, n)
  {
    if n > 0 {
      ExactPassRecords(uuid, ex, ctx, n - 1);
      ExactPassStep(uuid, ex, ctx, n);
    }
  }

  /** The exact-pass step for paragraph `n - 1` keeps `ExactRecords`. */
  lemma ExactPassStep<H>(uuid: string, ex: seq<string>, ctx: Context<H>, n: nat)
    requires 0 < n <= |ex|
    requires ExactRecords(ExactPass(uuid, ex, ctx, n - 1), uuid, ex, ctx, n - 1)
    ensures ExactRecords(ExactPass(uuid, ex, ctx, n), uuid, ex, ctx, n)
  {
    var prev := ExactPass(uuid, ex, ctx, n - 1);
    var last := ExactAt(uuid, ex[n - 1], n - 1, ctx);
    var r := ExactPass(uuid, ex, ctx, n);
    assert r == prev + last;
    forall k | 0 <= k < |r|
      ensures r[k].kind == Exact && r[k].sourceParagraphIndex < n && Describes(r[k], uuid, ex, ctx)
    {
      if k < |prev| {
        assert r[k] == prev[k];
      } else {
        assert r[k] == last[0];
      }
    }
    forall a, b | 0 <= a < b < |r| ensures r[a].sourceParagraphIndex < r[b].sourceParagraphIndex {
      if b < |prev| {
        assert r[a] == prev[a] && r[b] == prev[b];
      } else {
        assert r[a] == prev[a] && r[b] == last[0];
      }
    }
    forall i | 0 <= i < n && ctx.hash(ex[i]) in ctx.newHashes
      ensures exists k :: 0 <= k < |r| && r[k].sourceParagraphIndex == i
    {
      if i == n - 1 {
        assert r[|prev|].sourceParagraphIndex == i;
      } else {
        var k :| 0 <= k < |prev| && prev[k].sourceParagraphIndex == i;
        assert r[k] == prev[k];
      }
    }
  }

  /** Everything after `acc` in `r` is a `similar` record of this entry. */
  predicate SimilarTail<H>(acc: seq<ExternalDuplicate>, r: seq<ExternalDuplicate>, uuid: string, ex: seq<string>, ctx: Context<H>) {
    forall k :: |acc| <= k < |r| ==> r[k].kind == Similar && Describes(r[k], uuid, ex, ctx)
  }

  lemma {:induction false} SimilarRowSound<H>(acc: seq<ExternalDuplicate>, uuid: string, ex: seq<string>, ctx: Context<H>, i: nat, n: nat)
    requires i < |ex| && n <= |ctx.newParagraphs|
    ensures SimilarTail(acc, SimilarRow(acc, uuid, ex, ctx, i, n), uuid, ex, ctx)
  {
    if n > 0 {
      var prev := SimilarRow(acc, uuid, ex, ctx, i, n - 1);
      SimilarRowSound(acc, uuid, ex, ctx, i, n - 1);
      var r := SimilarRow(acc, uuid, ex, ctx, i, n);
      forall k | |acc| <= k < |r| ensures r[k].kind == Similar && Describes(r[k], uuid, ex, ctx) {
        if k < |prev| {
          assert r[k] == prev[k];
        }
      }
    }
  }

  lemma {:induction false} SimilarPassSound<H>(acc: seq<ExternalDuplicate>, uuid: string, ex: seq<string>, ctx: Context<H>, m: nat)
    requires m <= |ex|
    ensures SimilarTail(acc, SimilarPass(acc, uuid, ex, ctx, m), uuid, ex, ctx)
  {
    if m > 0 {
      var mid := SimilarPass(acc, uuid, ex, ctx, m - 1);
      SimilarPassSound(acc, uuid, ex, ctx, m - 1);
      SimilarRowSound(mid, uuid, ex, ctx, m - 1, |ctx.newParagraphs|);
      var r := SimilarPass(acc, uuid, ex, ctx, m);
      forall k | |acc| <= k < |r| ensures r[k].kind == Similar && Describes(r[k], uuid, ex, ctx) {
        if k < |mid| { assert r[k] == mid[k]; }
      }
    }
  }

  /** Everything after `acc` in `r` is a record of `entry`. */
  predicate RecordsOfEntry<H>(acc: seq<ExternalDuplicate>, r: seq<ExternalDuplicate>, entry: Entry, ctx: Context<H>) {
    forall k :: |acc| <= k < |r| ==> RecordOf(r[k], entry, ctx)
  }

  /** Everything the comparison of one entry appends is a record of that
      entry: right uuid, a paragraph index in range with its paragraph, and
      for a similar record a new-text index in range that the predicate
      accepts. */
  lemma CompareEntrySound<H>(acc: seq<ExternalDuplicate>, entry: Entry, ctx: Context<H>)
    ensures RecordsOfEntry(acc, CompareEntry(acc, entry, ctx), entry, ctx)
  {
    var ex := ctx.segment(entry.content);
    var exact := ExactPass(entry.uuid, ex, ctx, |ex|);
    var withExact := acc + exact;
    ExactPassRecords(entry.uuid, ex, ctx, |ex|);
    SimilarPassSound(withExact, entry.uuid, ex, ctx, |ex|);
    var r := CompareEntry(acc, entry, ctx);
    forall k | |acc| <= k < |r| ensures RecordOf(r[k], entry, ctx) {
      if k < |withExact| {
        assert r[k] == withExact[k] == exact[k - |acc|];
      }
    }
  }

  /** Every element of `ds` is a record of one of the first `n` entries. */
  predicate FromEntries<H>(ds: seq<ExternalDuplicate>, entries: seq<Entry>, ctx: Context<H>, n: nat)
    requires n <= |entries|
  {
    forall k :: 0 <= k < |ds| ==> exists e :: 0 <= e < n && RecordOf(ds[k], entries[e], ctx)
  }

  /** Every element of `externalDuplicates` is a record of one of the
      entries compared so far. */
  lemma {:induction false} ExternalDuplicatesSound<H>(entries: seq<Entry>, ctx: Context<H>, n: nat)
    requires n <= |entries|
    ensures FromEntries(ExternalDuplicates(entries, ctx, n), entries, ctx, n)
  {
    if n > 0 {
      ExternalDuplicatesSound(entries, ctx, n - 1);
      ExternalDuplicatesSoundStep(entries, ctx, n);
    }
  }

  lemma ExternalDuplicatesSoundStep<H>(entries: seq<Entry>, ctx: Context<H>, n: nat)
    requires 0 < n <= |entries|
    requires FromEntries(ExternalDuplicates(entries, ctx, n - 1), entries, ctx, n - 1)
    ensures FromEntries(ExternalDuplicates(entries, ctx, n), entries, ctx, n)
  {
    var prev := ExternalDuplicates(entries, ctx, n - 1);
    var r := CompareEntry(prev, entries[n - 1], ctx);
    assert r == ExternalDuplicates(entries, ctx, n);
    CompareEntrySound(prev, entries[n - 1], ctx);
    forall k | 0 <= k < |r| ensures exists e :: 0 <= e < n && RecordOf(r[k], entries[e], ctx) {
      if k < |prev| {
        assert r[k] == prev[k];
        var e :| 0 <= e < n - 1 && RecordOf(prev[k], entries[e], ctx);
        assert 0 <= e < n && RecordOf(r[k], entries[e], ctx);
      } else {
        assert 0 <= n - 1 < n && RecordOf(r[k], entries[n - 1], ctx);
      }
    }
  }

  // ---------------------------------------------------------------------
  // The de-duplication guard

  /** No `similar` record shares its `(sourceParagraphIndex, newTextIndex)`
      with any record before it, whatever that record's entry or kind. */
  predicate SimilarRecordsFresh(ds: seq<ExternalDuplicate>) {
    forall a, b :: 0 <= a < b < |ds| && ds[b].kind == Similar ==>
      !(ds[a].sourceParagraphIndex == ds[b].sourceParagraphIndex && ds[a].newTextIndex == ds[b].newTextIndex)
  }

  lemma {:induction false} SimilarRowFresh<H>(acc: seq<ExternalDuplicate>, uuid: string, ex: seq<string>, ctx: Context<H>, i: nat, n: nat)
    requires i < |ex| && n <= |ctx.newParagraphs|
    requires SimilarRecordsFresh(acc)
    ensures SimilarRecordsFresh(SimilarRow(acc, uuid, ex, ctx, i, n))
  {
    if n > 0 {
      var prev := SimilarRow(acc, uuid, ex, ctx, i, n - 1);
      SimilarRowFresh(acc, uuid, ex, ctx, i, n - 1);
      var r := SimilarRow(acc, uuid, ex, ctx, i, n);
      if r != prev {
        assert r == prev + [ExternalDuplicate(uuid, i, ex[i], n - 1, Similar)];
        assert !HasPair(prev, i, n - 1);
      }
    }
  }

  lemma {:induction false} SimilarPassFresh<H>(acc: seq<ExternalDuplicate>, uuid: string, ex: seq<string>, ctx: Context<H>, m: nat)
    requires m <= |ex|
    requires SimilarRecordsFresh(acc)
    ensures SimilarRecordsFresh(SimilarPass(acc, uuid, ex, ctx, m))
  {
    if m > 0 {
      SimilarPassFresh(acc, uuid, ex, ctx, m - 1);
      SimilarRowFresh(SimilarPass(acc, uuid, ex, ctx, m - 1), uuid, ex, ctx, m - 1, |ctx.newParagraphs|);
    }
  }

  /** The guard holds of `externalDuplicates` at every point: a `similar`
      record is never added for an index pair that already carries a record,
      from this entry's exact pass or from any earlier entry. */
  lemma {:induction false} ExternalDuplicatesFresh<H>(entries: seq<Entry>, ctx: Context<H>, n: nat)
    requires n <= |entries|
    ensures SimilarRecordsFresh(ExternalDuplicates(entries, ctx, n))
  {
    if n > 0 {
      var prev := ExternalDuplicates(entries, ctx, n - 1);
      ExternalDuplicatesFresh(entries, ctx, n - 1);
      var entry := entries[n - 1];
      var ex := ctx.segment(entry.content);
      var exact := ExactPass(entry.uuid, ex, ctx, |ex|);
      ExactPassRecords(entry.uuid, ex, ctx, |ex|);
      var withExact := prev + exact;
      assert SimilarRecordsFresh(withExact) by {
        forall a, b | 0 <= a < b < |withExact| && withExact[b].kind == Similar
          ensures !(withExact[a].sourceParagraphIndex == withExact[b].sourceParagraphIndex
                    && withExact[a].newTextIndex == withExact[b].newTextIndex)
        {
          if b >= |prev| {
            assert false;
          }
        }
      }
      SimilarPassFresh(withExact, entry.uuid, ex, ctx, |ex|);
    }
  }

  /** `externalDuplicates` only grows: after more entries it extends what it
      was after fewer. */
  lemma {:induction false} ExternalDuplicatesAppendOnly<H>(entries: seq<Entry>, ctx: Context<H>, n: nat, m: nat)
    requires n <= m <= |entries|
    ensures ExternalDuplicates(entries, ctx, n) <= ExternalDuplicates(entries, ctx, m)
    decreases m
  {
    if n < m {
      ExternalDuplicatesAppendOnly(entries, ctx, n, m - 1);
    }
  }

  // ---------------------------------------------------------------------
  // Coverage of similar pairs

  lemma HasPairExtends(a: seq<ExternalDuplicate>, b: seq<ExternalDuplicate>, i: int, j: int)
    requires a <= b && HasPair(a, i, j)
    ensures HasPair(b, i, j)
  {
    var k :| 0 <= k < |a| && a[k].sourceParagraphIndex == i && a[k].newTextIndex == j;
    assert b[k] == a[k];
  }

  lemma {:induction false} SimilarRowCovers<H>(acc: seq<ExternalDuplicate>, uuid: string, ex: seq<string>, ctx: Context<H>, i: nat, n: nat)
    requires i < |ex| && n <= |ctx.newParagraphs|
    ensures forall j :: 0 <= j < n && ctx.similar(ex[i], ctx.newParagraphs[j]) ==>
      HasPair(SimilarRow(acc, uuid, ex, ctx, i, n), i, j)
  {
    if n > 0 {
      var prev := SimilarRow(acc, uuid, ex, ctx, i, n - 1);
      var r := SimilarRow(acc, uuid, ex, ctx, i, n);
      SimilarRowCovers(acc, uuid, ex, ctx, i, n - 1);
      forall j | 0 <= j < n && ctx.similar(ex[i], ctx.newParagraphs[j]) ensures HasPair(r, i, j) {
        if j < n - 1 {
          HasPairExtends(prev, r, i, j);
        } else if HasPair(prev, i, j) {
          HasPairExtends(prev, r, i, j);
        } else {
          assert r[|prev|].sourceParagraphIndex == i && r[|prev|].newTextIndex == j;
        }
      }
    }
  }

  lemma {:induction false} SimilarPassCovers<H>(acc: seq<ExternalDuplicate>, uuid: string, ex: seq<string>, ctx: Context<H>, m: nat)
    requires m <= |ex|
    ensures forall i, j :: 0 <= i < m && 0 <= j < |ctx.newParagraphs| && ctx.similar(ex[i], ctx.newParagraphs[j]) ==>
      HasPair(SimilarPass(acc, uuid, ex, ctx, m), i, j)
  {
    if m > 0 {
      var prev := SimilarPass(acc, uuid, ex, ctx, m - 1);
      var r := SimilarPass(acc, uuid, ex, ctx, m);
      SimilarPassCovers(acc, uuid, ex, ctx, m - 1);
      SimilarRowCovers(prev, uuid, ex, ctx, m - 1, |ctx.newParagraphs|);
      forall i, j | 0 <= i < m && 0 <= j < |ctx.newParagraphs| && ctx.similar(ex[i], ctx.newParagraphs[j])
        ensures HasPair(r, i, j)
      {
        if i < m - 1 { HasPairExtends(prev, r, i, j); }
      }
    }
  }

  /** Pair `(i, j)` of `entry` is one the predicate accepts. */
  predicate SimilarPairOf<H>(entry: Entry, ctx: Context<H>, i: int, j: int) {
    var ex := ctx.segment(entry.content);
    0 <= i < |ex| && 0 <= j < |ctx.newParagraphs| && ctx.similar(ex[i], ctx.newParagraphs[j])
  }

  /** Every pair the predicate accepts, in any entry compared so far, carries
      some record when the loop is done: a `similar` one, or whichever record
      made the guard skip it. */
  lemma {:induction false} ExternalDuplicatesCoverSimilarPairs<H>(entries: seq<Entry>, ctx: Context<H>, n: nat)
    requires n <= |entries|
    ensures forall e, i, j :: 0 <= e < n && SimilarPairOf(entries[e], ctx, i, j) ==>
      HasPair(ExternalDuplicates(entries, ctx, n), i, j)
  {
    if n > 0 {
      var prev := ExternalDuplicates(entries, ctx, n - 1);
      var r := ExternalDuplicates(entries, ctx, n);
      ExternalDuplicatesCoverSimilarPairs(entries, ctx, n - 1);
      var entry := entries[n - 1];
      var ex := ctx.segment(entry.content);
      var withExact := prev + ExactPass(entry.uuid, ex, ctx, |ex|);
      SimilarPassCovers(withExact, entry.uuid, ex, ctx, |ex|);
      forall e, i, j | 0 <= e < n && SimilarPairOf(entries[e], ctx, i, j) ensures HasPair(r, i, j) {
        if e < n - 1 { HasPairExtends(prev, r, i, j); }
      }
    }
  }

  /** The guard looks at records of every entry: with a predicate that
      accepts everything and no exact hits, a second entry equal to the first
      gets no `similar` record, although its paragraph is accepted too. */
  lemma GuardSpansEntries()
    ensures var ctx := Context(SplitIntoParagraphs, ["B"], map[], (s: string) => s, (p: string, q: string) => true);
      var entries := [Entry("u1", "A"), Entry("u2", "A")];
      && SimilarPairOf(entries[1], ctx, 0, 0)
      && ExternalDuplicates(entries, ctx, 2) == [ExternalDuplicate("u1", 0, "A", 0, Similar)]
  {
    var ctx := Context(SplitIntoParagraphs, ["B"], map[], (s: string) => s, (p: string, q: string) => true);
    var entries := [Entry("u1", "A"), Entry("u2", "A")];
    SegmentShortUnit("A");
    var ex := ["A"];
    assert ctx.segment("A") == ex;
    var rec := ExternalDuplicate("u1", 0, "A", 0, Similar);
    assert ExactPass("u1", ex, ctx, 1) == ExactPass("u1", ex, ctx, 0) + ExactAt("u1", "A", 0, ctx);
    assert ExactPass("u1", ex, ctx, 1) == [];
    assert !HasPair([], 0, 0);
    assert SimilarRow([], "u1", ex, ctx, 0, 1) == SimilarAt([], "u1", ex, ctx, 0, 0) == [rec];
    assert SimilarPass([], "u1", ex, ctx, 1) == [rec];
    var first := ExternalDuplicates(entries, ctx, 1);
    assert entries[0].content == "A" && entries[0].uuid == "u1";
    assert [] + ExactPass("u1", ex, ctx, 1) == [];
    assert ExternalDuplicates(entries, ctx, 0) == [];
    assert first == CompareEntry([], entries[0], ctx);
    assert CompareEntry([], entries[0], ctx) == SimilarPass([] + ExactPass("u1", ex, ctx, 1), "u1", ex, ctx, 1);
    assert first == [rec];
    assert HasPair(first, 0, 0) by { assert first[0] == rec; }
    assert ExactPass("u2", ex, ctx, 1) == ExactPass("u2", ex, ctx, 0) + ExactAt("u2", "A", 0, ctx);
    assert ExactPass("u2", ex, ctx, 1) == [];
    assert SimilarRow(first, "u2", ex, ctx, 0, 1) == SimilarAt(first, "u2", ex, ctx, 0, 0) == first;
    assert SimilarPass(first, "u2", ex, ctx, 1) == first;
    assert entries[1].content == "A" && entries[1].uuid == "u2";
    assert first + ExactPass("u2", ex, ctx, 1) == first;
    assert ExternalDuplicates(entries, ctx, 2) == CompareEntry(first, entries[1], ctx) == first;
  }
}
