/**
 * `DuplicateDetectionService.splitIntoParagraphs`: a text is cut at every run
 * of line feeds, and each resulting chunk longer than 100 characters is cut
 * again into trimmed, non-empty sentences.
 */
module Segmenter {
  import opened JsStrings

  /** Chunks longer than this are re-split into sentences. */
  const LongChunk: nat := 100

  /** `s` without the run of line feeds it starts with: what is left does
      not start with a line feed, and everything before it is line feeds
      (`DropNewlinesSuffix`: what is left is the end of `s`). */
  function DropNewlines(s: string): (r: string)
    ensures |r| <= |s|
    ensures r == [] || r[0] != '\n'
    ensures forall k :: 0 <= k < |s| - |r| ==> s[k] == '\n'
    decreases |s|
  {
    if |s| > 0 && s[0] == '\n' then DropNewlines(s[1..]) else s
  }

  /** What `DropNewlines` leaves is a suffix of `s`. */
  lemma {:induction false} DropNewlinesSuffix(s: string)
    ensures DropNewlines(s) == s[|s| - |DropNewlines(s)|..]
    decreases |s|
  {
    if |s| > 0 && s[0] == '\n' {
      DropNewlinesSuffix(s[1..]);
      assert s[1..][|s| - 1 - |DropNewlines(s)|..] == s[|s| - |DropNewlines(s)|..];
    }
  }

  /** `text.split(/\n+/)`: the pieces between maximal runs of line feeds.
      Only the first and the last piece can be empty. */
  function SplitNewlineRuns(s: string): (r: seq<string>)
    ensures |r| >= 1
    ensures forall k :: 0 <= k < |r| ==> '\n' !in r[k]
    ensures forall k :: 0 < k < |r| - 1 ==> r[k] != ""
    ensures |s| > 0 && s[0] != '\n' ==> r[0] != "" && r[0][0] == s[0]
    decreases |s|
  {
    if |s| == 0 then [""]
    else if s[0] == '\n' then [""] + SplitNewlineRuns(DropNewlines(s))
    else
      var rest := SplitNewlineRuns(s[1..]);
      [[s[0]] + rest[0]] + rest[1..]
  }

  /** A text without line feeds is a single chunk. */
  lemma {:induction false} SplitNewlineRunsSingle(s: string)
    requires '\n' !in s
    ensures SplitNewlineRuns(s) == [s]
    decreases |s|
  {
    if |s| > 0 {
      assert '\n' !in s[1..] by {
        forall k | 0 <= k < |s| - 1 ensures s[1..][k] != '\n' { assert s[1..][k] == s[k + 1]; }
      }
      SplitNewlineRunsSingle(s[1..]);
      assert [s[0]] + s[1..] == s;
    }
  }

  /** A line in front of a line feed becomes the first chunk; the rest of
      the run of line feeds is absorbed. */
  lemma {:induction false} SplitNewlineRunsAfterLine(a: string, b: string)
    requires '\n' !in a
    ensures SplitNewlineRuns(a + "\n" + b) == [a] + SplitNewlineRuns(DropNewlines(b))
    decreases |a|
  {
    if |a| == 0 {
      SplitNewlineRunsAtBreak(b);
      assert a + "\n" + b == "\n" + b;
    } else {
      assert '\n' !in a[1..] by {
        forall k | 0 <= k < |a| - 1 ensures a[1..][k] != '\n' { assert a[1..][k] == a[k + 1]; }
      }
      SplitNewlineRunsAfterLine(a[1..], b);
      var t := a[1..] + "\n" + b;
      assert a + "\n" + b == [a[0]] + t;
      SplitNewlineRunsCons(a[0], t);
      assert [a[0]] + a[1..] == a;
    }
  }

  lemma SplitNewlineRunsCons(c: char, t: string)
    requires c != '\n'
    ensures SplitNewlineRuns([c] + t) == [[c] + SplitNewlineRuns(t)[0]] + SplitNewlineRuns(t)[1..]
  {
    assert ([c] + t)[1..] == t;
  }

  lemma SplitNewlineRunsAtBreak(b: string)
    ensures SplitNewlineRuns("\n" + b) == [""] + SplitNewlineRuns(DropNewlines(b))
  {
    var s := "\n" + b;
    assert s[1..] == b;
    assert DropNewlines(s) == DropNewlines(b);
  }

  lemma JoinStartsWithFirstPart(parts: seq<string>, sep: string)
    requires |parts| >= 1 && parts[0] != ""
    ensures Join(parts, sep) != "" && Join(parts, sep)[0] == parts[0][0]
  {
  }

  /** Joining lines with "\n" and cutting at runs of line feeds gives the
      lines back, provided no line holds a line feed and no inner line is
      empty (an empty inner line would merge two line feeds into one run). */
  lemma {:induction false} SplitNewlineRunsJoin(lines: seq<string>)
    requires |lines| >= 1
    requires forall k :: 0 <= k < |lines| ==> '\n' !in lines[k]
    requires forall k :: 0 < k < |lines| - 1 ==> lines[k] != ""
    ensures SplitNewlineRuns(Join(lines, "\n")) == lines
    decreases |lines|
  {
    if |lines| == 1 {
      SplitNewlineRunsSingle(lines[0]);
    } else {
      var tail := lines[1..];
      var b := Join(tail, "\n");
      assert Join(lines, "\n") == lines[0] + "\n" + b;
      SplitNewlineRunsAfterLine(lines[0], b);
      if |tail| == 1 {
        assert b == lines[1];
      } else {
        JoinStartsWithFirstPart(tail, "\n");
      }
      assert DropNewlines(b) == b;
      SplitNewlineRunsJoin(tail);
      assert [lines[0]] + tail == lines;
    }
  }

  /** A period at `k` followed by white space: where `/\.(?=\s)/` matches. */
  predicate SentenceBreakAt(s: string, k: int) {
    0 <= k && k + 1 < |s| && s[k] == '.' && IsSpace(s[k + 1])
  }

  /** `para.split(/\.(?=\s)/)`: cut at each period followed by white space;
      the period is dropped and the white space stays with the next piece. */
  function SplitSentences(s: string): (r: seq<string>)
    ensures |r| >= 1 && r[0] <= s
    decreases |s|
  {
    if |s| == 0 then [""]
    else if SentenceBreakAt(s, 0) then [""] + SplitSentences(s[1..])
    else
      var rest := SplitSentences(s[1..]);
      [[s[0]] + rest[0]] + rest[1..]
  }

  /** The first sentence is empty only when the chunk is, or starts with a
      break; every later sentence starts with the white space that followed
      its period. */
  lemma {:induction false} SentencesStartWithSpace(s: string)
    ensures |s| > 0 && !SentenceBreakAt(s, 0) ==> SplitSentences(s)[0] != ""
    ensures forall k :: 0 < k < |SplitSentences(s)| ==> SplitSentences(s)[k] != "" && IsSpace(SplitSentences(s)[k][0])
    decreases |s|
  {
    if |s| > 0 {
      var r := SplitSentences(s);
      var rest := SplitSentences(s[1..]);
      SentencesStartWithSpace(s[1..]);
      if SentenceBreakAt(s, 0) {
        assert r == [""] + rest;
        assert rest[0] != "" && rest[0][0] == s[1];
        forall k | 0 < k < |r| ensures r[k] != "" && IsSpace(r[k][0]) {
          assert r[k] == rest[k - 1];
        }
      } else {
        assert r == [[s[0]] + rest[0]] + rest[1..];
        forall k | 0 < k < |r| ensures r[k] != "" && IsSpace(r[k][0]) {
          assert r[k] == rest[k];
        }
      }
    }
  }

  /** Every sentence is made of characters of the chunk. */
  lemma {:induction false} SentencesFromChunk(s: string)
    ensures forall k :: 0 <= k < |SplitSentences(s)| ==> CharsOf(SplitSentences(s)[k], s)
    decreases |s|
  {
    if |s| > 0 {
      var r := SplitSentences(s);
      var rest := SplitSentences(s[1..]);
      SentencesFromChunk(s[1..]);
      assert forall c :: c in s[1..] ==> c in s;
      if SentenceBreakAt(s, 0) {
        assert r == [""] + rest;
        forall k | 0 < k < |r| ensures CharsOf(r[k], s) {
          assert r[k] == rest[k - 1];
        }
      } else {
        assert r == [[s[0]] + rest[0]] + rest[1..];
        forall k | 0 <= k < |r| ensures CharsOf(r[k], s) {
          if k > 0 {
            assert r[k] == rest[k];
          } else {
            forall i | 0 < i < |r[0]| ensures r[0][i] in s {
              assert r[0][i] == rest[0][i - 1];
            }
          }
        }
      }
    }
  }

  /** Putting the dropped periods back gives the chunk again. */
  lemma {:induction false} JoinSplitSentences(s: string)
    ensures Join(SplitSentences(s), ".") == s
    decreases |s|
  {
    if |s| == 0 {
    } else if SentenceBreakAt(s, 0) {
      var rest := SplitSentences(s[1..]);
      JoinSplitSentences(s[1..]);
      assert ([""] + rest)[1..] == rest;
      assert s == "." + s[1..];
    } else {
      var rest := SplitSentences(s[1..]);
      JoinSplitSentences(s[1..]);
      JoinCons(s[0], rest, ".");
      assert s == [s[0]] + s[1..];
    }
  }

  /** No sentence still holds a period followed by white space. */
  lemma {:induction false} SentencesHaveNoBreak(s: string)
    ensures forall k, p :: 0 <= k < |SplitSentences(s)| ==> !SentenceBreakAt(SplitSentences(s)[k], p)
    decreases |s|
  {
    if |s| > 0 {
      var r := SplitSentences(s);
      var rest := SplitSentences(s[1..]);
      SentencesHaveNoBreak(s[1..]);
      if SentenceBreakAt(s, 0) {
        assert r == [""] + rest;
      } else {
        assert r == [[s[0]] + rest[0]] + rest[1..];
        SentencesStartWithSpace(s[1..]);
        FirstSentenceHasNoBreak(s, rest[0]);
        forall k, p | 0 <= k < |r| ensures !SentenceBreakAt(r[k], p) {
          if k > 0 { assert r[k] == rest[k]; }
        }
      }
    }
  }

  lemma FirstSentenceHasNoBreak(s: string, piece: string)
    requires |s| > 0 && !SentenceBreakAt(s, 0)
    requires piece <= s[1..] && (|s| > 1 && !SentenceBreakAt(s[1..], 0) ==> piece != "")
    requires forall p :: !SentenceBreakAt(piece, p)
    ensures forall p :: !SentenceBreakAt([s[0]] + piece, p)
  {
    var t := [s[0]] + piece;
    forall p | 0 < p < |t| - 1 ensures !SentenceBreakAt(t, p) {
      assert t[p] == piece[p - 1] && t[p + 1] == piece[p];
      assert !SentenceBreakAt(piece, p - 1);
    }
  }

  /** `.map(sentence => sentence.trim())`. */
  function TrimEach(ps: seq<string>): (r: seq<string>)
    ensures |r| == |ps|
    ensures forall k :: 0 <= k < |r| ==> r[k] == Trim(ps[k])
  {
    seq(|ps|, k requires 0 <= k < |ps| => Trim(ps[k]))
  }

  /** `r` is `ps` with some of its elements left out, the rest kept in
      their order. */
  predicate Subsequence(r: seq<string>, ps: seq<string>)
    decreases |ps|
  {
    if |r| == 0 then true
    else if |ps| == 0 then false
    else if r[0] == ps[0] then Subsequence(r[1..], ps[1..])
    else Subsequence(r, ps[1..])
  }

  /** `.filter(Boolean)`: the non-empty strings, in order, each as often as
      in `ps`. */
  function KeepNonEmpty(ps: seq<string>): (r: seq<string>)
    ensures forall k :: 0 <= k < |r| ==> r[k] != "" && r[k] in ps
    ensures forall q :: q in ps && q != "" ==> q in r
    ensures multiset(r) == multiset(ps)["" := 0]
    ensures Subsequence(r, ps)
  {
    if |ps| == 0 then []
    else
      CountsWithoutEmpty(ps);
      if ps[0] == "" then KeepNonEmpty(ps[1..])
      else
        var rest := KeepNonEmpty(ps[1..]);
        assert ([ps[0]] + rest)[1..] == rest;
        assert multiset([ps[0]] + rest) == multiset{ps[0]} + multiset(rest);
        [ps[0]] + rest
  }

  lemma CountsWithoutEmpty(ps: seq<string>)
    requires |ps| > 0
    ensures multiset(ps)["" := 0] ==
      if ps[0] == "" then multiset(ps[1..])["" := 0] else multiset{ps[0]} + multiset(ps[1..])["" := 0]
  {
    assert ps == [ps[0]] + ps[1..];
  }

  /** The callback given to `flatMap`: a short chunk as it is, a long one as
      its trimmed, non-empty sentences. */
  function SegmentChunk(chunk: string): (r: seq<string>)
  {
    if |chunk| > LongChunk then KeepNonEmpty(TrimEach(SplitSentences(chunk))) else [chunk]
  }

  /** A piece cut out of `chunk`: non-empty, trimmed at both ends, and made
      of characters of `chunk`. */
  predicate CleanPiece(p: string, chunk: string) {
    p != "" && !IsSpace(p[0]) && !IsSpace(p[|p| - 1]) && CharsOf(p, chunk)
  }

  /** What a long chunk turns into: trimmed non-empty sentences, none with a
      line feed unless the chunk has one. */
  lemma LongChunkPieces(chunk: string)
    requires |chunk| > LongChunk
    ensures forall k :: 0 <= k < |SegmentChunk(chunk)| ==> CleanPiece(SegmentChunk(chunk)[k], chunk)
  {
    var trimmed := TrimEach(SplitSentences(chunk));
    var r := KeepNonEmpty(trimmed);
    assert SegmentChunk(chunk) == r;
    forall k | 0 <= k < |r| ensures CleanPiece(r[k], chunk) {
      TrimmedSentenceClean(chunk, r[k]);
    }
  }

  lemma TrimmedSentenceClean(chunk: string, q: string)
    requires q in TrimEach(SplitSentences(chunk)) && q != ""
    ensures CleanPiece(q, chunk)
  {
    var sentences := SplitSentences(chunk);
    var trimmed := TrimEach(sentences);
    var i :| 0 <= i < |trimmed| && trimmed[i] == q;
    assert q == Trim(sentences[i]);
    SentencesFromChunk(chunk);
    assert CharsOf(sentences[i], chunk);
    assert CharsOf(q, sentences[i]);
  }

  /** `chunks.flatMap(SegmentChunk)`. */
  function SegmentChunks(chunks: seq<string>): seq<string> {
    if |chunks| == 0 then [] else SegmentChunk(chunks[0]) + SegmentChunks(chunks[1..])
  }

  /** `splitIntoParagraphs(text)`: no paragraph holds a line feed. */
  function SplitIntoParagraphs(text: string): (r: seq<string>)
    ensures forall k :: 0 <= k < |r| ==> '\n' !in r[k]
  {
    SegmentChunksNoNewline(SplitNewlineRuns(text));
    SegmentChunks(SplitNewlineRuns(text))
  }

  lemma SegmentChunkNoNewline(chunk: string)
    requires '\n' !in chunk
    ensures forall k :: 0 <= k < |SegmentChunk(chunk)| ==> '\n' !in SegmentChunk(chunk)[k]
  {
    var r := SegmentChunk(chunk);
    if |chunk| > LongChunk {
      LongChunkPieces(chunk);
      forall k | 0 <= k < |r| ensures '\n' !in r[k] {
        assert CharsOf(r[k], chunk);
      }
    }
  }

  lemma {:induction false} SegmentChunksNoNewline(chunks: seq<string>)
    requires forall k :: 0 <= k < |chunks| ==> '\n' !in chunks[k]
    ensures forall k :: 0 <= k < |SegmentChunks(chunks)| ==> '\n' !in SegmentChunks(chunks)[k]
    decreases |chunks|
  {
    if |chunks| > 0 {
      SegmentChunkNoNewline(chunks[0]);
      SegmentChunksNoNewline(chunks[1..]);
    }
  }

  lemma {:induction false} SegmentChunksAppend(a: seq<string>, b: seq<string>)
    ensures SegmentChunks(a + b) == SegmentChunks(a) + SegmentChunks(b)
    decreases |a|
  {
    if |a| == 0 {
      assert a + b == b;
    } else {
      assert (a + b)[0] == a[0];
      assert (a + b)[1..] == a[1..] + b;
      SegmentChunksAppend(a[1..], b);
      calc {
        SegmentChunks(a + b);
        SegmentChunk(a[0]) + SegmentChunks(a[1..] + b);
        SegmentChunk(a[0]) + (SegmentChunks(a[1..]) + SegmentChunks(b));
        (SegmentChunk(a[0]) + SegmentChunks(a[1..])) + SegmentChunks(b);
      }
    }
  }

  /** The paragraphs of lines joined by "\n" are the lines' own segments,
      line after line. */
  lemma ParagraphsOfLines(lines: seq<string>)
    requires |lines| >= 1
    requires forall k :: 0 <= k < |lines| ==> '\n' !in lines[k]
    requires forall k :: 0 < k < |lines| - 1 ==> lines[k] != ""
    ensures SplitIntoParagraphs(Join(lines, "\n")) == SegmentChunks(lines)
  {
    SplitNewlineRunsJoin(lines);
  }

  /** A chunk of at most 100 characters between line-feed runs comes out
      unchanged, even when it is empty, right after the paragraphs of the
      chunks before it. */
  lemma ShortChunkKept(text: string, k: nat)
    requires k < |SplitNewlineRuns(text)| && |SplitNewlineRuns(text)[k]| <= LongChunk
    ensures var chunks := SplitNewlineRuns(text);
      var at := |SegmentChunks(chunks[..k])|;
      at < |SplitIntoParagraphs(text)| && SplitIntoParagraphs(text)[at] == chunks[k]
  {
    var chunks := SplitNewlineRuns(text);
    assert chunks == chunks[..k] + chunks[k..];
    SegmentChunksAppend(chunks[..k], chunks[k..]);
    assert chunks[k..] == [chunks[k]] + chunks[k + 1..];
    SegmentChunksAppend([chunks[k]], chunks[k + 1..]);
    assert SegmentChunks([chunks[k]]) == [chunks[k]];
  }

  /** An empty text is one empty paragraph. */
  lemma EmptyTextIsOneParagraph()
    ensures SplitIntoParagraphs("") == [""]
  {
  }

  /** A paragraph without line feed and of at most 100 characters segments to
      itself: segmenting is idempotent on such units. */
  lemma SegmentShortUnit(p: string)
    requires '\n' !in p && |p| <= LongChunk
    ensures SplitIntoParagraphs(p) == [p]
  {
    SplitNewlineRunsSingle(p);
    assert SplitNewlineRuns(p) == [p];
    assert SegmentChunk(p) == [p];
    assert SegmentChunks([p]) == SegmentChunk(p) + SegmentChunks([]);
  }
}
