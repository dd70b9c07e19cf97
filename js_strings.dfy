/**
 * The JavaScript string primitives the duplicate-detection code leans on:
 * `String.prototype.split` with a string separator, `String.prototype.trim`
 * and the white-space class `\s` of regular expressions.
 */
module JsStrings {

  /** The code points ECMAScript counts as white space (WhiteSpace and
      LineTerminator): the set both `\s` and `trim` use. */
  predicate IsSpace(c: char) {
    || c == '\t' || c == '\n' || c == '\U{B}' || c == '\U{C}' || c == '\r' || c == ' '
    || c == '\U{A0}' || c == '\U{1680}' || ('\U{2000}' <= c <= '\U{200A}')
    || c == '\U{2028}' || c == '\U{2029}' || c == '\U{202F}' || c == '\U{205F}'
    || c == '\U{3000}' || c == '\U{FEFF}'
  }

  /** `sep` occurs in `s` starting at position `p`. */
  predicate OccursAt(s: string, sep: string, p: int) {
    0 <= p && p + |sep| <= |s| && s[p..p + |sep|] == sep
  }

  predicate Contains(s: string, sep: string) {
    exists p :: 0 <= p <= |s| - |sep| && OccursAt(s, sep, p)
  }

  /** `s.split(sep)` for a non-empty string separator: the pieces between
      the occurrences of `sep`, found left to right without overlap. */
  function Split(s: string, sep: string): (r: seq<string>)
    requires |sep| > 0
    ensures |r| >= 1 && r[0] <= s
    decreases |s|
  {
    if |s| < |sep| then [s]
    else if s[..|sep|] == sep then [""] + Split(s[|sep|..], sep)
    else
      var rest := Split(s[1..], sep);
      [[s[0]] + rest[0]] + rest[1..]
  }

  /** `parts.join(sep)`. */
  function Join(parts: seq<string>, sep: string): string {
    if |parts| == 0 then ""
    else if |parts| == 1 then parts[0]
    else parts[0] + sep + Join(parts[1..], sep)
  }

  lemma JoinCons(c: char, parts: seq<string>, sep: string)
    requires |parts| >= 1
    ensures Join([[c] + parts[0]] + parts[1..], sep) == [c] + Join(parts, sep)
  {
    var ps := [[c] + parts[0]] + parts[1..];
    assert ps[1..] == parts[1..];
  }

  lemma JoinEmptyFirst(parts: seq<string>, sep: string)
    requires |parts| >= 1
    ensures Join([""] + parts, sep) == sep + Join(parts, sep)
  {
    assert ([""] + parts)[1..] == parts;
  }

  /** Splitting and joining again with the same separator gives back the text. */
  lemma {:induction false} JoinSplit(s: string, sep: string)
    requires |sep| > 0
    ensures Join(Split(s, sep), sep) == s
    decreases |s|
  {
    if |s| < |sep| {
    } else if s[..|sep|] == sep {
      var rest := Split(s[|sep|..], sep);
      assert Split(s, sep) == [""] + rest;
      JoinSplit(s[|sep|..], sep);
      JoinEmptyFirst(rest, sep);
      assert s == s[..|sep|] + s[|sep|..];
    } else {
      var rest := Split(s[1..], sep);
      assert Split(s, sep) == [[s[0]] + rest[0]] + rest[1..];
      JoinSplit(s[1..], sep);
      JoinCons(s[0], rest, sep);
      assert s == [s[0]] + s[1..];
    }
  }

  /** No piece of a split contains the separator. */
  lemma {:induction false} SplitPiecesAvoidSeparator(s: string, sep: string)
    requires |sep| > 0
    ensures forall k :: 0 <= k < |Split(s, sep)| ==> !Contains(Split(s, sep)[k], sep)
    decreases |s|
  {
    var r := Split(s, sep);
    if |s| < |sep| {
      assert r == [s];
    } else if s[..|sep|] == sep {
      var rest := Split(s[|sep|..], sep);
      SplitPiecesAvoidSeparator(s[|sep|..], sep);
      assert r == [""] + rest;
      forall k | 0 <= k < |r| ensures !Contains(r[k], sep) {
        if k > 0 {
          assert r[k] == rest[k - 1];
        }
      }
    } else {
      var rest := Split(s[1..], sep);
      SplitPiecesAvoidSeparator(s[1..], sep);
      assert r == [[s[0]] + rest[0]] + rest[1..];
      forall k | 0 <= k < |r| ensures !Contains(r[k], sep) {
        if k == 0 {
          PrefixedPieceAvoidsSeparator(s, sep, rest[0]);
        } else {
          assert r[k] == rest[k];
        }
      }
    }
  }

  /** The first piece keeps avoiding `sep` when a character that does not
      start an occurrence of `sep` is put in front of it. */
  lemma PrefixedPieceAvoidsSeparator(s: string, sep: string, piece: string)
    requires |sep| > 0 && |s| >= |sep| && s[..|sep|] != sep
    requires !Contains(piece, sep)
    requires piece <= s[1..]
    ensures !Contains([s[0]] + piece, sep)
  {
    var t := [s[0]] + piece;
    forall p | 0 <= p <= |t| - |sep| ensures !OccursAt(t, sep, p) {
      if p == 0 {
        assert t[..|sep|] == s[..|sep|];
      } else {
        assert t[p..p + |sep|] == piece[p - 1..p - 1 + |sep|];
        assert !OccursAt(piece, sep, p - 1);
      }
    }
  }

  /** Each separator between two pieces is the leftmost occurrence after the
      piece before it: no occurrence of `sep` starts inside a piece and runs
      into the separator that follows it. */
  predicate SeparatedLeftmost(r: seq<string>, sep: string) {
    forall k, p :: 0 <= k < |r| - 1 && 0 <= p < |r[k]| ==> !OccursAt(r[k] + sep, sep, p)
  }

  /** `split` matches the separator left to right. */
  lemma {:induction false} SplitLeftmost(s: string, sep: string)
    requires |sep| > 0
    ensures SeparatedLeftmost(Split(s, sep), sep)
    decreases |s|
  {
    var r := Split(s, sep);
    if |s| < |sep| {
      assert r == [s];
    } else if s[..|sep|] == sep {
      var rest := Split(s[|sep|..], sep);
      SplitLeftmost(s[|sep|..], sep);
      assert r == [""] + rest;
      forall k, p | 0 <= k < |r| - 1 && 0 <= p < |r[k]| ensures !OccursAt(r[k] + sep, sep, p) {
        assert r[k] == rest[k - 1];
      }
    } else {
      var rest := Split(s[1..], sep);
      SplitLeftmost(s[1..], sep);
      assert r == [[s[0]] + rest[0]] + rest[1..];
      forall k, p | 0 <= k < |r| - 1 && 0 <= p < |r[k]| ensures !OccursAt(r[k] + sep, sep, p) {
        if k > 0 {
          assert r[k] == rest[k];
        } else if p == 0 {
          FirstPieceAtStart(s, sep, rest);
        } else {
          FirstPieceLeftmost(s[0], sep, rest, p);
        }
      }
    }
  }

  lemma FirstPieceLeftmost(c: char, sep: string, rest: seq<string>, p: nat)
    requires |rest| > 1 && SeparatedLeftmost(rest, sep)
    requires 1 <= p < |rest[0]| + 1
    ensures !OccursAt([c] + rest[0] + sep, sep, p)
  {
    var u := rest[0] + sep;
    assert !OccursAt(u, sep, p - 1);
    ShiftedOccurrence(c, u, sep, p);
    assert [c] + rest[0] + sep == [c] + u;
  }

  lemma FirstPieceAtStart(s: string, sep: string, rest: seq<string>)
    requires |sep| > 0 && |s| >= |sep| && s[..|sep|] != sep
    requires rest == Split(s[1..], sep) && |rest| > 1
    ensures !OccursAt([s[0]] + rest[0] + sep, sep, 0)
  {
    JoinSplit(s[1..], sep);
    JoinMany(rest, sep);
    PrefixOfText(s, rest[0] + sep, Join(rest[1..], sep), sep);
  }

  lemma JoinMany(parts: seq<string>, sep: string)
    requires |parts| > 1
    ensures Join(parts, sep) == parts[0] + sep + Join(parts[1..], sep)
  {
  }

  /** A piece that starts the text starts with `sep` only if the text does. */
  lemma PrefixOfText(s: string, u: string, tail: string, sep: string)
    requires |s| >= |sep| && |u| >= |sep| && s[..|sep|] != sep
    requires s[1..] == u + tail
    ensures !OccursAt([s[0]] + u, sep, 0)
  {
    var t := [s[0]] + u;
    assert s == t + tail;
    assert t[..|sep|] == s[..|sep|];
  }

  lemma ShiftedOccurrence(c: char, u: string, sep: string, p: nat)
    requires p >= 1 && !OccursAt(u, sep, p - 1)
    ensures !OccursAt([c] + u, sep, p)
  {
    if p + |sep| <= |[c] + u| {
      assert ([c] + u)[p..p + |sep|] == u[p - 1..p - 1 + |sep|];
    }
  }

  /** The literal blank-line separator both utilities split on. */
  const BlankLine: string := "\n\n"

  /** `s.split('\n\n')`: the pieces between blank-line separators, which
      join back into `s`, contain no separator themselves, and are cut at the
      leftmost separator each time. */
  function SplitBlankLines(s: string): (r: seq<string>)
    ensures |r| >= 1
    ensures Join(r, BlankLine) == s
    ensures forall k :: 0 <= k < |r| ==> !Contains(r[k], BlankLine)
    ensures SeparatedLeftmost(r, BlankLine)
  {
    JoinSplit(s, BlankLine);
    SplitPiecesAvoidSeparator(s, BlankLine);
    SplitLeftmost(s, BlankLine);
    Split(s, BlankLine)
  }

  /** `s` with its leading white space removed. */
  function TrimStart(s: string): (r: string)
    ensures |r| <= |s| && r == s[|s| - |r|..]
    ensures r == [] || !IsSpace(r[0])
    ensures forall k :: 0 <= k < |s| - |r| ==> IsSpace(s[k])
    decreases |s|
  {
    if |s| > 0 && IsSpace(s[0]) then TrimStart(s[1..]) else s
  }

  /** `s` with its trailing white space removed. */
  function TrimEnd(s: string): (r: string)
    ensures |r| <= |s| && r == s[..|r|]
    ensures r == [] || !IsSpace(r[|r| - 1])
    ensures forall k :: |r| <= k < |s| ==> IsSpace(s[k])
    decreases |s|
  {
    if |s| > 0 && IsSpace(s[|s| - 1]) then TrimEnd(s[..|s| - 1]) else s
  }

  /** Every character of `p` occurs in `s`. */
  predicate CharsOf(p: string, s: string) {
    forall i :: 0 <= i < |p| ==> p[i] in s
  }

  /** `r` is the stretch `s[a..a + |r|]`, and everything of `s` outside it
      is white space. */
  predicate StretchWithin(s: string, r: string, a: int) {
    && 0 <= a && a + |r| <= |s| && r == s[a..a + |r|]
    && (forall k :: 0 <= k < a ==> IsSpace(s[k]))
    && (forall k :: a + |r| <= k < |s| ==> IsSpace(s[k]))
  }

  /** `s.trim()`: `s` with exactly its leading and trailing white space
      removed, so a stretch of `s` that neither starts nor ends with white
      space, with only white space around it; `s` itself when `s` is already
      like that. */
  function Trim(s: string): (r: string)
    ensures r == [] || (!IsSpace(r[0]) && !IsSpace(r[|r| - 1]))
    ensures exists a :: StretchWithin(s, r, a)
    ensures CharsOf(r, s)
    ensures (s == [] || (!IsSpace(s[0]) && !IsSpace(s[|s| - 1]))) ==> r == s
  {
    TrimFacts(s);
    TrimEnd(TrimStart(s))
  }

  lemma TrimFacts(s: string)
    ensures var r := TrimEnd(TrimStart(s));
      && (r == [] || (!IsSpace(r[0]) && !IsSpace(r[|r| - 1])))
      && (exists a :: StretchWithin(s, r, a))
      && CharsOf(r, s)
      && ((s == [] || (!IsSpace(s[0]) && !IsSpace(s[|s| - 1]))) ==> r == s)
  {
    TrimStretch(s);
    TrimEndKeepsStart(TrimStart(s));
    TrimCharsOf(s);
    TrimOfTrimmed(s);
  }

  lemma TrimStretch(s: string)
    ensures exists a :: StretchWithin(s, TrimEnd(TrimStart(s)), a)
  {
    var t := TrimStart(s);
    var r := TrimEnd(t);
    var a := |s| - |t|;
    SuffixPrefixStretch(s, t, r);
    assert StretchWithin(s, r, a);
  }

  /** A prefix `r` of a suffix `t` of `s` sits at `|s| - |t|`, and what
      follows it in `t` follows it in `s`. */
  lemma SuffixPrefixStretch(s: string, t: string, r: string)
    requires |t| <= |s| && t == s[|s| - |t|..]
    requires forall k :: 0 <= k < |s| - |t| ==> IsSpace(s[k])
    requires |r| <= |t| && r == t[..|r|]
    requires forall j :: |r| <= j < |t| ==> IsSpace(t[j])
    ensures StretchWithin(s, r, |s| - |t|)
  {
    var a := |s| - |t|;
    assert r == s[a..a + |r|];
    forall k | a + |r| <= k < |s| ensures IsSpace(s[k]) {
      assert s[k] == t[k - a];
    }
  }

  lemma TrimEndKeepsStart(t: string)
    requires t == [] || !IsSpace(t[0])
    ensures TrimEnd(t) == [] || !IsSpace(TrimEnd(t)[0])
  {
    var r := TrimEnd(t);
    if r != [] {
      assert r[0] == t[0];
    }
  }

  lemma TrimCharsOf(s: string)
    ensures CharsOf(TrimEnd(TrimStart(s)), s)
  {
    var t := TrimStart(s);
    StretchCharsOf(s, t, TrimEnd(t));
  }

  /** A prefix of a suffix of `s` is made of characters of `s`. */
  lemma StretchCharsOf(s: string, t: string, r: string)
    requires |t| <= |s| && t == s[|s| - |t|..]
    requires |r| <= |t| && r == t[..|r|]
    ensures CharsOf(r, s)
  {
    forall i | 0 <= i < |r| ensures r[i] in s {
      assert r[i] == s[|s| - |t| + i];
    }
  }

  lemma TrimOfTrimmed(s: string)
    ensures (s == [] || (!IsSpace(s[0]) && !IsSpace(s[|s| - 1]))) ==> TrimEnd(TrimStart(s)) == s
  {
  }
}
