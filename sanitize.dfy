/**
 * The script-block stripping that `scrapeData` applies to every snapshot:
 * `outerHTML.replace(/<script\b[^<]*(?:(?!<\/script>)<[^<]*)*<\/script\s*>/gi, '')`.
 *
 * The regular expression is modelled by what it matches rather than by a
 * backtracking engine. A block opens at `<script` (any ASCII case) followed by a
 * word boundary. Its body may run over any text except an exact `</script>`
 * (the negative lookahead), and it ends at a `</script`, optional white space and
 * `>` closer. Because the body is greedy, the engine settles on the LAST closer
 * that starts no later than the first exact `</script>`. The global flag scans
 * left to right: a matched block is dropped and scanning resumes after it;
 * elsewhere one character is kept and scanning moves on by one.
 */
module Sanitize {
  import opened Wrappers

  /** `c` is the ASCII letter `lower` in either case. Outside Unicode mode the `i`
      flag folds only ASCII letters onto the letters of "script", so this is exact. */
  predicate Letter(c: char, lower: char, upper: char) {
    c == lower || c == upper
  }

  /** The word `script` starts at position `i` of `s`, in any ASCII case. */
  predicate ScriptWordAt(s: string, i: nat) {
    i + 6 <= |s| && Letter(s[i], 's', 'S') && Letter(s[i + 1], 'c', 'C') && Letter(s[i + 2], 'r', 'R')
    && Letter(s[i + 3], 'i', 'I') && Letter(s[i + 4], 'p', 'P') && Letter(s[i + 5], 't', 'T')
  }

  /** `<script` (any ASCII case) starts at position `i`. */
  predicate ScriptTagAt(s: string, i: nat) {
    i < |s| && s[i] == '<' && ScriptWordAt(s, i + 1)
  }

  /** `</script` (any ASCII case) starts at position `i`. */
  predicate EndTagAt(s: string, i: nat) {
    i + 1 < |s| && s[i] == '<' && s[i + 1] == '/' && ScriptWordAt(s, i + 2)
  }

  /** The characters of `\w`, which decide the word boundary `\b`. */
  predicate IsWordChar(c: char) {
    'a' <= c <= 'z' || 'A' <= c <= 'Z' || '0' <= c <= '9' || c == '_'
  }

  /** The characters JavaScript's `\s` matches. */
  predicate IsSpace(c: char) {
    c == '\t' || c == '\n' || c == '\U{000B}' || c == '\U{000C}' || c == '\r' || c == ' '
    || c == '\U{00A0}' || c == '\U{1680}' || '\U{2000}' <= c <= '\U{200A}'
    || c == '\U{2028}' || c == '\U{2029}' || c == '\U{202F}' || c == '\U{205F}'
    || c == '\U{3000}' || c == '\U{FEFF}'
  }

  /** `<script\b` matches at position `i`. */
  predicate OpensAt(s: string, i: nat) {
    ScriptTagAt(s, i) && (i + 7 == |s| || !IsWordChar(s[i + 7]))
  }

  /** Some `<script` (any ASCII case) occurs in `s`. */
  predicate ContainsOpen(s: string) {
    exists k :: 0 <= k < |s| && ScriptTagAt(s, k)
  }

  /** The length of the run of `\s` characters that starts at `j`. */
  function SpaceRun(s: string, j: nat): (n: nat)
    requires j <= |s|
    ensures j + n <= |s|
    decreases |s| - j
  {
    if j < |s| && IsSpace(s[j]) then 1 + SpaceRun(s, j + 1) else 0
  }

  /** The run is all white space, and it stops at the first character that is not. */
  lemma {:induction false} SpaceRunIsMaximal(s: string, j: nat)
    requires j <= |s|
    ensures forall k :: j <= k < j + SpaceRun(s, j) ==> IsSpace(s[k])
    ensures j + SpaceRun(s, j) < |s| ==> !IsSpace(s[j + SpaceRun(s, j)])
    decreases |s| - j
  {
    if j < |s| && IsSpace(s[j]) {
      SpaceRunIsMaximal(s, j + 1);
    }
  }

  /** The end (exclusive) of a `</script\s*>` closer that starts at `p`, if one does. */
  function CloserEnd(s: string, p: nat): (e: Option<nat>)
    ensures e.Some? ==> EndTagAt(s, p) && p + 9 <= e.value <= |s| && s[e.value - 1] == '>'
  {
    if EndTagAt(s, p) then
      var q := p + 8 + SpaceRun(s, p + 8);
      if q < |s| && s[q] == '>' then Some(q + 1) else None
    else None
  }

  /** An exact `</script>`: the text the lookahead `(?!<\/script>)` refuses to enter. */
  predicate ExactCloseAt(s: string, p: nat) {
    EndTagAt(s, p) && p + 8 < |s| && s[p + 8] == '>'
  }

  /** No exact `</script>` starts in `[lo, hi)`, so a block body may span that range. */
  predicate BodyFree(s: string, lo: nat, hi: nat) {
    forall q :: lo <= q < hi ==> !ExactCloseAt(s, q)
  }

  /** A closer at `p` can end a block whose `<script` is at `i`. */
  predicate Candidate(s: string, i: nat, p: nat) {
    i + 7 <= p && CloserEnd(s, p).Some? && BodyFree(s, i + 7, p)
  }

  lemma ExactCloseIsCloser(s: string, p: nat)
    requires ExactCloseAt(s, p)
    ensures CloserEnd(s, p) == Some(p + 9)
  {
    assert SpaceRun(s, p + 8) == 0;
  }

  /** Scans `[p, |s|)` for the closer the greedy body settles on; `best` is the last
      closer seen so far. */
  function LastCloser(s: string, i: nat, p: nat, best: Option<nat>): (r: Option<nat>)
    requires i + 7 <= p
    requires best.Some? ==> i + 7 <= best.value && CloserEnd(s, best.value).Some?
    ensures r.Some? ==> i + 7 <= r.value && CloserEnd(s, r.value).Some?
    decreases |s| - p
  {
    if p >= |s| then best
    else if ExactCloseAt(s, p) then ExactCloseIsCloser(s, p); Some(p)
    else LastCloser(s, i, p + 1, if CloserEnd(s, p).Some? then Some(p) else best)
  }

  /** What the scan knows at `p`: no exact `</script>` starts in `[i + 7, p)`, and
      `best` is the last closer there. */
  predicate ScanInv(s: string, i: nat, p: nat, best: Option<nat>) {
    && i + 7 <= p && BodyFree(s, i + 7, p)
    && (best.Some? ==> Candidate(s, i, best.value) && best.value < p)
    && (best.Some? ==> forall q :: best.value < q < p ==> CloserEnd(s, q).None?)
    && (best.None? ==> forall q :: i + 7 <= q < p ==> CloserEnd(s, q).None?)
  }

  lemma BodyFreeGrows(s: string, lo: nat, p: nat)
    requires BodyFree(s, lo, p) && !ExactCloseAt(s, p)
    ensures BodyFree(s, lo, p + 1)
  {
    forall q | lo <= q < p + 1 ensures !ExactCloseAt(s, q) {
      if q < p {
        assert BodyFree(s, lo, p);
      }
    }
  }

  /** Past a position with no closer, the last closer seen stays the last one. */
  lemma NoCloserKeepsBest(s: string, i: nat, p: nat, best: Option<nat>)
    requires ScanInv(s, i, p, best) && CloserEnd(s, p).None?
    ensures best.Some? ==> forall q :: best.value < q < p + 1 ==> CloserEnd(s, q).None?
    ensures best.None? ==> forall q :: i + 7 <= q < p + 1 ==> CloserEnd(s, q).None?
  {
  }

  lemma ScanInvStep(s: string, i: nat, p: nat, best: Option<nat>)
    requires ScanInv(s, i, p, best) && p < |s| && !ExactCloseAt(s, p)
    ensures ScanInv(s, i, p + 1, if CloserEnd(s, p).Some? then Some(p) else best)
  {
    BodyFreeGrows(s, i + 7, p);
    if CloserEnd(s, p).None? {
      NoCloserKeepsBest(s, i, p, best);
    }
  }

  lemma LastCloserAtEnd(s: string, i: nat, p: nat, best: Option<nat>)
    requires i + 7 <= p && |s| <= p
    requires best.Some? ==> i + 7 <= best.value && CloserEnd(s, best.value).Some?
    ensures LastCloser(s, i, p, best) == best
  {
  }

  lemma LastCloserAtExactClose(s: string, i: nat, p: nat, best: Option<nat>)
    requires i + 7 <= p < |s| && ExactCloseAt(s, p)
    requires best.Some? ==> i + 7 <= best.value && CloserEnd(s, best.value).Some?
    ensures LastCloser(s, i, p, best) == Some(p)
  {
  }

  lemma LastCloserMovesOn(s: string, i: nat, p: nat, best: Option<nat>)
    requires i + 7 <= p < |s| && !ExactCloseAt(s, p)
    requires best.Some? ==> i + 7 <= best.value && CloserEnd(s, best.value).Some?
    ensures LastCloser(s, i, p, best) == LastCloser(s, i, p + 1, if CloserEnd(s, p).Some? then Some(p) else best)
  {
  }

  /** The scan's result, if any, is a candidate closer. */
  lemma {:induction false} LastCloserIsCandidate(s: string, i: nat, p: nat, best: Option<nat>)
    requires ScanInv(s, i, p, best)
    ensures LastCloser(s, i, p, best).Some? ==> Candidate(s, i, LastCloser(s, i, p, best).value)
    decreases |s| - p
  {
    if p >= |s| {
      LastCloserAtEnd(s, i, p, best);
    } else if ExactCloseAt(s, p) {
      LastCloserAtExactClose(s, i, p, best);
      ExactCloseIsCloser(s, p);
    } else {
      LastCloserMovesOn(s, i, p, best);
      ScanInvStep(s, i, p, best);
      LastCloserIsCandidate(s, i, p + 1, if CloserEnd(s, p).Some? then Some(p) else best);
    }
  }

  /** At the end of the text, no candidate lies beyond the last closer seen. */
  lemma LastAtEnd(s: string, i: nat, p: nat, best: Option<nat>, q: nat)
    requires ScanInv(s, i, p, best) && p >= |s| && Candidate(s, i, q)
    ensures best.Some? && q <= best.value
  {
    assert CloserEnd(s, q).Some?;
  }

  /** No candidate lies beyond an exact `</script>`. */
  lemma LastAtExactClose(s: string, i: nat, p: nat, q: nat)
    requires i + 7 <= p && ExactCloseAt(s, p) && Candidate(s, i, q)
    ensures q <= p
  {
    assert BodyFree(s, i + 7, q);
  }

  /** Every candidate closer lies at or before the scan's result. */
  lemma {:induction false} LastCloserIsLast(s: string, i: nat, p: nat, best: Option<nat>, q: nat)
    requires ScanInv(s, i, p, best) && Candidate(s, i, q)
    ensures LastCloser(s, i, p, best).Some? && q <= LastCloser(s, i, p, best).value
    decreases |s| - p
  {
    if p >= |s| {
      LastCloserAtEnd(s, i, p, best);
      LastAtEnd(s, i, p, best, q);
    } else if ExactCloseAt(s, p) {
      LastCloserAtExactClose(s, i, p, best);
      LastAtExactClose(s, i, p, q);
    } else {
      LastCloserMovesOn(s, i, p, best);
      ScanInvStep(s, i, p, best);
      LastCloserIsLast(s, i, p + 1, if CloserEnd(s, p).Some? then Some(p) else best, q);
    }
  }

  /** Where the closer of a block opened at `i` starts, if the regex matches there. */
  function BlockCloser(s: string, i: nat): (p: Option<nat>)
    ensures p.Some? ==> OpensAt(s, i) && i + 7 <= p.value && CloserEnd(s, p.value).Some?
  {
    if OpensAt(s, i) then LastCloser(s, i, i + 7, None) else None
  }

  /** The regex matches at `i` exactly when `<script\b` is there and some closer can end
      the block; the closer it uses is the last such candidate. */
  lemma BlockCloserIsLastCandidate(s: string, i: nat)
    ensures BlockCloser(s, i).Some? ==> Candidate(s, i, BlockCloser(s, i).value)
    ensures OpensAt(s, i) ==> forall q: nat :: Candidate(s, i, q) ==>
      BlockCloser(s, i).Some? && q <= BlockCloser(s, i).value
  {
    if OpensAt(s, i) {
      LastCloserIsCandidate(s, i, i + 7, None);
      forall q: nat | Candidate(s, i, q) ensures BlockCloser(s, i).Some? && q <= BlockCloser(s, i).value {
        LastCloserIsLast(s, i, i + 7, None, q);
      }
    }
  }

  /** The end (exclusive) of the script block that the regex matches at `i`, if any. */
  function BlockEnd(s: string, i: nat): (e: Option<nat>)
    ensures e.Some? ==> OpensAt(s, i) && i + 16 <= e.value <= |s|
  {
    match BlockCloser(s, i)
    case None => None
    case Some(p) => CloserEnd(s, p)
  }

  /** A removed block begins with `<script\b` and ends with a `</script\s*>` closer
      that the body reaches without crossing an exact `</script>`. */
  lemma BlockEndIsScriptBlock(s: string, i: nat)
    ensures BlockEnd(s, i).Some? ==> OpensAt(s, i) && exists p: nat :: Candidate(s, i, p) && CloserEnd(s, p) == BlockEnd(s, i)
    ensures (exists p: nat :: OpensAt(s, i) && Candidate(s, i, p)) ==> BlockEnd(s, i).Some?
  {
    BlockCloserIsLastCandidate(s, i);
  }

  /** The replace over `s[i..]`, scanning from `i`. */
  function StripFrom(s: string, i: nat): (r: string)
    requires i <= |s|
    ensures |r| <= |s| - i
    decreases |s| - i
  {
    if i == |s| then ""
    else match BlockEnd(s, i)
      case Some(e) => StripFrom(s, e)
      case None => [s[i]] + StripFrom(s, i + 1)
  }

  /** `t` can be obtained from `u` by deleting characters. */
  predicate IsSubsequence(t: string, u: string)
    decreases |u|
  {
    |t| == 0 || (|u| > 0 && ((t[0] == u[0] && IsSubsequence(t[1..], u[1..])) || IsSubsequence(t, u[1..])))
  }

  lemma {:induction false} SubsequenceOfSuffix(t: string, u: string, k: nat)
    requires k <= |u| && IsSubsequence(t, u[k..])
    ensures IsSubsequence(t, u)
    decreases k
  {
    if k > 0 {
      assert u[1..][k - 1..] == u[k..];
      SubsequenceOfSuffix(t, u[1..], k - 1);
    }
  }

  lemma SubsequenceCons(c: char, t: string, u: string)
    requires IsSubsequence(t, u)
    ensures IsSubsequence([c] + t, [c] + u)
  {
    assert ([c] + t)[1..] == t;
    assert ([c] + u)[1..] == u;
  }

  /** A subsequence of a later suffix is a subsequence of an earlier one. */
  lemma SubsequenceOfLaterSuffix(t: string, s: string, i: nat, e: nat)
    requires i <= e <= |s| && IsSubsequence(t, s[e..])
    ensures IsSubsequence(t, s[i..])
  {
    assert s[i..][e - i..] == s[e..];
    SubsequenceOfSuffix(t, s[i..], e - i);
  }

  /** Where a block is matched, the scan resumes after it. */
  lemma SkipsBlock(s: string, i: nat, e: nat)
    requires i < |s| && BlockEnd(s, i) == Some(e)
    ensures StripFrom(s, i) == StripFrom(s, e)
  {
  }

  lemma StripFromSkipsBlock(s: string, i: nat, e: nat)
    requires i < e <= |s| && BlockEnd(s, i) == Some(e)
    requires IsSubsequence(StripFrom(s, e), s[e..])
    ensures IsSubsequence(StripFrom(s, i), s[i..])
  {
    SkipsBlock(s, i, e);
    SubsequenceOfLaterSuffix(StripFrom(s, e), s, i, e);
  }

  lemma StripFromKeepsChar(s: string, i: nat)
    requires i < |s| && BlockEnd(s, i).None?
    requires IsSubsequence(StripFrom(s, i + 1), s[i + 1..])
    ensures IsSubsequence(StripFrom(s, i), s[i..])
  {
    assert s[i..] == [s[i]] + s[i + 1..];
    SubsequenceCons(s[i], StripFrom(s, i + 1), s[i + 1..]);
  }

  lemma {:induction false} StripFromIsSubsequence(s: string, i: nat)
    requires i <= |s|
    ensures IsSubsequence(StripFrom(s, i), s[i..])
    decreases |s| - i
  {
    if i < |s| {
      var block := BlockEnd(s, i);
      if block.Some? {
        StripFromIsSubsequence(s, block.value);
        StripFromSkipsBlock(s, i, block.value);
      } else {
        StripFromIsSubsequence(s, i + 1);
        StripFromKeepsChar(s, i);
      }
    }
  }

  /** The sanitised snapshot: every script block the regex matches is removed. */
  function Strip(html: string): (r: string)
    ensures |r| <= |html|
    ensures IsSubsequence(r, html)
  {
    StripFromIsSubsequence(html, 0);
    assert html[0..] == html;
    StripFrom(html, 0)
  }

  /** Where no `<script` starts, the scan keeps the character and moves on by one. */
  lemma KeptWithoutTag(s: string, i: nat)
    requires i < |s| && !ScriptTagAt(s, i)
    ensures StripFrom(s, i) == [s[i]] + StripFrom(s, i + 1)
  {
    assert BlockEnd(s, i).None?;
  }

  lemma SliceCons(s: string, i: nat, j: nat, rest: string)
    requires i < j <= |s|
    ensures [s[i]] + (s[i + 1..j] + rest) == s[i..j] + rest
  {
    assert s[i..j] == [s[i]] + s[i + 1..j];
  }

  /** Text before the first `<script` is copied verbatim. */
  lemma {:induction false} StripFromCopiesPlainText(s: string, i: nat, j: nat)
    requires i <= j <= |s|
    requires forall k :: i <= k < j ==> !ScriptTagAt(s, k)
    ensures StripFrom(s, i) == s[i..j] + StripFrom(s, j)
    decreases j - i
  {
    if i < j {
      KeptWithoutTag(s, i);
      StripFromCopiesPlainText(s, i + 1, j);
      SliceCons(s, i, j, StripFrom(s, j));
    }
  }

  /** Markup without any `<script` passes through unchanged. */
  lemma StripWithoutScriptIsIdentity(html: string)
    requires !ContainsOpen(html)
    ensures Strip(html) == html
  {
    forall k | 0 <= k < |html| ensures !ScriptTagAt(html, k) {
    }
    StripFromCopiesPlainText(html, 0, |html|);
    assert html[0..|html|] == html;
  }

  /** A `<script` that no closer follows is kept, so sanitised output may still
      contain `<script`. */
  lemma StripKeepsUnclosedScript()
    ensures Strip("<script>") == "<script>"
  {
    var s := "<script>";
    assert BlockCloser(s, 0).None? by {
      BlockCloserIsLastCandidate(s, 0);
    }
    StripFromCopiesPlainText(s, 1, 8);
  }

  /** A complete block is removed together with its closer, white space included. */
  lemma StripRemovesCompleteBlock()
    ensures Strip("<script></script >") == ""
  {
    var s := "<script></script >";
    assert OpensAt(s, 0);
    assert SpaceRun(s, 16) == 1 by {
      assert SpaceRun(s, 17) == 0;
    }
    assert Candidate(s, 0, 8) by {
      assert CloserEnd(s, 8) == Some(18);
      assert !ExactCloseAt(s, 7);
    }
    BlockCloserIsLastCandidate(s, 0);
    var p := BlockCloser(s, 0).value;
    assert p == 8 by {
      assert s[p] == '<';
    }
    assert BlockEnd(s, 0) == Some(18);
  }

  /** A bare `<script></script>` is matched as one block. */
  lemma EmptyBlockAt(s: string, i: nat)
    requires i + 17 <= |s| && s[i..i + 17] == "<script></script>"
    ensures BlockEnd(s, i) == Some(i + 17)
  {
    var b := s[i..i + 17];
    assert s[i] == b[0] && s[i + 1] == b[1] && s[i + 2] == b[2] && s[i + 3] == b[3]
      && s[i + 4] == b[4] && s[i + 5] == b[5] && s[i + 6] == b[6] && s[i + 7] == b[7]
      && s[i + 8] == b[8] && s[i + 9] == b[9] && s[i + 10] == b[10] && s[i + 11] == b[11]
      && s[i + 12] == b[12] && s[i + 13] == b[13] && s[i + 14] == b[14] && s[i + 15] == b[15]
      && s[i + 16] == b[16];
    assert OpensAt(s, i);
    assert !ExactCloseAt(s, i + 7) && CloserEnd(s, i + 7).None?;
    assert ExactCloseAt(s, i + 8);
    LastCloserMovesOn(s, i, i + 7, None);
    LastCloserAtExactClose(s, i, i + 8, None);
    ExactCloseIsCloser(s, i + 8);
  }

  /** The text `<scr<script></script>ipt>`: a complete block inside the word `<script>`. */
  predicate SplitTag(s: string) {
    s == "<scr" + "<script></script>" + "ipt>"
  }

  lemma SplitTagFront(s: string)
    requires SplitTag(s)
    ensures StripFrom(s, 0) == "<scr" + StripFrom(s, 4)
  {
    forall k | 0 <= k < 4 ensures !ScriptTagAt(s, k) {
      if k == 0 {
        assert s[4] == '<';
      } else {
        assert s[k] != '<';
      }
    }
    StripFromCopiesPlainText(s, 0, 4);
    assert s[0..4] == "<scr";
  }

  lemma SplitTagBlock(s: string)
    requires SplitTag(s)
    ensures StripFrom(s, 4) == StripFrom(s, 21)
  {
    assert s[4..21] == "<script></script>";
    EmptyBlockAt(s, 4);
    SkipsBlock(s, 4, 21);
  }

  lemma SplitTagBack(s: string)
    requires SplitTag(s)
    ensures StripFrom(s, 21) == "ipt>"
  {
    forall k | 21 <= k < 25 ensures !ScriptTagAt(s, k) {
      assert s[k] != '<';
    }
    StripFromCopiesPlainText(s, 21, 25);
    assert s[21..25] == "ipt>";
  }

  /** One pass is not enough: removing a complete block can join the text around it
      into a new `<script`. */
  lemma StripCanRejoinScriptTag(s: string)
    requires SplitTag(s)
    ensures Strip(s) == "<script>"
  {
    assert Strip(s) == StripFrom(s, 0);
    SplitTagFront(s);
    SplitTagBlock(s);
    SplitTagBack(s);
  }
}
