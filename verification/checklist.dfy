/** `tickReferencedIssue` (handlers/issues.go): ticks the checklist line of a story that
    refers to a closed work issue.

    The Go code compiles `- \[ \].+\(O/R#N\)` with the owner `O`, repository `R` and
    decimal issue number `N` pasted in, and rewrites every match, left to right without
    overlap, by turning its leading `- [ ]` into `- [x]`. A match starts at an unchecked
    marker; the greedy `.+` (at least one character, never a newline) runs to the LAST
    occurrence of the token `(O/R#N)` on the marker's line. Scanning resumes at the end of
    the match. */
module Checklist {
  import opened Results
  import opened Text

  const Unchecked: string := "- [ ]"
  const Checked: string := "- [x]"

  /** The reference token `(owner/repo#number)` that names a work issue. */
  function Token(owner: string, repo: string, number: nat): (t: string) {
    "(" + owner + "/" + repo + "#" + Decimal(number) + ")"
  }

  /** The token names one issue: for given owner and repository, equal tokens have equal
      numbers, so closing issue 17 never matches the line of issue 7. */
  lemma TokenDeterminesNumber(owner: string, repo: string, m: nat, n: nat)
    requires Token(owner, repo, m) == Token(owner, repo, n)
    ensures m == n
  {
    var a, b := Token(owner, repo, m), Token(owner, repo, n);
    var lo := |owner| + |repo| + 3;
    assert a[lo..|a| - 1] == Decimal(m);
    assert b[lo..|b| - 1] == Decimal(n);
    DecimalInjective(m, n);
  }

  /** What the proofs need of a token: it is bracketed by `(` and `)` and holds no square bracket. */
  predicate ValidToken(t: string) {
    && |t| >= 3
    && t[0] == '('
    && t[|t| - 1] == ')'
    && '[' !in t
    && ']' !in t
  }

  lemma TokenIsValid(owner: string, repo: string, number: nat)
    requires RegexLiteral(owner) && RegexLiteral(repo)
    ensures ValidToken(Token(owner, repo, number))
  {
    var t := Token(owner, repo, number);
    var d := Decimal(number);
    assert t == "(" + owner + "/" + repo + "#" + d + ")";
    assert '[' in RegexMetachars && ']' in RegexMetachars;
    forall k | 0 <= k < |t| ensures t[k] != '[' && t[k] != ']' {
      if 1 <= k < 1 + |owner| {
        assert t[k] == owner[k - 1];
      } else if 2 + |owner| <= k < 2 + |owner| + |repo| {
        assert t[k] == repo[k - 2 - |owner|];
      } else if 3 + |owner| + |repo| <= k < 3 + |owner| + |repo| + |d| {
        assert t[k] == d[k - 3 - |owner| - |repo|];
      }
    }
  }

  predicate MarkerAt(b: string, i: int) {
    0 <= i && i + 5 <= |b| && b[i..i + 5] == Unchecked
  }

  predicate TokenAt(b: string, t: string, p: int) {
    0 <= p && p + |t| <= |b| && b[p..p + |t|] == t
  }

  /** `b[lo..hi]` exists and holds no line break. */
  predicate NoNewline(b: string, lo: int, hi: int) {
    forall k :: lo <= k < hi ==> 0 <= k < |b| && b[k] != '\n'
  }

  /** The pattern matches from the marker at `i` to the token at `p`. */
  predicate Closes(b: string, t: string, i: int, p: int) {
    && MarkerAt(b, i)
    && i + 6 <= p
    && TokenAt(b, t, p)
    && NoNewline(b, i + 5, p)
  }

  /** Some match of the pattern starts at `i`. */
  ghost predicate MatchAt(b: string, t: string, i: int) {
    exists p :: Closes(b, t, i, p)
  }

  /** The end of the line that holds position `k`: the next newline, or the end of the text. */
  function LineEnd(b: string, k: nat): (e: nat)
    requires k <= |b|
    ensures k <= e <= |b| && NoNewline(b, k, e)
    ensures e < |b| ==> b[e] == '\n'
    decreases |b| - k
  {
    if k == |b| || b[k] == '\n' then k else LineEnd(b, k + 1)
  }

  /** The last occurrence of the token that starts between `lo` and `hi`. */
  function LastTokenIn(b: string, t: string, lo: nat, hi: int): (r: Option<nat>)
    ensures r.Some? ==> lo <= r.value <= hi && TokenAt(b, t, r.value)
    ensures r.Some? ==> forall q :: r.value < q <= hi ==> !TokenAt(b, t, q)
    ensures r.None? ==> forall q :: lo <= q <= hi ==> !TokenAt(b, t, q)
    decreases hi - lo
  {
    if hi < lo then None
    else if TokenAt(b, t, hi) then Some(hi)
    else LastTokenIn(b, t, lo, hi - 1)
  }

  /** Where the greedy match from the marker at `i` takes its token: the last one on the line. */
  function LastClose(b: string, t: string, i: nat): (r: Option<nat>)
    ensures r.Some? ==> Closes(b, t, i, r.value)
    ensures r.Some? ==> forall q :: r.value < q ==> !Closes(b, t, i, q)
    ensures r.None? ==> forall q :: !Closes(b, t, i, q)
  {
    if !MarkerAt(b, i) then None
    else
      var e := LineEnd(b, i + 5);
      var r := LastTokenIn(b, t, i + 6, e);
      assert forall q :: Closes(b, t, i, q) ==> q <= e;
      r
  }

  /** The rewritten text of `b[pos..]`, scanning for matches from `pos`. */
  function TickFrom(b: string, t: string, pos: nat): (r: string)
    requires pos <= |b|
    ensures |r| == |b| - pos
    decreases |b| - pos
  {
    if pos == |b| then []
    else match LastClose(b, t, pos)
      case None => [b[pos]] + TickFrom(b, t, pos + 1)
      case Some(p) => Checked + b[pos + 5..p + |t|] + TickFrom(b, t, p + |t|)
  }

  /** The reference meaning of the rewrite: the marker at `m` is ticked when a match starts
      there and no earlier match starts on the same line (at or after `pos`). */
  ghost predicate FirstFrom(b: string, t: string, pos: int, m: int) {
    && pos <= m
    && MatchAt(b, t, m)
    && forall j {:trigger MatchAt(b, t, j)} :: pos <= j < m && NoNewline(b, j, m) ==> !MatchAt(b, t, j)
  }

  /** `tickReferencedIssue(body, owner, repo, number)`. */
  function Tick(body: string, owner: string, repo: string, number: nat): (r: string)
    requires RegexLiteral(owner) && RegexLiteral(repo)
    ensures |r| == |body|
    ensures forall k :: 0 <= k < |body| ==>
      r[k] == if FirstFrom(body, Token(owner, repo, number), 0, k - 3) then 'x' else body[k]
  {
    var t := Token(owner, repo, number);
    TokenIsValid(owner, repo, number);
    TickFromMeaning(body, t, 0);
    assert forall k :: 0 <= k < |body| ==> TickFrom(body, t, 0)[k] == TickedChar(body, t, 0, k);
    TickFrom(body, t, 0)
  }

  // ---------------------------------------------------------------------------------
  // Proof of the reference meaning

  /** No unchecked marker starts inside an occurrence of a valid token. */
  lemma NoMarkerInToken(b: string, t: string, p: int, m: int)
    requires ValidToken(t) && TokenAt(b, t, p) && p <= m < p + |t|
    ensures !MarkerAt(b, m)
  {
    if 0 <= m && m + 5 <= |b| {
      var w := b[m..m + 5];
      if m + 2 < p + |t| {
        assert b[m + 2] == t[m + 2 - p];
        assert t[m + 2 - p] != '[';
        assert w[2] != Unchecked[2];
      } else {
        var k := p + |t| - 1;
        assert b[k] == t[|t| - 1] == ')';
        assert w[k - m] != Unchecked[k - m];
      }
    }
  }

  lemma MarkerHasNoNewline(b: string, i: int)
    requires MarkerAt(b, i)
    ensures NoNewline(b, i, i + 5)
  {
    forall k | i <= k < i + 5 ensures 0 <= k < |b| && b[k] != '\n' {
      assert b[k] == Unchecked[k - i];
    }
  }

  /** Everything from the marker up to the token of a match lies on one line. */
  lemma MatchOnOneLine(b: string, t: string, pos: int, p: int, j: int)
    requires Closes(b, t, pos, p) && pos <= j <= p
    ensures NoNewline(b, pos, j)
  {
    MarkerHasNoNewline(b, pos);
  }

  /** After the match taken at `pos`, no match starts on the rest of its line. */
  lemma NoMatchLaterOnLine(b: string, t: string, pos: nat, m: int)
    requires LastClose(b, t, pos).Some?
    requires LastClose(b, t, pos).value + |t| <= m && MatchAt(b, t, m)
    ensures !NoNewline(b, pos, m)
  {
    var p := LastClose(b, t, pos).value;
    if NoNewline(b, pos, m) {
      var q :| Closes(b, t, m, q);
      MarkerHasNoNewline(b, m);
      assert NoNewline(b, pos + 5, q);
      assert Closes(b, t, pos, q);
      assert false;
    }
  }

  /** Case of `TickFromMeaning` where no match starts at `pos`. */
  lemma FirstFromSkip(b: string, t: string, pos: nat, m: int)
    requires LastClose(b, t, pos).None?
    ensures FirstFrom(b, t, pos, m) <==> FirstFrom(b, t, pos + 1, m)
  {
    assert !MatchAt(b, t, pos);
  }

  /** Case of `TickFromMeaning` where a match starts at `pos`: inside the match only `pos`
      itself is ticked. */
  lemma FirstFromInsideMatch(b: string, t: string, pos: nat, m: int)
    requires ValidToken(t) && LastClose(b, t, pos).Some?
    requires m < LastClose(b, t, pos).value + |t|
    ensures FirstFrom(b, t, pos, m) <==> m == pos
  {
    var p := LastClose(b, t, pos).value;
    assert MatchAt(b, t, pos);
    if pos < m <= p {
      MatchOnOneLine(b, t, pos, p, m);
    } else if p < m {
      NoMarkerInToken(b, t, p, m);
    }
  }

  /** Case of `TickFromMeaning` where a match starts at `pos`: after the match, ticking
      proceeds as if scanning had started at its end. */
  lemma FirstFromAfterMatch(b: string, t: string, pos: nat, m: int)
    requires ValidToken(t) && LastClose(b, t, pos).Some?
    requires LastClose(b, t, pos).value + |t| - 3 <= m
    ensures FirstFrom(b, t, pos, m) <==> FirstFrom(b, t, LastClose(b, t, pos).value + |t|, m)
  {
    var p := LastClose(b, t, pos).value;
    var e := p + |t|;
    if m < e {
      if MatchAt(b, t, m) {
        NoMarkerInToken(b, t, p, m);
      }
    } else if FirstFrom(b, t, e, m) {
      NoMatchLaterOnLine(b, t, pos, m);
      var n :| pos <= n < m && !(0 <= n < |b| && b[n] != '\n');
      forall j | pos <= j < e && NoNewline(b, j, m) ensures !MatchAt(b, t, j) {
        assert n < j;
        if j <= p {
          MatchOnOneLine(b, t, pos, p, j);
        } else {
          NoMarkerInToken(b, t, p, j);
        }
      }
    }
  }

  /** The character the reference meaning puts at `k` when scanning from `pos`. */
  ghost function TickedChar(b: string, t: string, pos: int, k: int): char
    requires 0 <= k < |b|
  {
    if FirstFrom(b, t, pos, k - 3) then 'x' else b[k]
  }

  /** `TickFrom(b, t, pos)` agrees with the reference meaning everywhere. */
  ghost predicate MeansTicked(b: string, t: string, pos: nat)
    requires pos <= |b|
  {
    forall k :: pos <= k < |b| ==> TickFrom(b, t, pos)[k - pos] == TickedChar(b, t, pos, k)
  }

  lemma TickedCharSkip(b: string, t: string, pos: nat, k: int)
    requires pos <= k < |b| && LastClose(b, t, pos).None?
    ensures TickedChar(b, t, pos, k) == TickedChar(b, t, pos + 1, k)
  {
    FirstFromSkip(b, t, pos, k - 3);
  }

  /** One unfolding of `TickFrom` where no match starts. */
  lemma TickFromAtSkip(b: string, t: string, pos: nat)
    requires pos < |b| && LastClose(b, t, pos).None?
    ensures TickFrom(b, t, pos) == [b[pos]] + TickFrom(b, t, pos + 1)
  {
  }

  lemma SkipStepAt(b: string, t: string, pos: nat, k: int)
    requires pos <= k < |b| && LastClose(b, t, pos).None? && MeansTicked(b, t, pos + 1)
    ensures TickFrom(b, t, pos)[k - pos] == TickedChar(b, t, pos, k)
  {
    TickFromAtSkip(b, t, pos);
    if k > pos {
      TickedCharSkip(b, t, pos, k);
      assert TickFrom(b, t, pos)[k - pos] == TickFrom(b, t, pos + 1)[k - (pos + 1)];
    } else {
      FirstFromSkip(b, t, pos, k - 3);
    }
  }

  /** One unfolding of `TickFrom` at a match. */
  lemma TickFromAtMatch(b: string, t: string, pos: nat)
    requires pos < |b| && LastClose(b, t, pos).Some?
    ensures var e := LastClose(b, t, pos).value + |t|;
      e <= |b| && TickFrom(b, t, pos) == Checked + b[pos + 5..e] + TickFrom(b, t, e)
  {
  }

  /** Inside the marker of a match, only its blank changes. */
  lemma MarkerStepAt(b: string, t: string, pos: nat, k: int)
    requires ValidToken(t) && pos <= k < pos + 5 && k < |b| && LastClose(b, t, pos).Some?
    ensures TickFrom(b, t, pos)[k - pos] == TickedChar(b, t, pos, k)
  {
    TickFromAtMatch(b, t, pos);
    var r := TickFrom(b, t, pos);
    FirstFromInsideMatch(b, t, pos, k - 3);
    assert b[pos..pos + 5] == Unchecked;
    assert b[k] == Unchecked[k - pos];
    assert r[k - pos] == Checked[k - pos];
  }

  /** Between the marker and the end of the token of a match, nothing changes. */
  lemma SpanStepAt(b: string, t: string, pos: nat, k: int)
    requires ValidToken(t) && pos + 5 <= k < |b| && LastClose(b, t, pos).Some?
    requires k < LastClose(b, t, pos).value + |t|
    ensures TickFrom(b, t, pos)[k - pos] == TickedChar(b, t, pos, k)
  {
    var e := LastClose(b, t, pos).value + |t|;
    TickFromAtMatch(b, t, pos);
    FirstFromInsideMatch(b, t, pos, k - 3);
    assert TickFrom(b, t, pos)[k - pos] == b[pos + 5..e][k - pos - 5];
  }

  lemma TickedCharAfterMatch(b: string, t: string, pos: nat, k: int)
    requires ValidToken(t) && pos <= k < |b| && LastClose(b, t, pos).Some?
    requires LastClose(b, t, pos).value + |t| <= k
    ensures TickedChar(b, t, pos, k) == TickedChar(b, t, LastClose(b, t, pos).value + |t|, k)
  {
    FirstFromAfterMatch(b, t, pos, k - 3);
  }

  /** After a match, the rewrite is the one that starts at the match's end. */
  lemma RestStepAt(b: string, t: string, pos: nat, k: int)
    requires ValidToken(t) && pos <= k < |b| && LastClose(b, t, pos).Some?
    requires LastClose(b, t, pos).value + |t| <= k
    requires MeansTicked(b, t, LastClose(b, t, pos).value + |t|)
    ensures TickFrom(b, t, pos)[k - pos] == TickedChar(b, t, pos, k)
  {
    var e := LastClose(b, t, pos).value + |t|;
    TickFromAtMatch(b, t, pos);
    TickedCharAfterMatch(b, t, pos, k);
    assert TickFrom(b, t, pos)[k - pos] == TickFrom(b, t, e)[k - e];
  }

  lemma MatchStepAt(b: string, t: string, pos: nat, k: int)
    requires ValidToken(t) && pos <= k < |b| && LastClose(b, t, pos).Some?
    requires LastClose(b, t, pos).value + |t| <= |b|
    requires MeansTicked(b, t, LastClose(b, t, pos).value + |t|)
    ensures TickFrom(b, t, pos)[k - pos] == TickedChar(b, t, pos, k)
  {
    var e := LastClose(b, t, pos).value + |t|;
    if k < pos + 5 {
      MarkerStepAt(b, t, pos, k);
    } else if k < e {
      SpanStepAt(b, t, pos, k);
    } else {
      RestStepAt(b, t, pos, k);
    }
  }

  lemma {:induction false} TickFromMeaning(b: string, t: string, pos: nat)
    requires ValidToken(t) && pos <= |b|
    ensures MeansTicked(b, t, pos)
    decreases |b| - pos
  {
    if pos < |b| {
      match LastClose(b, t, pos)
      case None =>
        TickFromMeaning(b, t, pos + 1);
        forall k | pos <= k < |b| ensures TickFrom(b, t, pos)[k - pos] == TickedChar(b, t, pos, k) {
          SkipStepAt(b, t, pos, k);
        }
      case Some(p) =>
        TickFromMeaning(b, t, p + |t|);
        forall k | pos <= k < |b| ensures TickFrom(b, t, pos)[k - pos] == TickedChar(b, t, pos, k) {
          MatchStepAt(b, t, pos, k);
        }
    }
  }
}

