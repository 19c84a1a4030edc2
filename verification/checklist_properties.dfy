/** What `tickReferencedIssue` promises its callers, derived from the reference meaning
    stated on `Checklist.Tick`. */
module ChecklistProperties {
  import opened Text
  import opened Checklist

  /** The only change the rewrite makes is a blank inside an unchecked marker becoming `x`. */
  lemma TickChangesOnlyMarkers(body: string, owner: string, repo: string, number: nat)
    requires RegexLiteral(owner) && RegexLiteral(repo)
    ensures var r := Tick(body, owner, repo, number);
      forall k :: 0 <= k < |body| && r[k] != body[k] ==>
        r[k] == 'x' && body[k] == ' ' && MarkerAt(body, k - 3)
  {
    var r := Tick(body, owner, repo, number);
    var t := Token(owner, repo, number);
    forall k | 0 <= k < |body| && r[k] != body[k]
      ensures r[k] == 'x' && body[k] == ' ' && MarkerAt(body, k - 3)
    {
      assert FirstFrom(body, t, 0, k - 3);
      var q :| Closes(body, t, k - 3, q);
      assert body[k - 3..k + 2][3] == Unchecked[3];
    }
  }

  /** A story with no `(owner/repo#number)` token anywhere comes back unchanged. */
  lemma TickWithoutTokenIsIdentity(body: string, owner: string, repo: string, number: nat)
    requires RegexLiteral(owner) && RegexLiteral(repo)
    requires forall p :: !TokenAt(body, Token(owner, repo, number), p)
    ensures Tick(body, owner, repo, number) == body
  {
    var r := Tick(body, owner, repo, number);
    var t := Token(owner, repo, number);
    forall k | 0 <= k < |body| ensures r[k] == body[k] {
      assert !MatchAt(body, t, k - 3);
    }
  }

  /** Two ticked markers never share a line: between them lies a line break. */
  lemma TickAtMostOnePerLine(body: string, owner: string, repo: string, number: nat, m1: int, m2: int)
    requires RegexLiteral(owner) && RegexLiteral(repo)
    requires 0 <= m1 < m2 && m2 + 3 < |body|
    requires Tick(body, owner, repo, number)[m1 + 3] != body[m1 + 3]
    requires Tick(body, owner, repo, number)[m2 + 3] != body[m2 + 3]
    ensures exists n :: m1 <= n < m2 && body[n] == '\n'
  {
    var t := Token(owner, repo, number);
    assert FirstFrom(body, t, 0, m1) && FirstFrom(body, t, 0, m2);
    assert !NoNewline(body, m1, m2);
  }

  /** `lo..hi` is one whole line of `b`. */
  predicate IsLine(b: string, lo: int, hi: int) {
    && 0 <= lo <= hi <= |b|
    && (lo == 0 || b[lo - 1] == '\n')
    && (hi == |b| || b[hi] == '\n')
    && NoNewline(b, lo, hi)
  }

  /** A match whose marker touches a line has its token on that line. */
  lemma MatchInsideLine(b: string, t: string, lo: int, hi: int, m: int, q: int)
    requires ValidToken(t) && IsLine(b, lo, hi) && Closes(b, t, m, q) && lo <= m + 3 < hi
    ensures lo <= q < hi && TokenAt(b, t, q)
  {
    MarkerHasNoNewline(b, m);
    assert NoNewline(b, m, q);
    if lo > 0 {
      assert b[lo - 1] == '\n';
    }
    assert b[q] == b[q..q + |t|][0] == '(';
    if hi < |b| {
      assert b[hi] == '\n';
    }
  }

  /** No match reaches into a line that lacks the token. */
  lemma NoMatchTouchesTokenlessLine(b: string, t: string, lo: int, hi: int, m: int)
    requires ValidToken(t) && IsLine(b, lo, hi) && lo <= m + 3 < hi
    requires forall p :: lo <= p < hi ==> !TokenAt(b, t, p)
    ensures !MatchAt(b, t, m)
  {
    if MatchAt(b, t, m) {
      var q :| Closes(b, t, m, q);
      MatchInsideLine(b, t, lo, hi, m, q);
      assert false;
    }
  }

  /** A line that does not hold the exact token (another number, another repository, no
      reference at all) is left untouched. */
  lemma TickLeavesTokenlessLineAlone(body: string, owner: string, repo: string, number: nat, lo: int, hi: int)
    requires RegexLiteral(owner) && RegexLiteral(repo)
    requires IsLine(body, lo, hi)
    requires forall p :: lo <= p < hi ==> !TokenAt(body, Token(owner, repo, number), p)
    ensures Tick(body, owner, repo, number)[lo..hi] == body[lo..hi]
  {
    var r := Tick(body, owner, repo, number);
    var t := Token(owner, repo, number);
    TokenIsValid(owner, repo, number);
    forall k | lo <= k < hi ensures r[k] == body[k] {
      NoMatchTouchesTokenlessLine(body, t, lo, hi, k - 3);
    }
  }

  /** No line of `b` holds two markers that each have the token after them. */
  ghost predicate OneMatchPerLine(b: string, t: string) {
    forall i, j :: i < j && MatchAt(b, t, i) && MatchAt(b, t, j) ==> !NoNewline(b, i, j)
  }

  lemma OneMatchIsFirst(b: string, t: string, m: int)
    requires OneMatchPerLine(b, t) && MatchAt(b, t, m) && 0 <= m
    ensures FirstFrom(b, t, 0, m)
  {
  }

  /** Each position of `b1` is `b`'s character or an `x` over the blank of one of `b`'s markers. */
  ghost predicate TickedFrom(b: string, b1: string) {
    && |b1| == |b|
    && forall k :: 0 <= k < |b| ==> b1[k] == b[k] || (b1[k] == 'x' && MarkerAt(b, k - 3))
  }

  lemma MarkerTail(b: string, m: int)
    requires MarkerAt(b, m)
    ensures b[m] == '-' && b[m + 3] == ' ' && b[m + 4] == ']'
  {
    assert b[m..m + 5][0] == '-' && b[m..m + 5][3] == ' ' && b[m..m + 5][4] == ']';
  }

  /** Ticking creates no token character: inside an occurrence of the token, a ticked text
      agrees with its original. */
  lemma TokenCharUnticked(b: string, b1: string, t: string, q: int, k: int)
    requires ValidToken(t) && TickedFrom(b, b1) && TokenAt(b1, t, q) && q <= k < q + |t|
    ensures b1[k] == b[k]
  {
    assert b1[k] == t[k - q];
    if MarkerAt(b, k - 3) {
      MarkerTail(b, k - 3);
      if k + 1 < q + |t| {
        assert b1[k + 1] == t[k + 1 - q];
        assert t[k + 1 - q] != ']';
        if MarkerAt(b, k - 2) {
          MarkerTail(b, k - 2);
        }
      } else {
        assert t[|t| - 1] == ')';
      }
    }
  }

  /** In a text ticked once, a match can only come from a match of the original text:
      ticking creates neither a marker nor a token. */
  lemma MatchSurvivesUntick(b: string, b1: string, t: string, m: int, q: int)
    requires ValidToken(t) && TickedFrom(b, b1) && Closes(b1, t, m, q)
    ensures Closes(b, t, m, q)
  {
    forall k | m <= k < m + 5 ensures b[k] == b1[k] {
      assert b1[k] == b1[m..m + 5][k - m];
    }
    assert b[m..m + 5] == b1[m..m + 5];
    forall k | q <= k < q + |t| ensures b[k] == b1[k] {
      TokenCharUnticked(b, b1, t, q, k);
    }
    assert b[q..q + |t|] == b1[q..q + |t|];
  }

  /** When every line holds at most one match, the ticked text holds none. */
  lemma TickedTextHasNoMatch(b: string, b1: string, t: string, m: int)
    requires ValidToken(t) && OneMatchPerLine(b, t) && TickedFrom(b, b1)
    requires forall k :: 0 <= k < |b| ==> b1[k] == TickedChar(b, t, 0, k)
    ensures !MatchAt(b1, t, m)
  {
    if MatchAt(b1, t, m) {
      var q :| Closes(b1, t, m, q);
      MatchSurvivesUntick(b, b1, t, m, q);
      OneMatchIsFirst(b, t, m);
      MarkerTail(b1, m);
      assert false;
    }
  }

  /** Applying the rewrite twice changes nothing more, provided no line of the story holds
      two unchecked markers that both precede the token. */
  lemma TickIdempotentOnSingleMatchLines(body: string, owner: string, repo: string, number: nat)
    requires RegexLiteral(owner) && RegexLiteral(repo)
    requires OneMatchPerLine(body, Token(owner, repo, number))
    ensures var once := Tick(body, owner, repo, number);
      Tick(once, owner, repo, number) == once
  {
    var t := Token(owner, repo, number);
    TokenIsValid(owner, repo, number);
    var once := Tick(body, owner, repo, number);
    var twice := Tick(once, owner, repo, number);
    TickChangesOnlyMarkers(body, owner, repo, number);
    assert TickedFrom(body, once);
    assert forall k :: 0 <= k < |body| ==> once[k] == TickedChar(body, t, 0, k);
    forall k | 0 <= k < |once| ensures twice[k] == once[k] {
      TickedTextHasNoMatch(body, once, t, k - 3);
    }
  }

  /** No two markers of the line `b[lo..hi]` both have the token after them. */
  ghost predicate OneMatchOnLine(b: string, t: string, lo: int, hi: int) {
    forall i, j :: lo <= i < j && j + 3 < hi && MatchAt(b, t, i) ==> !MatchAt(b, t, j)
  }

  /** On a line with a single match, that match is the first of its line. */
  lemma LineMatchIsFirst(b: string, t: string, lo: int, hi: int, m: int)
    requires IsLine(b, lo, hi) && OneMatchOnLine(b, t, lo, hi)
    requires MatchAt(b, t, m) && lo <= m + 3 < hi
    ensures FirstFrom(b, t, 0, m)
  {
    MarkerHasNoNewline(b, m);
    if lo > 0 {
      assert b[lo - 1] == '\n';
    }
    assert lo <= m;
    forall j | 0 <= j < m && NoNewline(b, j, m) ensures !MatchAt(b, t, j) {
      if lo > 0 {
        assert b[lo - 1] == '\n';
      }
    }
  }

  /** Applying the rewrite twice changes nothing more on a line where at most one unchecked
      marker precedes the token, whatever the other lines hold. */
  lemma TickIdempotentOnLine(body: string, owner: string, repo: string, number: nat, lo: int, hi: int)
    requires RegexLiteral(owner) && RegexLiteral(repo)
    requires IsLine(body, lo, hi)
    requires OneMatchOnLine(body, Token(owner, repo, number), lo, hi)
    ensures var once := Tick(body, owner, repo, number);
      Tick(once, owner, repo, number)[lo..hi] == once[lo..hi]
  {
    var t := Token(owner, repo, number);
    TokenIsValid(owner, repo, number);
    var once := Tick(body, owner, repo, number);
    var twice := Tick(once, owner, repo, number);
    TickChangesOnlyMarkers(body, owner, repo, number);
    assert TickedFrom(body, once);
    forall k | lo <= k < hi ensures twice[k] == once[k] {
      if MatchAt(once, t, k - 3) {
        var q :| Closes(once, t, k - 3, q);
        MatchSurvivesUntick(body, once, t, k - 3, q);
        LineMatchIsFirst(body, t, lo, hi, k - 3);
        MarkerTail(once, k - 3);
        assert false;
      }
    }
  }

  /** A marker that is the only one in the text, with the token after it on its line, is
      the only thing ticked. */
  lemma SoleMarkerTicked(b: string, owner: string, repo: string, number: nat, m: int, q: int)
    requires RegexLiteral(owner) && RegexLiteral(repo)
    requires Closes(b, Token(owner, repo, number), m, q)
    requires forall j :: 0 <= j < |b| && j != m ==> !MarkerAt(b, j)
    ensures Tick(b, owner, repo, number) == b[m + 3 := 'x']
  {
    var t := Token(owner, repo, number);
    var r := Tick(b, owner, repo, number);
    assert FirstFrom(b, t, 0, m);
    forall k | 0 <= k < |b| ensures r[k] == b[m + 3 := 'x'][k] {
      if k != m + 3 {
        assert !MatchAt(b, t, k - 3);
      }
    }
  }
}

/** The rewrite on concrete stories. */
module ChecklistExamples {
  import opened Text
  import opened Checklist
  import opened ChecklistProperties

  const ShipIt: string := "- [ ] ship it (acme/worker#7)"

  lemma ShipItToken()
    ensures Token("acme", "worker", 7) == ShipIt[14..29]
  {
    assert Decimal(7) == "7";
    assert Token("acme", "worker", 7) == "(acme/worker#7)";
  }

  lemma ShipItOneMarker()
    ensures MarkerAt(ShipIt, 0)
    ensures forall j :: 0 <= j < |ShipIt| && j != 0 ==> !MarkerAt(ShipIt, j)
  {
    assert forall i :: 0 <= i < 5 ==> ShipIt[i] == Unchecked[i];
    assert forall j :: 1 <= j < |ShipIt| ==> ShipIt[j] != '-';
    forall j | 0 <= j < |ShipIt| && j != 0 ensures !MarkerAt(ShipIt, j) {
      if MarkerAt(ShipIt, j) {
        OnlyDashesStartMarkers(ShipIt, j);
        assert false;
      }
    }
  }

  lemma ShipItShape()
    ensures Closes(ShipIt, Token("acme", "worker", 7), 0, 14)
    ensures forall j :: 0 <= j < |ShipIt| && j != 0 ==> !MarkerAt(ShipIt, j)
    ensures ShipIt[3 := 'x'] == "- [x] ship it (acme/worker#7)"
  {
    ShipItToken();
    ShipItOneMarker();
    assert forall j :: 0 <= j < |ShipIt| ==> ShipIt[j] != '\n';
  }

  lemma NoToken17InShipIt()
    ensures forall p :: !TokenAt(ShipIt, Token("acme", "worker", 17), p)
  {
    var t17 := Token("acme", "worker", 17);
    assert Decimal(17) == "17";
    assert t17 == "(acme/worker#17)";
    assert |t17| == 16;
    forall p ensures !TokenAt(ShipIt, t17, p) {
      if 0 <= p && p + 16 <= |ShipIt| {
        assert ShipIt[p..p + 16][0] == ShipIt[p];
        assert ShipIt[p] != '(';
      }
    }
  }

  /** The story `- [ ] ship it (acme/worker#7)`: closing acme/worker#7 ticks the line. */
  lemma ShipItTicked()
    ensures Tick(ShipIt, "acme", "worker", 7) == "- [x] ship it (acme/worker#7)"
  {
    ShipItShape();
    SoleMarkerTicked(ShipIt, "acme", "worker", 7, 0, 14);
  }

  /** Closing acme/worker#17 leaves the line for acme/worker#7 alone. */
  lemma ShipItOtherNumberUntouched()
    ensures Tick(ShipIt, "acme", "worker", 17) == ShipIt
  {
    NoToken17InShipIt();
    TickWithoutTokenIsIdentity(ShipIt, "acme", "worker", 17);
  }

  const TwoMarkers: string := "- [ ] a - [ ] b (o/r#7)"
  const FirstTicked: string := "- [x] a - [ ] b (o/r#7)"

  lemma OnlyDashesStartMarkers(b: string, j: int)
    requires MarkerAt(b, j)
    ensures b[j] == '-'
  {
    assert b[j..j + 5][0] == b[j];
  }

  lemma TwoMarkersShape()
    ensures Token("o", "r", 7) == "(o/r#7)"
    ensures Closes(TwoMarkers, "(o/r#7)", 0, 16) && Closes(TwoMarkers, "(o/r#7)", 8, 16)
    ensures NoNewline(TwoMarkers, 0, 8)
    ensures forall j :: 0 <= j < |TwoMarkers| && j != 0 && j != 8 ==> !MarkerAt(TwoMarkers, j)
  {
    assert Decimal(7) == "7";
    assert forall i :: 0 <= i < 5 ==> TwoMarkers[i] == Unchecked[i] && TwoMarkers[8 + i] == Unchecked[i];
    assert TwoMarkers[16..23] == "(o/r#7)";
    assert forall j :: 0 <= j < |TwoMarkers| ==> TwoMarkers[j] != '\n';
    assert forall j :: 0 <= j < |TwoMarkers| && TwoMarkers[j] == '-' ==> j == 0 || j == 8;
    forall j | 0 <= j < |TwoMarkers| && j != 0 && j != 8 ensures !MarkerAt(TwoMarkers, j) {
      if MarkerAt(TwoMarkers, j) {
        OnlyDashesStartMarkers(TwoMarkers, j);
        assert false;
      }
    }
  }

  lemma FirstTickedShape()
    ensures Closes(FirstTicked, "(o/r#7)", 8, 16)
    ensures forall j :: 0 <= j < |FirstTicked| && j != 8 ==> !MarkerAt(FirstTicked, j)
    ensures TwoMarkers[3 := 'x'] == FirstTicked
    ensures FirstTicked[11 := 'x'] == "- [x] a - [x] b (o/r#7)"
  {
    assert forall i :: 0 <= i < 5 ==> FirstTicked[8 + i] == Unchecked[i];
    assert FirstTicked[16..23] == "(o/r#7)";
    assert forall j :: 0 <= j < |FirstTicked| ==> FirstTicked[j] != '\n';
    assert forall j :: 0 <= j < |FirstTicked| && FirstTicked[j] == '-' ==> j == 0 || j == 8;
    assert FirstTicked[0..5][3] == 'x';
    forall j | 0 <= j < |FirstTicked| && j != 8 ensures !MarkerAt(FirstTicked, j) {
      if MarkerAt(FirstTicked, j) {
        OnlyDashesStartMarkers(FirstTicked, j);
        assert false;
      }
    }
  }

  /** Two unchecked markers before the token on one line: the first pass ticks only the
      first. */
  lemma FirstPassTicksFirstMarker()
    ensures Tick(TwoMarkers, "o", "r", 7) == FirstTicked
  {
    TwoMarkersShape();
    FirstTickedShape();
    var t := Token("o", "r", 7);
    var once := Tick(TwoMarkers, "o", "r", 7);
    assert FirstFrom(TwoMarkers, t, 0, 0);
    forall k | 0 <= k < |TwoMarkers| ensures once[k] == FirstTicked[k] {
      if k != 3 {
        assert !FirstFrom(TwoMarkers, t, 0, k - 3) by {
          if k - 3 == 8 {
            assert MatchAt(TwoMarkers, t, 0);
          } else {
            assert !MatchAt(TwoMarkers, t, k - 3);
          }
        }
      }
    }
  }

  lemma SecondPassTicksSecondMarker()
    ensures Tick(FirstTicked, "o", "r", 7) == "- [x] a - [x] b (o/r#7)"
  {
    TwoMarkersShape();
    FirstTickedShape();
    SoleMarkerTicked(FirstTicked, "o", "r", 7, 8, 16);
  }

  lemma PassesDiffer()
    ensures FirstTicked != "- [x] a - [x] b (o/r#7)"
  {
    assert FirstTicked[11] != "- [x] a - [x] b (o/r#7)"[11];
  }

  /** The first pass ticks the first marker and the second pass the second: the rewrite is
      not idempotent in general. */
  lemma TickNotIdempotentInGeneral()
    ensures Tick(TwoMarkers, "o", "r", 7) == FirstTicked
    ensures Tick(FirstTicked, "o", "r", 7) == "- [x] a - [x] b (o/r#7)"
    ensures var once := Tick(TwoMarkers, "o", "r", 7);
      Tick(once, "o", "r", 7) != once
  {
    FirstPassTicksFirstMarker();
    SecondPassTicksSecondMarker();
    PassesDiffer();
  }
}
