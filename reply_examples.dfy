/**
 * Replies in the exact format the two prompts ask for ("Score: N/100" then
 * "Feedback: ...", and the team variant), and what the parsers make of them.
 */
module ReplyExamples {
  import opened Wrappers
  import opened Strings
  import opened ReplyParser
  import opened ReplyParserFacts

  /** The first line of the reply the applicant prompt asks for, and the blank line after it. */
  function ApplicantHeader(n: nat): string {
    "Score: " + NatToString(n) + "/100\n\n"
  }

  /** The reply the applicant prompt asks the model for. */
  function ApplicantReply(n: nat, body: string): string {
    ApplicantHeader(n) + "Feedback: " + body
  }

  /** The first line of the reply the team prompt asks for, and the blank line after it. */
  function TeamHeader(n: nat): string {
    "Team Score: " + NatToString(n) + "/100\n\n"
  }

  /** The reply the team prompt asks the model for. */
  function TeamReply(n: nat, body: string): string {
    TeamHeader(n) + "Team Feedback: " + body
  }

  // ---------------------------------------------------------------------------
  // Slices of concatenations.

  lemma Pieces(a: string, b: string, c: string)
    ensures var s := a + b + c;
      && |s| == |a| + |b| + |c|
      && s[..|a|] == a && s[|a|..|a| + |b|] == b && s[|a| + |b|..] == c
  {
  }

  lemma SliceWithin(s: string, i: nat, t: string, a: nat, b: nat)
    requires i + |t| <= |s| && s[i..i + |t|] == t && a <= b <= |t|
    ensures s[i + a..i + b] == t[a..b]
  {
    forall x | 0 <= x < b - a ensures s[i + a..i + b][x] == t[a..b][x] {
      assert s[i + a + x] == s[i..i + |t|][a + x];
    }
  }

  /** Text w written at k spells tag (in any case) at k. */
  lemma HasAtWritten(s: string, k: nat, w: string, tag: string)
    requires k + |w| <= |s| && s[k..k + |w|] == w && |tag| <= |w|
    requires forall x :: 0 <= x < |tag| ==> Lower(w[x]) == tag[x]
    ensures HasAt(s, k, tag)
  {
    HasAtMeans(s, k, tag);
    forall x | 0 <= x < |tag| ensures Lower(s[k + x]) == tag[x] {
      assert s[k + x] == s[k..k + |w|][x];
    }
  }

  /** The slices of a reply framed as header, written label and body. */
  lemma LabelSlices(h: string, w: string, body: string)
    requires |w| >= 1 && w[|w| - 1] == ' '
    ensures var s := h + w + body;
      && |h| + |w| <= |s|
      && s[..|h|] == h && s[|h|..|h| + |w|] == w && s[|h| + |w| - 1..] == " " + body
  {
    var s := h + w + body;
    Pieces(h, w, body);
    assert s[|h| + |w| - 1..] == [s[|h| + |w| - 1]] + s[|h| + |w|..];
    assert s[|h| + |w| - 1] == s[|h|..|h| + |w|][|w| - 1];
  }

  // ---------------------------------------------------------------------------
  // The score line.

  /** p (lead, one space, digits, trail) matches at 0 with group d when the reply spells its
      lead and a space up to a, d from a to b, and its trail from b. */
  lemma HeaderMatches(p: Pattern, s: string, d: string, a: nat, b: nat)
    requires p.lead != [] && !p.spaceBeforeTrail && a == |p.lead| + 1 && a <= b < |s|
    requires HasAt(s, 0, p.lead) && s[a - 1] == ' '
    requires s[a..b] == d && d != [] && AllDigits(d) && !IsDigit(s[b]) && HasAt(s, b, p.trail)
    ensures MatchAt(p, s, 0) == Some(d)
  {
    assert GroupStart(p, s, 0) == a by {
      SkipWhileSpec(s, a - 1, Whitespace);
      assert s[a] == s[a..b][0];
    }
    SkipDigitsOverRun(s, a, b);
  }

  /** str(n) has at most n + 1 digits. */
  lemma {:induction false} NatToStringLength(n: nat)
    ensures |NatToString(n)| <= n + 1
  {
    if n >= 10 {
      NatToStringLength(n / 10);
    }
  }

  /** When the first pattern matches at the very start with str(n), n in range, n is the score. */
  lemma FirstPatternAtStart(ps: seq<Pattern>, s: string, n: nat)
    requires ps != [] && MatchAt(ps[0], s, 0) == Some(NatToString(n)) && n <= 100
    ensures FirstValidScore(ps, s) == Some(n)
  {
    assert Search(ps[0], s, 0) == Some(Hit(0, NatToString(n)));
    NatToStringLength(n);
  }

  /** A reply that opens with w (spelling p's lead and a space), str(n) and then "/100" is scored n
      by the first pattern of ps. */
  lemma OpeningScore(ps: seq<Pattern>, s: string, w: string, n: nat)
    requires n <= 100 && ps != [] && ps[0].lead != [] && !ps[0].spaceBeforeTrail && ps[0].trail == "/100"
    requires |w| == |ps[0].lead| + 1 && w[|w| - 1] == ' '
    requires forall x :: 0 <= x < |ps[0].lead| ==> Lower(w[x]) == ps[0].lead[x]
    requires var b := |w| + |NatToString(n)|;
      b + 4 <= |s| && s[..|w|] == w && s[|w|..b] == NatToString(n) && s[b..b + 4] == "/100"
    ensures FirstValidScore(ps, s) == Some(n)
  {
    var p := ps[0];
    var b := |w| + |NatToString(n)|;
    HasAtWritten(s, 0, w, p.lead);
    HasAtWritten(s, b, "/100", p.trail);
    assert s[|w| - 1] == s[..|w|][|w| - 1];
    assert s[b] == s[b..b + 4][0];
    HeaderMatches(p, s, NatToString(n), |w|, b);
    FirstPatternAtStart(ps, s, n);
  }

  /** The slices of a header opening with w that the score pattern reads. */
  lemma HeaderSlices(w: string, n: nat, rest: string)
    ensures var h := w + NatToString(n) + "/100\n\n"; var s := h + rest; var b := |w| + |NatToString(n)|;
      && b + 6 == |h| && |h| <= |s| && s[..|w|] == w && s[|w|..b] == NatToString(n) && s[b..b + 4] == "/100"
  {
    var d := NatToString(n);
    var h := w + d + "/100\n\n";
    var s := h + rest;
    var b := |w| + |d|;
    Pieces(w, d, "/100\n\n");
    assert s[..|h|] == h;
    SliceWithin(s, 0, h, 0, |w|);
    SliceWithin(s, 0, h, |w|, b);
    SliceWithin(s, 0, h, b, b + 4);
    assert h[b..b + 4] == "/100\n\n"[..4];
  }

  /** A compliant applicant reply yields the score it states. */
  lemma CompliantScore(n: nat, body: string)
    requires n <= 100
    ensures FirstValidScore(ScorePatterns, ApplicantReply(n, body)) == Some(n)
  {
    HeaderSlices("Score: ", n, "Feedback: " + body);
    assert ApplicantReply(n, body) == ApplicantHeader(n) + ("Feedback: " + body);
    OpeningScore(ScorePatterns, ApplicantReply(n, body), "Score: ", n);
  }

  /** A compliant team reply yields the score it states: the first team pattern reads it. */
  lemma CompliantTeamScore(n: nat, body: string)
    requires n <= 100
    ensures FirstValidScore(TeamScorePatterns, TeamReply(n, body)) == Some(n)
  {
    HeaderSlices("Team Score: ", n, "Team Feedback: " + body);
    assert TeamReply(n, body) == TeamHeader(n) + ("Team Feedback: " + body);
    OpeningScore(TeamScorePatterns, TeamReply(n, body), "Team Score: ", n);
  }

  // ---------------------------------------------------------------------------
  // A number too long for int().

  /** A reply whose only number is the digit run d, in the form "Score: d/100". */
  function OverlongReply(d: string): string {
    "Score: " + d + "/100"
  }

  lemma OverlongSlices(d: string)
    ensures var s := OverlongReply(d); var b := 7 + |d|;
      && |s| == b + 4 && s[..7] == "Score: " && s[7..b] == d && s[b..] == "/100"
  {
    Pieces("Score: ", d, "/100");
  }

  /** The digits of the reply are those of d and the "100" of its trail. */
  lemma OverlongDigits(d: string, j: nat)
    requires AllDigits(d) && j < |OverlongReply(d)|
    ensures IsDigit(OverlongReply(d)[j]) <==> 7 <= j < 7 + |d| || 7 + |d| < j
  {
    var s := OverlongReply(d);
    OverlongSlices(d);
    if j < 7 {
      assert s[j] == s[..7][j];
    } else if j < 7 + |d| {
      assert s[j] == s[7..7 + |d|][j - 7];
    } else {
      assert s[j] == s[7 + |d|..][j - 7 - |d|];
    }
  }

  /** From any position inside d, the digit run ends where d ends. */
  lemma OverlongRunEnd(d: string, j: nat)
    requires d != [] && AllDigits(d) && 7 <= j <= 7 + |d|
    ensures SkipDigits(OverlongReply(d), j) == 7 + |d|
  {
    var s := OverlongReply(d);
    var b := 7 + |d|;
    OverlongSlices(d);
    OverlongDigits(d, b);
    forall x | 0 <= x < b - j ensures IsDigit(s[j..b][x]) {
      assert s[j..b][x] == s[7..b][j - 7 + x];
    }
    SkipDigitsOverRun(s, j, b);
  }

  /** From inside the trail's "100", the digit run ends where the reply ends. */
  lemma TrailRunEnd(d: string, j: nat)
    requires AllDigits(d) && 7 + |d| < j <= |OverlongReply(d)|
    ensures SkipDigits(OverlongReply(d), j) == |OverlongReply(d)|
  {
    var s := OverlongReply(d);
    OverlongSlices(d);
    forall x | 0 <= x < |s| - j ensures IsDigit(s[j..][x]) {
      OverlongDigits(d, j + x);
    }
    assert s[j..|s|] == s[j..];
    SkipDigitsOverRun(s, j, |s|);
  }

  /** The reply spells the lead "score:" at its start. */
  lemma OverlongLead(d: string)
    ensures HasAt(OverlongReply(d), 0, "score:")
  {
    var s := OverlongReply(d);
    OverlongSlices(d);
    HasAtWritten(s, 0, "Score: ", "score:");
  }

  /** Text ending in "/100" spells that trail at its last four characters. */
  lemma EndsInHundred(s: string, b: nat)
    requires |s| == b + 4 && s[b..] == "/100"
    ensures HasAt(s, b, "/100")
  {
    assert s[b..b + 4] == s[b..];
    HasAtWritten(s, b, "/100", "/100");
  }

  /** The reply spells the trail "/100" right after d. */
  lemma OverlongTrail(d: string)
    ensures HasAt(OverlongReply(d), 7 + |d|, "/100")
  {
    OverlongSlices(d);
    EndsInHundred(OverlongReply(d), 7 + |d|);
  }

  /** Both "Score:" patterns match at the start, with the whole of d as their group. */
  lemma OverlongLeadMatches(d: string, p: Pattern)
    requires d != [] && AllDigits(d)
    requires p == ScorePatterns[0] || p == ScorePatterns[1]
    ensures MatchAt(p, OverlongReply(d), 0) == Some(d)
  {
    var s := OverlongReply(d);
    var b := 7 + |d|;
    OverlongSlices(d);
    OverlongLead(d);
    OverlongTrail(d);
    assert HasAt(s, b, p.trail);
    assert s[6] == s[..7][6];
    OverlongDigits(d, b);
    HeaderMatches(p, s, d, 7, b);
  }

  /** (\d+)/100 first matches where d starts, again with the whole of d as its group. */
  lemma OverlongBareMatch(d: string)
    requires d != [] && AllDigits(d)
    ensures MatchAt(ScorePatterns[2], OverlongReply(d), 7) == Some(d)
    ensures forall j :: 0 <= j < 7 ==> MatchAt(ScorePatterns[2], OverlongReply(d), j).None?
  {
    var s := OverlongReply(d);
    var p := ScorePatterns[2];
    var b := 7 + |d|;
    OverlongSlices(d);
    forall j | 0 <= j < 7 ensures MatchAt(p, s, j).None? {
      OverlongDigits(d, j);
      SkipWhileSpec(s, j, Digits);
    }
    OverlongRunEnd(d, 7);
    OverlongTrail(d);
  }

  /** A pattern with no lead whose trail does not start with '/' matches nowhere: after d comes
      '/', and after the trail's "100" the reply ends. */
  lemma OverlongNoTrail(d: string, p: Pattern, j: nat)
    requires d != [] && AllDigits(d) && j <= |OverlongReply(d)|
    requires p.lead == [] && p.spaceBeforeTrail && p.trail != [] && p.trail[0] != '/'
    ensures MatchAt(p, OverlongReply(d), j).None?
  {
    var s := OverlongReply(d);
    var b := 7 + |d|;
    OverlongSlices(d);
    if 7 <= j < b {
      OverlongRunEnd(d, j);
      assert s[b] == s[b..][0];
      SkipWhileOverRun(s, b, b, Whitespace);
      MismatchAt(s, b, p.trail, 0);
    } else if b < j {
      TrailRunEnd(d, j);
      SkipWhileOverRun(s, |s|, |s|, Whitespace);
    } else {
      if j < |s| {
        OverlongDigits(d, j);
      }
      SkipWhileSpec(s, j, Digits);
    }
  }

  /** A pattern that matches nowhere yields no score. */
  lemma NowhereAccepted(p: Pattern, s: string)
    requires forall j :: 0 <= j <= |s| ==> MatchAt(p, s, j).None?
    ensures Accepted(p, s).None?
  {
    SearchFindsLeftmost(p, s, 0);
  }

  /** The first three patterns first match d itself, which int() refuses. */
  lemma OverlongRefused(d: string, k: nat)
    requires d != [] && AllDigits(d) && |d| > MaxStrDigits && k < 3
    ensures Accepted(ScorePatterns[k], OverlongReply(d)).None?
  {
    var s := OverlongReply(d);
    if k < 2 {
      OverlongLeadMatches(d, ScorePatterns[k]);
      LeftmostOnly(ScorePatterns[k], s, 0, d);
    } else {
      OverlongBareMatch(d);
      LeftmostOnly(ScorePatterns[k], s, 7, d);
    }
  }

  /** The last three patterns match nowhere in the reply. */
  lemma OverlongUnmatched(d: string, k: nat)
    requires d != [] && AllDigits(d) && 3 <= k < 6
    ensures Accepted(ScorePatterns[k], OverlongReply(d)).None?
  {
    var s := OverlongReply(d);
    forall j | 0 <= j <= |s| ensures MatchAt(ScorePatterns[k], s, j).None? {
      OverlongNoTrail(d, ScorePatterns[k], j);
    }
    NowhereAccepted(ScorePatterns[k], s);
  }

  /** A score whose digits are more than int() converts is passed over by every pattern, so
      the reply falls back to 10 with the whole stripped reply as feedback; with at most
      4300 digits and a value in 0..100 the first pattern would have read it. */
  lemma OverlongScoreFallsBack(d: string)
    requires d != [] && AllDigits(d) && |d| > MaxStrDigits
    ensures Parsed(OverlongReply(d), Applicant) == Evaluation(10, Strip(OverlongReply(d)))
  {
    var s := OverlongReply(d);
    forall k | 0 <= k < |ScorePatterns| ensures Accepted(ScorePatterns[k], s).None? {
      if k < 3 {
        OverlongRefused(d, k);
      } else {
        OverlongUnmatched(d, k);
      }
    }
    FallbackScore(s, Applicant);
  }

  // ---------------------------------------------------------------------------
  // The feedback label.

  /** A single leading space makes no difference to str.strip(). */
  lemma StripLeadingSpace(body: string)
    ensures Strip(" " + body) == Strip(body)
  {
    TrimStartSkips(" ", body, Whitespace);
  }

  /** Applicant feedback, once the label is found at k and followed by a space and body, is the stripped body. */
  lemma ApplicantFeedbackIsBody(s: string, k: nat, body: string)
    requires FindFrom(s, FeedbackLabel, 0) == Some(k)
    requires k + |FeedbackLabel| <= |s| && s[k + |FeedbackLabel|..] == " " + body
    ensures Feedback(s, Applicant) == Strip(body)
  {
    ApplicantFeedbackAfterLabel(s, k);
    StripLeadingSpace(body);
  }

  /** Team feedback, once the team label is found at k and followed by a space and body, is the stripped body. */
  lemma TeamFeedbackIsBody(s: string, k: nat, body: string)
    requires FindFrom(s, TeamFeedbackLabel, 0) == Some(k)
    requires k + |TeamFeedbackLabel| <= |s| && s[k + |TeamFeedbackLabel|..] == " " + body
    ensures Feedback(s, Team) == Strip(body)
  {
    TeamFeedbackAfterTeamLabel(s, k);
    StripLeadingSpace(body);
  }

  /** No character of the applicant header folds to 'f'. */
  lemma ApplicantHeaderHasNoF(n: nat)
    ensures forall j :: 0 <= j < |ApplicantHeader(n)| ==> Lower(ApplicantHeader(n)[j]) != 'f'
  {
    var d := NatToString(n);
    var h := ApplicantHeader(n);
    forall j | 0 <= j < |h| ensures Lower(h[j]) != 'f' {
      if j < 7 {
        assert h[j] == "Score: "[j];
      } else if j < 7 + |d| {
        assert h[j] == d[j - 7];
      } else {
        assert h[j] == "/100\n\n"[j - 7 - |d|];
      }
    }
  }

  /** No character of the team header but its first folds to 't'. */
  lemma TeamHeaderHasOneT(n: nat)
    ensures forall j :: 1 <= j < |TeamHeader(n)| ==> Lower(TeamHeader(n)[j]) != 't'
  {
    var d := NatToString(n);
    var h := TeamHeader(n);
    forall j | 1 <= j < |h| ensures Lower(h[j]) != 't' {
      if j < 12 {
        assert h[j] == "Team Score: "[j];
      } else if j < 12 + |d| {
        assert h[j] == d[j - 12];
      } else {
        assert h[j] == "/100\n\n"[j - 12 - |d|];
      }
    }
  }

  /** A tag whose first letter folds from no character of h at or after from starts nowhere there. */
  lemma TagNotInHeader(s: string, h: string, tag: string, from: nat)
    requires |h| <= |s| && s[..|h|] == h && tag != []
    requires forall j :: from <= j < |h| ==> Lower(h[j]) != tag[0]
    ensures forall j :: from <= j < |h| ==> !HasAt(s, j, tag)
  {
    forall j | from <= j < |h| ensures !HasAt(s, j, tag) {
      assert s[j] == s[..|h|][j];
    }
  }

  /** re.search finds "Feedback:" right after the header of a compliant applicant reply. */
  lemma ApplicantLabelFound(n: nat, body: string)
    ensures FindFrom(ApplicantReply(n, body), FeedbackLabel, 0) == Some(|ApplicantHeader(n)|)
  {
    var s := ApplicantReply(n, body);
    var h := ApplicantHeader(n);
    LabelSlices(h, "Feedback: ", body);
    HasAtWritten(s, |h|, "Feedback: ", FeedbackLabel);
    ApplicantHeaderHasNoF(n);
    TagNotInHeader(s, h, FeedbackLabel, 0);
    FindFirst(s, FeedbackLabel, |h|);
  }

  /** "Team Feedback:" starts nowhere inside a team header: the only 't' is its first letter,
      and "Team Score" differs from "Team Feedback" at index 5. */
  lemma TeamHeaderHidesLabel(s: string, n: nat)
    requires |TeamHeader(n)| <= |s| && s[..|TeamHeader(n)|] == TeamHeader(n)
    ensures forall j :: 0 <= j < |TeamHeader(n)| ==> !HasAt(s, j, TeamFeedbackLabel)
  {
    var h := TeamHeader(n);
    TeamHeaderHasOneT(n);
    forall j | 0 <= j < |h| ensures !HasAt(s, j, TeamFeedbackLabel) {
      if j == 0 {
        assert h[5] == "Team Score: "[5];
        assert s[5] == s[..|h|][5];
        MismatchAt(s, 0, TeamFeedbackLabel, 5);
      } else {
        assert s[j] == s[..|h|][j];
      }
    }
  }

  /** re.search finds "Team Feedback:" right after the header of a compliant team reply. */
  lemma TeamLabelFound(n: nat, body: string)
    ensures FindFrom(TeamReply(n, body), TeamFeedbackLabel, 0) == Some(|TeamHeader(n)|)
  {
    var s := TeamReply(n, body);
    var h := TeamHeader(n);
    LabelSlices(h, "Team Feedback: ", body);
    HasAtWritten(s, |h|, "Team Feedback: ", TeamFeedbackLabel);
    TeamHeaderHidesLabel(s, n);
    FindFirst(s, TeamFeedbackLabel, |h|);
  }

  /** What follows the label of a compliant applicant reply: a space and the body. */
  lemma ApplicantReplyTail(n: nat, body: string)
    ensures var s := ApplicantReply(n, body); var k := |ApplicantHeader(n)| + |FeedbackLabel|;
      k <= |s| && s[k..] == " " + body
  {
    LabelSlices(ApplicantHeader(n), "Feedback: ", body);
  }

  /** What follows the label of a compliant team reply: a space and the body. */
  lemma TeamReplyTail(n: nat, body: string)
    ensures var s := TeamReply(n, body); var k := |TeamHeader(n)| + |TeamFeedbackLabel|;
      k <= |s| && s[k..] == " " + body
  {
    LabelSlices(TeamHeader(n), "Team Feedback: ", body);
  }

  /** A compliant applicant reply yields its body, stripped, as feedback. */
  lemma CompliantFeedback(n: nat, body: string)
    ensures Feedback(ApplicantReply(n, body), Applicant) == Strip(body)
  {
    var s := ApplicantReply(n, body);
    var k := |ApplicantHeader(n)|;
    assert FindFrom(s, FeedbackLabel, 0) == Some(k) by {
      ApplicantLabelFound(n, body);
    }
    assert k + |FeedbackLabel| <= |s| && s[k + |FeedbackLabel|..] == " " + body by {
      ApplicantReplyTail(n, body);
    }
    ApplicantFeedbackIsBody(s, k, body);
  }

  /** The applicant reply the prompt asks for parses back to the score and feedback written into it. */
  lemma CompliantReply(n: nat, body: string)
    requires n <= 100
    ensures Parsed(ApplicantReply(n, body), Applicant) == Evaluation(n, Strip(body))
  {
    CompliantScore(n, body);
    CompliantFeedback(n, body);
  }

  /** A compliant team reply yields its body, stripped, as team feedback. */
  lemma CompliantTeamFeedback(n: nat, body: string)
    ensures Feedback(TeamReply(n, body), Team) == Strip(body)
  {
    var s := TeamReply(n, body);
    var k := |TeamHeader(n)|;
    assert FindFrom(s, TeamFeedbackLabel, 0) == Some(k) by {
      TeamLabelFound(n, body);
    }
    assert k + |TeamFeedbackLabel| <= |s| && s[k + |TeamFeedbackLabel|..] == " " + body by {
      TeamReplyTail(n, body);
    }
    TeamFeedbackIsBody(s, k, body);
  }

  /** The team reply the prompt asks for parses back to the score and feedback written into it. */
  lemma CompliantTeamReply(n: nat, body: string)
    requires n <= 100
    ensures Parsed(TeamReply(n, body), Team) == Evaluation(n, Strip(body))
  {
    CompliantTeamScore(n, body);
    CompliantTeamFeedback(n, body);
  }
}
