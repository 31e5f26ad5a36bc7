/**
 * The reply parsers of services/ai_eval.py: parse_ai_response and
 * parse_team_ai_response turn the model's free-text reply into a score in
 * 0..100 and a feedback text.
 *
 * Each score regex of the source has the shape
 *   lead \s* (\d+) [\s*] trail
 * and is matched with re.search and re.IGNORECASE.  Because \s, \d and the
 * first characters of every lead and trail are disjoint, the regex engine never
 * backtracks into a shorter run: a match at a position is found by skipping the
 * maximal whitespace run and the maximal digit run, which is what MatchAt does.
 */
module ReplyParser {
  import opened Wrappers
  import opened Strings

  /** A score regex: lead (lower case, followed by \s* when non-empty), a digit
      run, \s* when spaceBeforeTrail, then trail (lower case). */
  datatype Pattern = Pattern(lead: string, trail: string, spaceBeforeTrail: bool)

  /** The patterns of parse_ai_response, in the order they are tried. */
  const ScorePatterns: seq<Pattern> := [
    Pattern("score:", "/100", false),       // Score:\s*(\d+)/100
    Pattern("score:", "", false),           // Score:\s*(\d+)
    Pattern("", "/100", false),             // (\d+)/100
    Pattern("", "out of 100", true),        // (\d+)\s*out of 100
    Pattern("", "points", true),            // (\d+)\s*points
    Pattern("", "%", true)                  // (\d+)\s*%
  ]

  /** The patterns of parse_team_ai_response: the two team patterns come first. */
  const TeamScorePatterns: seq<Pattern> := [
    Pattern("team score:", "/100", false),  // Team Score:\s*(\d+)/100
    Pattern("team score:", "", false)       // Team Score:\s*(\d+)
  ] + ScorePatterns

  const FeedbackLabel := "feedback:"
  const TeamFeedbackLabel := "team feedback:"

  /** Which of the two parsers. */
  datatype Kind = Applicant | Team

  function Patterns(kind: Kind): seq<Pattern> {
    if kind.Team? then TeamScorePatterns else ScorePatterns
  }

  /** A parse result: the score and the feedback text. */
  datatype Evaluation = Evaluation(score: int, feedback: string)

  /** A regex match: where it starts and the text of its digit group. */
  datatype Hit = Hit(pos: nat, group: string)

  /** Where p's digit group starts once its lead is matched at i: after \s* when there is a lead. */
  function GroupStart(p: Pattern, s: string, i: nat): nat
    requires i + |p.lead| <= |s|
  {
    if p.lead == [] then i else SkipSpace(s, i + |p.lead|)
  }

  /** The digit run at k when the rest of p (\s* and trail) follows it. */
  function GroupAt(p: Pattern, s: string, k: nat): (g: Option<string>)
    requires k <= |s|
    ensures g.Some? ==> g.value != [] && AllDigits(g.value)
  {
    var m := SkipDigits(s, k);
    SkipWhileSpec(s, k, Digits);
    if m == k then None
    else
      var n := if p.spaceBeforeTrail then SkipSpace(s, m) else m;
      if HasAt(s, n, p.trail) then Some(s[k..m]) else None
  }

  /** p's digit group when p matches s starting exactly at i. */
  function MatchAt(p: Pattern, s: string, i: nat): (g: Option<string>)
    requires i <= |s|
    ensures g.Some? ==> g.value != [] && AllDigits(g.value)
  {
    if HasAt(s, i, p.lead) then GroupAt(p, s, GroupStart(p, s, i)) else None
  }

  /** re.search: the leftmost position at or after i where p matches. */
  function Search(p: Pattern, s: string, i: nat): (r: Option<Hit>)
    requires i <= |s|
    ensures r.Some? ==> i <= r.value.pos <= |s| && r.value.group != [] && AllDigits(r.value.group)
    decreases |s| - i
  {
    match MatchAt(p, s, i)
    case Some(g) => Some(Hit(i, g))
    case None => if i == |s| then None else Search(p, s, i + 1)
  }

  /** The score one pattern yields: its leftmost match, kept only when int() converts it
      and the value is in 0..100. */
  function Accepted(p: Pattern, s: string): Option<nat> {
    match Search(p, s, 0)
    case Some(h) =>
      (match ToInt(h.group)
       case Some(v) => if v <= 100 then Some(v) else None
       case None => None)
    case None => None
  }

  /** The score the loop over the patterns settles on: the first pattern that yields one. */
  function FirstValidScore(ps: seq<Pattern>, s: string): (r: Option<nat>)
    ensures r.Some? ==> r.value <= 100
  {
    if ps == [] then None
    else if Accepted(ps[0], s).Some? then Accepted(ps[0], s)
    else FirstValidScore(ps[1..], s)
  }

  /** `Label:\s*(.*)` under re.DOTALL, then .strip(): the text after the first label.
      The group starts after the `\s*`; stripping makes that skip immaterial
      (Strings.StripAfterSkip), so the text is taken right after the label. */
  function Labelled(reply: string, tag: string): (r: Option<string>)
    ensures r.Some? ==> NoOuterSpace(r.value)
  {
    match FindFrom(reply, tag, 0)
    case None => None
    case Some(k) =>
      StripEnds(reply[k + |tag|..]);
      Some(Strip(reply[k + |tag|..]))
  }

  /** re.match(r'Score:\s*\d+', line[i..], re.IGNORECASE) */
  predicate ScoreLineAt(line: string, i: nat)
    requires i <= |line|
  {
    HasAt(line, i, "score:") && SkipSpace(line, i + 6) < |line| && IsDigit(line[SkipSpace(line, i + 6)])
  }

  /** The line filter of the fallback: `Score:\s*\d+`, and for teams `(Team\s+)?Score:\s*\d+`. */
  predicate IsScoreLine(line: string, kind: Kind) {
    ScoreLineAt(line, 0)
    || (kind.Team? && HasAt(line, 0, "team") && SkipSpace(line, 4) > 4 && ScoreLineAt(line, SkipSpace(line, 4)))
  }

  /** The lines the fallback keeps, in their order. */
  function KeptLines(lines: seq<string>, kind: Kind): seq<string> {
    if lines == [] then []
    else
      var last := lines[|lines| - 1];
      KeptLines(lines[..|lines| - 1], kind) + (if IsScoreLine(last, kind) then [] else [last])
  }

  /** The feedback text when a score was found; stripped, whichever way it is found. */
  function Feedback(reply: string, kind: Kind): (f: string)
    ensures NoOuterSpace(f)
  {
    var team := if kind.Team? then Labelled(reply, TeamFeedbackLabel) else None;
    if team.Some? then team.value
    else
      var plain := Labelled(reply, FeedbackLabel);
      if plain.Some? then plain.value
      else
        StripEnds(Join(KeptLines(Split(reply, '\n'), kind), "\n"));
        Strip(Join(KeptLines(Split(reply, '\n'), kind), "\n"))
  }

  /** What the parser of the given kind returns for a reply. */
  function Parsed(reply: string, kind: Kind): (e: Evaluation)
    ensures 0 <= e.score <= 100
    ensures NoOuterSpace(e.feedback)
  {
    match FirstValidScore(Patterns(kind), reply)
    case None =>
      StripEnds(reply);
      Evaluation(10, Strip(reply))
    case Some(n) => Evaluation(n, Feedback(reply, kind))
  }

  // ---------------------------------------------------------------------------
  // The source's loops.

  /** The `for pattern in score_patterns` loop with its `break`. */
  method ExtractScore(patterns: seq<Pattern>, reply: string) returns (score: Option<nat>)
    ensures score == FirstValidScore(patterns, reply)
    ensures score.Some? ==> score.value <= 100
  {
    score := None;
    var i := 0;
    while i < |patterns|
      invariant 0 <= i <= |patterns|
      invariant FirstValidScore(patterns[i..], reply) == FirstValidScore(patterns, reply)
    {
      var hit := Search(patterns[i], reply, 0);
      if hit.Some? {
        var value := ToInt(hit.value.group);
        if value.Some? && value.value <= 100 {
          score := value;
          break;
        }
      }
      assert patterns[i..][1..] == patterns[i + 1..];
      i := i + 1;
    }
  }

  /** The fallback loop: every line that is not a score line, rejoined and stripped. */
  method UnscoredText(reply: string, kind: Kind) returns (text: string)
    ensures text == Strip(Join(KeptLines(Split(reply, '\n'), kind), "\n"))
  {
    var lines := Split(reply, '\n');
    var kept: seq<string> := [];
    var i := 0;
    while i < |lines|
      invariant 0 <= i <= |lines|
      invariant kept == KeptLines(lines[..i], kind)
    {
      assert lines[..i + 1][..i] == lines[..i];
      if !IsScoreLine(lines[i], kind) {
        kept := kept + [lines[i]];
      }
      i := i + 1;
    }
    assert lines[..i] == lines;
    text := Strip(Join(kept, "\n"));
  }

  /** parse_ai_response */
  method ParseAiResponse(reply: string) returns (score: int, feedback: string)
    ensures Evaluation(score, feedback) == Parsed(reply, Applicant)
    ensures 0 <= score <= 100
  {
    var found := ExtractScore(ScorePatterns, reply);
    var labelled := Labelled(reply, FeedbackLabel);
    if labelled.Some? {
      feedback := labelled.value;
    } else {
      feedback := UnscoredText(reply, Applicant);
    }
    if found.None? {
      score := 10;
      feedback := Strip(reply);
    } else {
      score := found.value;
    }
  }

  /** parse_team_ai_response */
  method ParseTeamAiResponse(reply: string) returns (score: int, feedback: string)
    ensures Evaluation(score, feedback) == Parsed(reply, Team)
    ensures 0 <= score <= 100
  {
    var found := ExtractScore(TeamScorePatterns, reply);
    var labelled := Labelled(reply, TeamFeedbackLabel);
    if labelled.Some? {
      feedback := labelled.value;
    } else {
      labelled := Labelled(reply, FeedbackLabel);
      if labelled.Some? {
        feedback := labelled.value;
      } else {
        feedback := UnscoredText(reply, Team);
      }
    }
    if found.None? {
      score := 10;
      feedback := Strip(reply);
    } else {
      score := found.value;
    }
  }
}

module ReplyParserFacts {
  import opened Wrappers
  import opened Strings
  import opened ReplyParser

  /** A hit re.search reports is a real match, at or after the starting position. */
  lemma {:induction false} SearchHitMatches(p: Pattern, s: string, i: nat)
    requires i <= |s| && Search(p, s, i).Some?
    ensures var h := Search(p, s, i).value;
      i <= h.pos <= |s| && MatchAt(p, s, h.pos) == Some(h.group)
    decreases |s| - i
  {
    if MatchAt(p, s, i).None? {
      SearchHitMatches(p, s, i + 1);
    }
  }

  /** Nothing matches between the starting position and the hit re.search reports. */
  lemma {:induction false} SearchHitIsLeftmost(p: Pattern, s: string, i: nat, j: nat)
    requires i <= j <= |s| && Search(p, s, i).Some? && j < Search(p, s, i).value.pos
    ensures MatchAt(p, s, j).None?
    decreases j - i
  {
    if i < j {
      SearchHitIsLeftmost(p, s, i + 1, j);
    }
  }

  /** When re.search reports nothing, the pattern matches nowhere from the starting position on. */
  lemma {:induction false} SearchMissMeansNoMatch(p: Pattern, s: string, i: nat, j: nat)
    requires i <= j <= |s| && Search(p, s, i).None?
    ensures MatchAt(p, s, j).None?
    decreases j - i
  {
    if i < j {
      SearchMissMeansNoMatch(p, s, i + 1, j);
    }
  }

  /** re.search finds the leftmost position where the pattern matches, and nothing before it. */
  lemma SearchFindsLeftmost(p: Pattern, s: string, i: nat)
    requires i <= |s|
    ensures var r := Search(p, s, i);
      && (r.Some? ==> i <= r.value.pos <= |s| && MatchAt(p, s, r.value.pos) == Some(r.value.group))
      && (r.Some? ==> forall j :: i <= j < r.value.pos ==> MatchAt(p, s, j).None?)
      && (r.None? ==> forall j :: i <= j <= |s| ==> MatchAt(p, s, j).None?)
  {
    if Search(p, s, i).Some? {
      SearchHitMatches(p, s, i);
      forall j | i <= j < Search(p, s, i).value.pos ensures MatchAt(p, s, j).None? {
        SearchHitIsLeftmost(p, s, i, j);
      }
    } else {
      forall j | i <= j <= |s| ensures MatchAt(p, s, j).None? {
        SearchMissMeansNoMatch(p, s, i, j);
      }
    }
  }

  /** The score is v exactly when some pattern yields v and every earlier pattern yields nothing. */
  lemma {:induction false} FirstValidScoreIsFirstAccepted(ps: seq<Pattern>, s: string, v: nat)
    ensures FirstValidScore(ps, s) == Some(v) <==>
      exists k :: 0 <= k < |ps| && Accepted(ps[k], s) == Some(v)
        && forall j :: 0 <= j < k ==> Accepted(ps[j], s).None?
  {
    if ps != [] {
      FirstValidScoreIsFirstAccepted(ps[1..], s, v);
      if Accepted(ps[0], s).None? {
        if FirstValidScore(ps, s) == Some(v) {
          var k' :| 0 <= k' < |ps[1..]| && Accepted(ps[1..][k'], s) == Some(v)
            && forall j :: 0 <= j < k' ==> Accepted(ps[1..][j], s).None?;
          assert Accepted(ps[k' + 1], s) == Some(v);
          assert forall j :: 0 <= j < k' + 1 ==> Accepted(ps[j], s).None? by {
            forall j | 0 < j < k' + 1 ensures Accepted(ps[j], s).None? {
              assert ps[j] == ps[1..][j - 1];
            }
          }
        }
        if exists k :: 0 <= k < |ps| && Accepted(ps[k], s) == Some(v)
            && forall j :: 0 <= j < k ==> Accepted(ps[j], s).None? {
          var k :| 0 <= k < |ps| && Accepted(ps[k], s) == Some(v)
            && forall j :: 0 <= j < k ==> Accepted(ps[j], s).None?;
          assert k > 0;
          assert ps[1..][k - 1] == ps[k];
          assert forall j :: 0 <= j < k - 1 ==> Accepted(ps[1..][j], s).None? by {
            forall j | 0 <= j < k - 1 ensures Accepted(ps[1..][j], s).None? {
              assert ps[1..][j] == ps[j + 1];
            }
          }
        }
      }
    }
  }

  /** No score at all exactly when no pattern yields one; the reply then scores 10 and the
      whole stripped reply is the feedback. */
  lemma {:induction false} NoValidScore(ps: seq<Pattern>, s: string)
    ensures FirstValidScore(ps, s).None? <==> forall k :: 0 <= k < |ps| ==> Accepted(ps[k], s).None?
  {
    if ps != [] {
      NoValidScore(ps[1..], s);
      if Accepted(ps[0], s).None? {
        assert forall k :: 1 <= k < |ps| ==> ps[k] == ps[1..][k - 1];
      }
    }
  }

  lemma FallbackScore(reply: string, kind: Kind)
    requires forall k :: 0 <= k < |Patterns(kind)| ==> Accepted(Patterns(kind)[k], reply).None?
    ensures Parsed(reply, kind) == Evaluation(10, Strip(reply))
  {
    NoValidScore(Patterns(kind), reply);
  }

  /** Only a pattern's leftmost match counts: when it is out of range, or too long for int(),
      the pattern yields nothing, whatever in-range number the same pattern would match further on. */
  lemma LeftmostOnly(p: Pattern, s: string, i: nat, g: string)
    requires i <= |s| && MatchAt(p, s, i) == Some(g)
    requires forall j :: 0 <= j < i ==> MatchAt(p, s, j).None?
    ensures Accepted(p, s) ==
      if |g| <= MaxStrDigits && DigitsValue(g) <= 100 then Some(DigitsValue(g)) else None
  {
    SearchFindsLeftmost(p, s, 0);
  }

  lemma {:induction false} SkipSpaceUpToCase(s: string, t: string, i: nat)
    requires SameUpToCase(s, t) && i <= |s|
    ensures SkipSpace(s, i) == SkipSpace(t, i)
    decreases |s| - i
  {
    if i < |s| {
      LowerKeepsClasses(s[i]);
      LowerKeepsClasses(t[i]);
      SkipSpaceUpToCase(s, t, i + 1);
    }
  }

  lemma {:induction false} SkipDigitsUpToCase(s: string, t: string, i: nat)
    requires SameUpToCase(s, t) && i <= |s|
    ensures SkipDigits(s, i) == SkipDigits(t, i)
    decreases |s| - i
  {
    if i < |s| {
      LowerKeepsClasses(s[i]);
      LowerKeepsClasses(t[i]);
      SkipDigitsUpToCase(s, t, i + 1);
    }
  }

  /** A run of digits is the same in both texts, since case folding leaves digits alone. */
  lemma DigitsUpToCase(s: string, t: string, k: nat, m: nat)
    requires SameUpToCase(s, t) && k <= m <= |s|
    requires forall x :: k <= x < m ==> IsDigit(s[x])
    ensures s[k..m] == t[k..m]
  {
    forall y | 0 <= y < m - k ensures s[k..m][y] == t[k..m][y] {
      LowerKeepsClasses(s[k + y]);
      LowerKeepsClasses(t[k + y]);
    }
  }

  lemma GroupAtUpToCase(p: Pattern, s: string, t: string, k: nat)
    requires SameUpToCase(s, t) && k <= |s|
    ensures GroupAt(p, s, k) == GroupAt(p, t, k)
  {
    var m := SkipDigits(s, k);
    assert SkipDigits(t, k) == m by {
      SkipDigitsUpToCase(s, t, k);
    }
    if m != k {
      var n := if p.spaceBeforeTrail then SkipSpace(s, m) else m;
      assert n == if p.spaceBeforeTrail then SkipSpace(t, m) else m by {
        SkipSpaceUpToCase(s, t, m);
      }
      assert HasAt(s, n, p.trail) == HasAt(t, n, p.trail) by {
        HasAtUpToCase(s, t, n, p.trail);
      }
      assert s[k..m] == t[k..m] by {
        SkipWhileSpec(s, k, Digits);
        DigitsUpToCase(s, t, k, m);
      }
    }
  }

  lemma MatchAtUpToCase(p: Pattern, s: string, t: string, i: nat)
    requires SameUpToCase(s, t) && i <= |s|
    ensures MatchAt(p, s, i) == MatchAt(p, t, i)
  {
    assert HasAt(s, i, p.lead) == HasAt(t, i, p.lead) by {
      HasAtUpToCase(s, t, i, p.lead);
    }
    if HasAt(s, i, p.lead) {
      assert GroupStart(p, s, i) == GroupStart(p, t, i) by {
        if p.lead != [] {
          SkipSpaceUpToCase(s, t, i + |p.lead|);
        }
      }
      GroupAtUpToCase(p, s, t, GroupStart(p, s, i));
    }
  }

  lemma {:induction false} SearchUpToCase(p: Pattern, s: string, t: string, i: nat)
    requires SameUpToCase(s, t) && i <= |s|
    ensures Search(p, s, i) == Search(p, t, i)
    decreases |s| - i
  {
    var here := MatchAt(p, s, i);
    assert MatchAt(p, t, i) == here by {
      MatchAtUpToCase(p, s, t, i);
    }
    if here.Some? {
      assert Search(p, s, i) == Some(Hit(i, here.value)) == Search(p, t, i);
    } else if i == |s| {
      assert Search(p, s, i) == None == Search(p, t, i);
    } else {
      assert Search(p, s, i) == Search(p, s, i + 1);
      assert Search(p, t, i) == Search(p, t, i + 1);
      SearchUpToCase(p, s, t, i + 1);
    }
  }

  /** Matching ignores case: two replies that differ only in ASCII letter case get the same score. */
  lemma {:induction false} ScoreIgnoresCase(ps: seq<Pattern>, s: string, t: string)
    requires SameUpToCase(s, t)
    ensures FirstValidScore(ps, s) == FirstValidScore(ps, t)
  {
    if ps != [] {
      SearchUpToCase(ps[0], s, t, 0);
      ScoreIgnoresCase(ps[1..], s, t);
    }
  }

  // ---------------------------------------------------------------------------
  // Feedback.

  /** re.search reports the first occurrence of a label. */
  lemma FindFirst(reply: string, tag: string, k: nat)
    requires HasAt(reply, k, tag)
    requires forall j :: 0 <= j < k ==> !HasAt(reply, j, tag)
    ensures FindFrom(reply, tag, 0) == Some(k)
  {
    FindFromFirst(reply, tag, 0, k);
  }

  /** A labelled feedback is everything after the label's first occurrence, stripped. */
  lemma LabelledAfterFirst(reply: string, tag: string, k: nat)
    requires FindFrom(reply, tag, 0) == Some(k)
    ensures Labelled(reply, tag) == Some(Strip(reply[k + |tag|..]))
  {
  }

  /** When "Feedback:" first occurs at k, the applicant feedback is the text after it. */
  lemma ApplicantFeedbackAfterLabel(reply: string, k: nat)
    requires FindFrom(reply, FeedbackLabel, 0) == Some(k)
    ensures k + |FeedbackLabel| <= |reply|
    ensures Feedback(reply, Applicant) == Strip(reply[k + |FeedbackLabel|..])
  {
    assert HasAt(reply, k, FeedbackLabel);
    LabelledAfterFirst(reply, FeedbackLabel, k);
  }

  /** For a team, "Team Feedback:" wins over "Feedback:", wherever either occurs. */
  lemma TeamFeedbackAfterTeamLabel(reply: string, k: nat)
    requires FindFrom(reply, TeamFeedbackLabel, 0) == Some(k)
    ensures k + |TeamFeedbackLabel| <= |reply|
    ensures Feedback(reply, Team) == Strip(reply[k + |TeamFeedbackLabel|..])
  {
    assert HasAt(reply, k, TeamFeedbackLabel);
    LabelledAfterFirst(reply, TeamFeedbackLabel, k);
  }

  /** Without "Team Feedback:", a team reply falls back to "Feedback:" exactly as an applicant reply does. */
  lemma TeamFeedbackFallsBack(reply: string, k: nat)
    requires FindFrom(reply, TeamFeedbackLabel, 0).None?
    requires FindFrom(reply, FeedbackLabel, 0) == Some(k)
    ensures Feedback(reply, Team) == Feedback(reply, Applicant) == Strip(reply[k + |FeedbackLabel|..])
  {
    assert HasAt(reply, k, FeedbackLabel);
    LabelledAfterFirst(reply, FeedbackLabel, k);
  }

  /** The fallback keeps a line exactly when it is one of the reply's lines and not a score line. */
  lemma {:induction false} KeptLinesMembers(lines: seq<string>, kind: Kind, x: string)
    ensures x in KeptLines(lines, kind) <==> x in lines && !IsScoreLine(x, kind)
  {
    if lines != [] {
      var init := lines[..|lines| - 1];
      KeptLinesMembers(init, kind, x);
      assert lines == init + [lines[|lines| - 1]];
    }
  }

  /** The filter works line by line, so it keeps the lines' order: filtering a concatenation
      concatenates the filtered parts. */
  lemma {:induction false} KeptLinesAppend(a: seq<string>, b: seq<string>, kind: Kind)
    ensures KeptLines(a + b, kind) == KeptLines(a, kind) + KeptLines(b, kind)
    decreases |b|
  {
    if b != [] {
      var init := b[..|b| - 1];
      KeptLinesAppend(a, init, kind);
      assert (a + b)[..|a + b| - 1] == a + init;
    } else {
      assert a + b == a;
    }
  }

  /** A reply without score lines loses nothing in the fallback but its outer whitespace. */
  lemma {:induction false} NoScoreLinesKeepsAll(lines: seq<string>, kind: Kind)
    requires forall k :: 0 <= k < |lines| ==> !IsScoreLine(lines[k], kind)
    ensures KeptLines(lines, kind) == lines
  {
    if lines != [] {
      var init := lines[..|lines| - 1];
      NoScoreLinesKeepsAll(init, kind);
    }
  }

  lemma NoScoreLinesKeepsText(reply: string, kind: Kind)
    requires forall k :: 0 <= k < |Split(reply, '\n')| ==> !IsScoreLine(Split(reply, '\n')[k], kind)
    ensures Strip(Join(KeptLines(Split(reply, '\n'), kind), "\n")) == Strip(reply)
  {
    NoScoreLinesKeepsAll(Split(reply, '\n'), kind);
    JoinSplit(reply, '\n');
  }

  /** The team filter removes every line the applicant filter removes, and "Team Score: 7" besides. */
  lemma TeamFilterIsWider(line: string)
    ensures IsScoreLine(line, Applicant) ==> IsScoreLine(line, Team)
    ensures !IsScoreLine("Team Score: 7", Applicant) && IsScoreLine("Team Score: 7", Team)
  {
    TeamScoreLineSplit();
  }

  /** "Team Score: 7" is a score line for a team only. */
  lemma TeamScoreLineSplit()
    ensures !IsScoreLine("Team Score: 7", Applicant) && IsScoreLine("Team Score: 7", Team)
  {
    var t := "Team Score: 7";
    assert !HasAt(t, 0, "score:");
    TeamWordLeads();
    ScoreAfterTeamWord();
  }

  /** "Team Score: 7" opens with "Team" and one space. */
  lemma TeamWordLeads()
    ensures var t := "Team Score: 7"; HasAt(t, 0, "team") && SkipSpace(t, 4) == 5
  {
    var t := "Team Score: 7";
    assert SkipSpace(t, 4) == 5 by {
      assert IsSpace(t[4]) && !IsSpace(t[5]);
    }
    HasAtMeans(t, 0, "team");
  }

  /** In "Team Score: 7", a score line starts after "Team ". */
  lemma ScoreAfterTeamWord()
    ensures ScoreLineAt("Team Score: 7", 5)
  {
    var t := "Team Score: 7";
    assert HasAt(t, 5, "score:") by {
      HasAtMeans(t, 5, "score:");
    }
    assert SkipSpace(t, 11) == 12 by {
      assert IsSpace(t[11]) && !IsSpace(t[12]);
    }
  }
}
