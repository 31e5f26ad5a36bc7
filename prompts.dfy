/**
 * The two prompt templates of prompts/prompts_template.py, rendered for given
 * data.  The GitHub lookups the applicant prompt makes are parameters, and so
 * is the one-decimal formatting of the team's average score.
 *
 * Each template is an f-string that opens with a newline and the U+1F6A8 emoji
 * and closes with an instruction line and a newline; .strip() removes exactly
 * the two newlines.
 */
module Prompts {
  import opened Wrappers
  import opened Strings
  import opened Values

  /** U+1F6A8, the emoji both prompts open with. */
  const Siren: string := "\U{1F6A8}"

  /** The fixed text of the team prompt up to the first team name (after the opening emoji). */
  const TeamOpening: string :=
    " SYSTEM CRITICAL: YOUR RESPONSE " + "MUST BEGIN WITH A SCORE LINE OR " + "THE SYSTEM WILL CRASH \U{1F6A8}\n"
    + "\n"
    + "MANDATORY FORMAT - FOLLOW " + "EXACTLY:\n"
    + "\n"
    + "Line 1: Score: [number]/100\n"
    + "Line 2: \n"
    + "Line 3: Feedback: Hey Alan and " + "Gretel,\n"
    + "Line 4: [Your assessment of the " + "team in detail. Mention their " + "strengths/weaknessess and " + "explain the score]\n"
    + "Line 5: \n"
    + "Line 6: Recommendation: " + "[Select/Waitlist]\n"
    + "\n"
    + "EXAMPLE:\n"
    + "Team Score: 82/100\n"
    + "\n"
    + "Team Feedback: Hi Alan and " + "Gretel,\n"
    + "Team "

  /** The fixed text between the two team names: the rest of the example and the scoring guidelines. */
  const TeamGuidelines: string :=
    " shows excellent potential...\n"
    + "\n"
    + "---\n"
    + "\n"
    + "You are an experienced " + "hackathon judge preparing " + "internal notes for selection " + "reviewers (Alan and Gretel).\n"
    + "You are evaluating a TEAM " + "APPLICATION. Consider team " + "dynamics, skill " + "complementarity, collective " + "motivation, and potential for " + "collaboration.\n"
    + "\n"
    + "TEAM SCORING GUIDELINES:\n"
    + "- 90-100: Outstanding team " + "(diverse skills, strong " + "synergy, clear vision)\n"
    + "- 80-89: Strong team (good " + "skill mix, solid motivation)\n"
    + "- 70-79: Good team (decent " + "skills, some complementarity)\n"
    + "- 60-69: Average team (basic " + "skills, unclear synergy)\n"
    + "- 50-59: Below average team " + "(limited skill diversity)\n"
    + "- 30-49: Poor team (weak " + "skills, poor fit)\n"
    + "- Minimum score: 10/100\n"
    + "\n"
    + "TEAM: "

  /** The fixed text after the member summaries, up to the closing instruction. */
  const TeamCriteria: string :=
    "\n"
    + "\n"
    + "EVALUATION CRITERIA:\n"
    + "1. SKILL COMPLEMENTARITY: Do " + "members have complementary " + "technical skills?\n"
    + "2. TEAM SYNERGY: Do their " + "motivations align? Will they " + "work well together?\n"
    + "3. TRACK FIT: Are their " + "combined skills suitable for " + "the chosen track? Ntote: This " + "is not a hard rule.\n"
    + "\n"
    + "Consider:\n"
    + "- Skill gaps and overlaps\n"
    + "- Leadership potential\n"
    + "- Communication and teamwork " + "indicators\n"
    + "- Project execution capability\n"
    + "- Innovation potential as a " + "team\n"
    + "\n"

  /** The fixed text of the applicant prompt up to the first name (after the opening emoji). */
  const ApplicantOpening: string :=
    " SYSTEM CRITICAL: YOUR RESPONSE " + "MUST BEGIN WITH A SCORE LINE OR " + "THE SYSTEM WILL CRASH \U{1F6A8}\n"
    + "\n"
    + "MANDATORY FORMAT - FOLLOW " + "EXACTLY:\n"
    + "\n"
    + "Line 1: Score: [number]/100\n"
    + "Line 2: \n"
    + "Line 3: Feedback: Hey Alan and " + "Gretel,\n"
    + "Line 4: [Your assessment of the " + "applicant in detail. Mention " + "their strengths/weaknessess and " + "explain the score]\n"
    + "Line 5: \n"
    + "Line 6: Recommendation: " + "[Select/Waitlist]\n"
    + "\n"
    + "EXAMPLE:\n"
    + "Score: 75/100\n"
    + "\n"
    + "Feedback: Hey Alan and Gretel,\n"
    + "This applicant shows solid " + "motivation and some decent " + "technical grounding,especially " + "in Python and React.Their " + "GitHub profile has moderate " + "activity and a couple of " + "relevant repos, though nothing " + "groundbreaking. The project " + "repo linked is basic but " + "functional...\n"
    + "\n"
    + "Recommendation: Waitlist\n"
    + "\n"
    + "\n"
    + "---\n"
    + "\n"
    + "You are an experienced " + "hackathon judge preparing " + "internal notes for selection " + "reviewers (Alan and Gretel).\n"
    + "\n"
    + "Evaluate the applicant based on " + "the details provided below. " + "Justify your score using " + "observable evidence " + "(motivation, GitHub activity, " + "skills, project quality, etc.). " + "Be objective, concise, and " + "clear.\n"
    + "\n"
    + "\U{1F3AF} SPECIAL WEIGHTING GUIDELINE " + "(IMPORTANT):  \n"
    + "The applicant's selected " + "motivation carries weight in " + "scoring. Prioritize applicants " + "based on this internal ranking " + "(top to bottom = most " + "preferred):  \n"
    + "1. \"I'm using this hackathon to " + "explore an idea I eventually " + "want to turn into a startup.\"  \n"
    + "2. \"I'm finally exploring an " + "idea I've been thinking about " + "for a while.\"  \n"
    + "3. \"I'm here to have fun, learn " + "new things, and collaborate " + "with other builders.\"  \n"
    + "4. \"I want to gain experience " + "working with cutting-edge tech " + "and get access to mentors.\"  \n"
    + "5. \"I'm building my portfolio " + "or resume with a cool project.\" " + " \n"
    + "\n"
    + "For example, Applicants who " + "chose Option 1 should receive " + "higher scores than those who " + "chose Option 5. Factor this " + "into your evaluation and final " + "score.\n"
    + "\n"
    + "SCORING GUIDELINES:\n"
    + "- 90-100: Outstanding (strong " + "skills, great motivation, " + "impressive project)\n"
    + "- 80-89: Strong candidate \n"
    + "- 70-79: Good candidate\n"
    + "- 60-69: Average candidate\n"
    + "- 50-59: Below average\n"
    + "- 30-49: Poor (but shows some " + "effort)\n"
    + "- Minimum score: 10/100\n"
    + "\n"
    + "APPLICANT: "

  /** The closing instruction of the team prompt, naming the first line the reply must have. */
  const TeamInstruction: string := "RESPOND EXACTLY " + "AS SHOWN ABOVE. " + "START WITH " + "\"Team Score: " + "[number]/100\""

  /** The closing instruction of the applicant prompt. */
  const ApplicantInstruction: string := "RESPOND EXACTLY " + "AS SHOWN ABOVE. " + "START WITH " + "\"Score: " + "[number]/100\""

  /** A template's rendered text, which is framed by two newlines, after .strip(). */
  function Stripped(core: string): string {
    Strip("\n" + core + "\n")
  }

  /** A core that opens with the emoji and closes with an instruction survives .strip() whole. */
  lemma StrippedCore(body: string, instruction: string)
    requires instruction != [] && !IsSpace(instruction[|instruction| - 1])
    ensures Stripped(Siren + body + instruction) == Siren + body + instruction
    ensures StartsWith(Stripped(Siren + body + instruction), Siren)
    ensures EndsWith(Stripped(Siren + body + instruction), instruction)
  {
    var core := Siren + body + instruction;
    assert core[0] == Siren[0];
    assert core[|core| - 1] == instruction[|instruction| - 1];
    StripNewlines(core);
    Ends(Siren, body, instruction);
  }

  // ---------------------------------------------------------------------------
  // get_team_evaluation_prompt: the member summaries.

  /** "MEMBER i:", the start of a member's summary. */
  function MemberHeading(i: nat): string {
    "MEMBER " + NatToString(i) + ":"
  }

  /** The rest of the summary's first line: the member's name, "Member i" when absent. */
  function MemberNameLine(i: nat, m: Dict): string {
    " " + Render(Get(m, "first_name", Str("Member " + NatToString(i))))
  }

  /** The score, motivation and skills lines; the score reads "N/A" when absent. */
  function MemberDetails(m: Dict): string {
    "\nIndividual Score: " + Render(Get(m, "individual_score", Str("N/A")))
    + "/100\nMotivation: " + Render(Get(m, "motivation", Str("")))
    + "\nSkills: " + Render(Get(m, "skills", Str("")))
  }

  /** The member's f-string after its opening newline. */
  function MemberLines(i: nat, m: Dict): string {
    MemberHeading(i) + MemberNameLine(i, m) + MemberDetails(m) + "\n"
  }

  /** The summary of member number i: its f-string, stripped. */
  function MemberSummary(i: nat, m: Dict): string {
    Strip("\n" + MemberLines(i, m))
  }

  /** [f(i, x) for i, x in enumerate(xs, 1)] */
  function Enumerated(xs: seq<Dict>, f: (nat, Dict) -> string): (r: seq<string>)
    ensures |r| == |xs|
  {
    if xs == [] then [] else Enumerated(xs[..|xs| - 1], f) + [f(|xs|, xs[|xs| - 1])]
  }

  /** Element k (from 0) of an enumeration is f applied to k + 1 and the k-th element. */
  lemma {:induction false} EnumeratedAt(xs: seq<Dict>, f: (nat, Dict) -> string, k: nat)
    requires k < |xs|
    ensures Enumerated(xs, f)[k] == f(k + 1, xs[k])
  {
    var init := xs[..|xs| - 1];
    if k < |init| {
      EnumeratedAt(init, f, k);
      assert init[k] == xs[k];
    }
  }

  /** member_summaries: one summary per member, numbered from 1 in input order. */
  function MemberSummaries(members: seq<Dict>): seq<string> {
    Enumerated(members, MemberSummary)
  }

  /** The enumerate loop that builds member_summaries, and the join that makes members_text. */
  method SummarizeMembers(members: seq<Dict>) returns (text: string)
    ensures text == Join(MemberSummaries(members), "\n\n")
  {
    var summaries: seq<string> := [];
    var i := 0;
    while i < |members|
      invariant 0 <= i <= |members|
      invariant summaries == MemberSummaries(members[..i])
    {
      assert members[..i + 1][..i] == members[..i];
      summaries := summaries + [MemberSummary(i + 1, members[i])];
      i := i + 1;
    }
    assert members[..i] == members;
    text := Join(summaries, "\n\n");
  }

  /** The k-th summary (from 0) is that of the k-th member, numbered k + 1. */
  lemma SummariesNumbered(members: seq<Dict>, k: nat)
    requires k < |members|
    ensures |MemberSummaries(members)| == |members|
    ensures MemberSummaries(members)[k] == MemberSummary(k + 1, members[k])
  {
    EnumeratedAt(members, MemberSummary, k);
  }

  /** A member's summary starts with "MEMBER i:". */
  lemma SummaryHeading(i: nat, m: Dict)
    ensures StartsWith(MemberSummary(i, m), MemberHeading(i))
  {
    var h := MemberHeading(i);
    assert h[0] == 'M' && h[|h| - 1] == ':';
    StartsWithAppend(h, MemberNameLine(i, m), h);
    StartsWithAppend(h + MemberNameLine(i, m), MemberDetails(m), h);
    StartsWithAppend(h + MemberNameLine(i, m) + MemberDetails(m), "\n", h);
    StripAfterNewline(MemberLines(i, m), h);
  }

  /** Without a name, member number i is called "Member i" in its summary. */
  lemma SummaryDefaultName(i: nat, m: Dict)
    requires "first_name" !in m
    ensures MemberNameLine(i, m) == " Member " + NatToString(i)
    ensures StartsWith(MemberSummary(i, m), MemberHeading(i) + MemberNameLine(i, m))
  {
    var si := NatToString(i);
    var n := MemberNameLine(i, m);
    assert n == " Member " + si;
    assert n[|n| - 1] == si[|si| - 1];
    SummaryStartsWithName(i, m);
  }

  /** A summary whose name line ends in a visible character starts with its whole first line. */
  lemma SummaryStartsWithName(i: nat, m: Dict)
    requires var n := MemberNameLine(i, m); n != [] && !IsSpace(n[|n| - 1])
    ensures StartsWith(MemberSummary(i, m), MemberHeading(i) + MemberNameLine(i, m))
  {
    var h, n := MemberHeading(i), MemberNameLine(i, m);
    assert h[0] == 'M';
    var p := h + n;
    assert p[0] == h[0] && p[|p| - 1] == n[|n| - 1];
    assert MemberLines(i, m) == p + (MemberDetails(m) + "\n");
    StripAfterNewlineAppend(p, MemberDetails(m) + "\n");
  }

  // ---------------------------------------------------------------------------
  // get_team_evaluation_prompt: the average.

  /** The score of a member, None when absent. */
  function ScoreOf(m: Dict): Value {
    Get(m, "individual_score", Null)
  }

  /** individual_scores: the truthy scores, in member order. */
  function CountedScores(members: seq<Dict>): seq<Value> {
    if members == [] then []
    else
      var last := members[|members| - 1];
      CountedScores(members[..|members| - 1]) + (if Truthy(ScoreOf(last)) then [ScoreOf(last)] else [])
  }

  /** sum(individual_scores) needs numbers: every truthy score is an int or True (a bool is an
      int in Python). */
  predicate ScoresAreNumbers(members: seq<Dict>) {
    forall i :: 0 <= i < |members| && Truthy(ScoreOf(members[i])) ==>
      ScoreOf(members[i]).Int? || ScoreOf(members[i]).Bool?
  }

  /** The integer sum() adds for a score: True counts as 1. */
  function Number(v: Value): int {
    match v
    case Int(n) => n
    case Bool(b) => if b then 1 else 0
    case _ => 0
  }

  function Sum(scores: seq<Value>): int {
    if scores == [] then 0
    else Sum(scores[..|scores| - 1]) + Number(scores[|scores| - 1])
  }

  /** The text of avg_individual_score:.1f; format renders a non-empty mean (sum, count). */
  function AverageText(members: seq<Dict>, format: (int, nat) -> string): string {
    var scores := CountedScores(members);
    if scores == [] then "0.0" else format(Sum(scores), |scores|)
  }

  /** The average counts exactly the members whose score is present and truthy. */
  lemma {:induction false} CountedScoresAreTruthy(members: seq<Dict>, v: Value)
    ensures v in CountedScores(members) <==>
      exists i :: 0 <= i < |members| && Truthy(ScoreOf(members[i])) && v == ScoreOf(members[i])
  {
    if members != [] {
      var init := members[..|members| - 1];
      CountedScoresAreTruthy(init, v);
      if exists i :: 0 <= i < |members| && Truthy(ScoreOf(members[i])) && v == ScoreOf(members[i]) {
        var i :| 0 <= i < |members| && Truthy(ScoreOf(members[i])) && v == ScoreOf(members[i]);
        if i < |init| {
          assert init[i] == members[i];
        }
      }
      if v in CountedScores(init) {
        var i :| 0 <= i < |init| && Truthy(ScoreOf(init[i])) && v == ScoreOf(init[i]);
        assert members[i] == init[i];
      }
    }
  }

  /** With no truthy score the average is 0, printed as 0.0. */
  lemma NoScoresAverageZero(members: seq<Dict>, format: (int, nat) -> string)
    requires forall i :: 0 <= i < |members| ==> !Truthy(ScoreOf(members[i]))
    ensures AverageText(members, format) == "0.0"
  {
    if CountedScores(members) != [] {
      var v := CountedScores(members)[0];
      CountedScoresAreTruthy(members, v);
    }
  }

  /** When every member has a truthy score, every member is counted. */
  lemma {:induction false} AllScoredAllCounted(members: seq<Dict>)
    requires forall i :: 0 <= i < |members| ==> Truthy(ScoreOf(members[i]))
    ensures |CountedScores(members)| == |members|
  {
    if members != [] {
      AllScoredAllCounted(members[..|members| - 1]);
    }
  }

  // ---------------------------------------------------------------------------
  // get_team_evaluation_prompt: the whole prompt.

  /** The fixed text of the team template, in the three pieces the placeholders separate.  The
      functions below take it as a parameter, and their lemmas hold for every such text. */
  datatype TeamTemplate = TeamTemplate(opening: string, guidelines: string, criteria: string)

  /** The team template of the source. */
  const SourceTeamTemplate: TeamTemplate := TeamTemplate(TeamOpening, TeamGuidelines, TeamCriteria)

  /** The team prompt up to the Team Size line: the example and guidelines with the team name, and the track. */
  function TeamHead(t: TeamTemplate, name: string, track: string): string {
    t.opening + name + t.guidelines + name + "\nTrack: " + track
  }

  /** The Team Size line, which reports len(members). */
  function TeamSizeLine(size: nat): string {
    "\nTeam Size: " + NatToString(size) + " members"
  }

  /** The team prompt after the Team Size line: the average, the member summaries and the criteria. */
  function TeamTail(t: TeamTemplate, average: string, membersText: string): string {
    "\nAverage Individual Score: " + average + "/100\n\n" + membersText + t.criteria
  }

  /** team_data.get(...) with the source's defaults. */
  function TeamName(data: TeamData): Value {
    if data.teamName.Some? then data.teamName.value else Str("Team")
  }

  function TeamTrack(data: TeamData): Value {
    if data.chosenTrack.Some? then data.chosenTrack.value else Str("")
  }

  function TeamMembers(data: TeamData): seq<Dict> {
    if data.members.Some? then data.members.value else []
  }

  /** The team prompt up to the Team Size line, for the given data. */
  function TeamHeadOf(t: TeamTemplate, data: TeamData): string {
    TeamHead(t, Render(TeamName(data)), Render(TeamTrack(data)))
  }

  /** The text between the emoji and the closing instruction. */
  function TeamBody(t: TeamTemplate, data: TeamData, format: (int, nat) -> string): string {
    var members := TeamMembers(data);
    TeamHeadOf(t, data) + TeamSizeLine(|members|)
    + TeamTail(t, AverageText(members, format), Join(MemberSummaries(members), "\n\n"))
  }

  /** The team prompt rendered from template t. */
  function TeamPromptWith(t: TeamTemplate, data: TeamData, format: (int, nat) -> string): string
    requires ScoresAreNumbers(TeamMembers(data))
  {
    Stripped(Siren + TeamBody(t, data, format) + TeamInstruction)
  }

  /** get_team_evaluation_prompt(team_data): after .strip() it still opens with the emoji and ends
      with the instruction naming "Team Score: [number]/100". */
  function TeamPrompt(data: TeamData, format: (int, nat) -> string): (prompt: string)
    requires ScoresAreNumbers(TeamMembers(data))
    ensures prompt == Siren + TeamBody(SourceTeamTemplate, data, format) + TeamInstruction
    ensures StartsWith(prompt, Siren) && EndsWith(prompt, TeamInstruction)
  {
    TeamPromptShape(SourceTeamTemplate, data, format);
    TeamPromptWith(SourceTeamTemplate, data, format)
  }

  /** get_team_evaluation_prompt, with its loop over the members. */
  method GetTeamEvaluationPrompt(data: TeamData, format: (int, nat) -> string) returns (prompt: string)
    requires ScoresAreNumbers(TeamMembers(data))
    ensures prompt == TeamPrompt(data, format)
  {
    var members := TeamMembers(data);
    var average := AverageText(members, format);
    var membersText := SummarizeMembers(members);
    var t := SourceTeamTemplate;
    var body := TeamHeadOf(t, data) + TeamSizeLine(|members|) + TeamTail(t, average, membersText);
    prompt := Stripped(Siren + body + TeamInstruction);
  }

  /** .strip() removes exactly the two framing newlines of the team prompt, which therefore opens with
      the emoji and ends with the instruction naming "Team Score: [number]/100". */
  lemma TeamPromptShape(t: TeamTemplate, data: TeamData, format: (int, nat) -> string)
    requires ScoresAreNumbers(TeamMembers(data))
    ensures TeamPromptWith(t, data, format) == Siren + TeamBody(t, data, format) + TeamInstruction
    ensures StartsWith(TeamPromptWith(t, data, format), Siren)
    ensures EndsWith(TeamPromptWith(t, data, format), TeamInstruction)
  {
    StrippedCore(TeamBody(t, data, format), TeamInstruction);
  }

  /** The Team Size line reports the number of members, right after the team's head. */
  lemma TeamSizeReported(t: TeamTemplate, data: TeamData, format: (int, nat) -> string)
    ensures OccursAt(TeamBody(t, data, format), TeamSizeLine(|TeamMembers(data)|), |TeamHeadOf(t, data)|)
  {
    var members := TeamMembers(data);
    OccursInside(TeamHeadOf(t, data), TeamSizeLine(|members|),
      TeamTail(t, AverageText(members, format), Join(MemberSummaries(members), "\n\n")));
  }

  // ---------------------------------------------------------------------------
  // get_applicant_evaluation_prompt

  /** A GitHub lookup result, made only when the URL is truthy; {} otherwise. */
  function LookedUp(url: Value, lookup: Value -> Dict): Dict {
    if Truthy(url) then lookup(url) else map[]
  }

  /** `{url or "Not provided"}` */
  function UrlOrNotProvided(url: Value): string {
    if Truthy(url) then Render(url) else "Not provided"
  }

  /** The applicant's own fields, from the first name on; "First Name" defaults to "Applicant",
      every other field to "". */
  function ApplicantFields(a: Dict): string {
    Render(Get(a, "First Name", Str("Applicant")))
    + "\nCompany: " + Render(Get(a, "Company", Str("")))
    + "\nTitle: " + Render(Get(a, "Title", Str("")))
    + "\nTrack: " + Render(Get(a, "Chosen Track", Str("")))
    + "\n\nMotivation: " + Render(Get(a, "Motivation to Join", Str("")))
    + "\nSkills: " + Render(Get(a, "Technical Skills", Str("")))
    + "\nProjects: " + Render(Get(a, "Past Projects", Str("")))
    + "\nContinue after hackathon: " + Render(Get(a, "Post-Event Development Interest", Str("")))
    + " or " + Render(Get(a, "Other", Str("")))
  }

  /** The GitHub Profile block. */
  function ProfileBlock(url: Value, profile: Dict): string {
    "\n\nGitHub Profile: " + UrlOrNotProvided(url)
    + "\n- Username: " + Render(Get(profile, "username", Str("N/A")))
    + "\n- Repos: " + Render(Get(profile, "repo_count", Int(0)))
    + "\n- Followers: " + Render(Get(profile, "followers", Int(0)))
  }

  /** The GitHub Project block. */
  function ProjectBlock(url: Value, repo: Dict): string {
    "\n\nGitHub Project: " + UrlOrNotProvided(url)
    + "\n- Name: " + Render(Get(repo, "repo_name", Str("N/A")))
    + "\n- Language: " + Render(Get(repo, "language", Str("N/A")))
    + "\n- Stars: " + Render(Get(repo, "stars", Int(0)))
    + "\n- Watchers: " + Render(Get(repo, "watchers", Int(0)))
    + "\n- Commit Count: " + Render(Get(repo, "commit_count", Str("N/A")))
  }

  function ProfileUrl(a: Dict): Value {
    Get(a, "GitHub URL", Str(""))
  }

  function RepoUrl(a: Dict): Value {
    Get(a, "GitHub Repository Link for Project", Str(""))
  }

  /** The text between the emoji and the closing instruction, with opening the fixed text before the
      first name. */
  function ApplicantBody(opening: string, a: Dict, profileOf: Value -> Dict, repoOf: Value -> Dict): string {
    opening + ApplicantFields(a)
    + ProfileBlock(ProfileUrl(a), LookedUp(ProfileUrl(a), profileOf))
    + (ProjectBlock(RepoUrl(a), LookedUp(RepoUrl(a), repoOf)) + "\n\n")
  }

  /** The applicant prompt rendered from the fixed text opening. */
  function ApplicantPromptWith(opening: string, a: Dict, profileOf: Value -> Dict, repoOf: Value -> Dict): string {
    Stripped(Siren + ApplicantBody(opening, a, profileOf, repoOf) + ApplicantInstruction)
  }

  /** get_applicant_evaluation_prompt(applicant_data), with fetch_github_profile and fetch_repo_info
      as profileOf and repoOf: after .strip() it still opens with the emoji and ends with the
      instruction naming "Score: [number]/100". */
  function ApplicantPrompt(a: Dict, profileOf: Value -> Dict, repoOf: Value -> Dict): (prompt: string)
    ensures prompt == Siren + ApplicantBody(ApplicantOpening, a, profileOf, repoOf) + ApplicantInstruction
    ensures StartsWith(prompt, Siren) && EndsWith(prompt, ApplicantInstruction)
  {
    ApplicantPromptShape(ApplicantOpening, a, profileOf, repoOf);
    ApplicantPromptEnds(ApplicantOpening, a, profileOf, repoOf);
    ApplicantPromptWith(ApplicantOpening, a, profileOf, repoOf)
  }

  /** .strip() removes exactly the two framing newlines of the applicant prompt. */
  lemma ApplicantPromptShape(opening: string, a: Dict, profileOf: Value -> Dict, repoOf: Value -> Dict)
    ensures ApplicantPromptWith(opening, a, profileOf, repoOf)
      == Siren + ApplicantBody(opening, a, profileOf, repoOf) + ApplicantInstruction
  {
    StrippedCore(ApplicantBody(opening, a, profileOf, repoOf), ApplicantInstruction);
  }

  /** The applicant prompt opens with the emoji and ends with the instruction naming "Score: [number]/100". */
  lemma ApplicantPromptEnds(opening: string, a: Dict, profileOf: Value -> Dict, repoOf: Value -> Dict)
    ensures StartsWith(ApplicantPromptWith(opening, a, profileOf, repoOf), Siren)
    ensures EndsWith(ApplicantPromptWith(opening, a, profileOf, repoOf), ApplicantInstruction)
  {
    StrippedCore(ApplicantBody(opening, a, profileOf, repoOf), ApplicantInstruction);
  }

  /** The GitHub Profile block follows the applicant's fields. */
  lemma ProfileBlockPlaced(opening: string, a: Dict, profileOf: Value -> Dict, repoOf: Value -> Dict)
    ensures OccursAt(ApplicantBody(opening, a, profileOf, repoOf),
      ProfileBlock(ProfileUrl(a), LookedUp(ProfileUrl(a), profileOf)), |opening + ApplicantFields(a)|)
  {
    OccursInside(opening + ApplicantFields(a), ProfileBlock(ProfileUrl(a), LookedUp(ProfileUrl(a), profileOf)),
      ProjectBlock(RepoUrl(a), LookedUp(RepoUrl(a), repoOf)) + "\n\n");
  }

  /** Without a profile URL no profile is looked up: the prompt does not depend on the lookup. */
  lemma NoProfileLookup(opening: string, a: Dict, profileOf: Value -> Dict, otherProfileOf: Value -> Dict,
                        repoOf: Value -> Dict)
    requires !Truthy(ProfileUrl(a))
    ensures ApplicantPromptWith(opening, a, profileOf, repoOf) == ApplicantPromptWith(opening, a, otherProfileOf, repoOf)
  {
    assert LookedUp(ProfileUrl(a), profileOf) == LookedUp(ProfileUrl(a), otherProfileOf);
  }

  /** Without a project URL no repository is looked up: the prompt does not depend on the lookup. */
  lemma NoRepoLookup(opening: string, a: Dict, profileOf: Value -> Dict, repoOf: Value -> Dict,
                     otherRepoOf: Value -> Dict)
    requires !Truthy(RepoUrl(a))
    ensures ApplicantPromptWith(opening, a, profileOf, repoOf) == ApplicantPromptWith(opening, a, profileOf, otherRepoOf)
  {
    assert LookedUp(RepoUrl(a), repoOf) == LookedUp(RepoUrl(a), otherRepoOf);
  }

  /** Without a profile URL the profile block reads "Not provided", N/A, 0 and 0. */
  lemma NoProfileBlock(url: Value, profileOf: Value -> Dict)
    requires !Truthy(url)
    ensures ProfileBlock(url, LookedUp(url, profileOf))
      == "\n\nGitHub Profile: " + "Not provided" + "\n- Username: " + "N/A" + "\n- Repos: " + "0"
         + "\n- Followers: " + "0"
  {
    var p := LookedUp(url, profileOf);
    assert p == map[];
    assert Render(Get(p, "username", Str("N/A"))) == "N/A";
    assert Render(Get(p, "repo_count", Int(0))) == "0";
    assert Render(Get(p, "followers", Int(0))) == "0";
  }

  /** Without a project URL the project block reads "Not provided", N/A and 0. */
  lemma NoRepoBlock(url: Value, repoOf: Value -> Dict)
    requires !Truthy(url)
    ensures ProjectBlock(url, LookedUp(url, repoOf))
      == "\n\nGitHub Project: " + "Not provided" + "\n- Name: " + "N/A" + "\n- Language: " + "N/A"
         + "\n- Stars: " + "0" + "\n- Watchers: " + "0" + "\n- Commit Count: " + "N/A"
  {
    var r := LookedUp(url, repoOf);
    assert r == map[];
    assert Render(Get(r, "repo_name", Str("N/A"))) == "N/A";
    assert Render(Get(r, "language", Str("N/A"))) == "N/A";
    assert Render(Get(r, "stars", Int(0))) == "0";
    assert Render(Get(r, "watchers", Int(0))) == "0";
    assert Render(Get(r, "commit_count", Str("N/A"))) == "N/A";
  }

  /** Without a first name the applicant is called "Applicant". */
  lemma DefaultApplicantName(a: Dict)
    requires "First Name" !in a
    ensures StartsWith(ApplicantFields(a), "Applicant")
  {
    var rest := ApplicantFields(a)[|"Applicant"|..];
    assert Render(Get(a, "First Name", Str("Applicant"))) == "Applicant";
  }
}
