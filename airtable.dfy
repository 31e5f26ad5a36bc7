/**
 * The record handling of services/airtable.py: the team fetch's filter and
 * projection, grouping applicants into teams, shaping a team for the prompt,
 * and writing one team result back to every member's record.
 *
 * The Airtable table is a map from record id to fields, held by a Table object
 * whose update method changes it in place.
 */
module Airtable {
  import opened Wrappers
  import opened Strings
  import opened Values

  /** A record as the table returns it: its id and its fields. */
  datatype Row = Row(id: string, fields: Dict)

  /** TEAM_FIELDS_TO_FETCH */
  const TeamFieldsToFetch: seq<string> := [
    "First Name", "Team Code", "Team Name", "Chosen Track",
    "Individual Score", "Individual Feedback", "Motivation to Join", "Technical Skills"
  ]

  // ---------------------------------------------------------------------------
  // fetch_applicants_for_team_evaluation

  /** The row has a truthy "Team Code". */
  predicate HasTeamCode(row: Row) {
    Truthy(Get(row.fields, "Team Code", Null))
  }

  /** The applicant dict built from a row: every team field (missing ones as "") plus record_id. */
  function TeamApplicant(row: Row): Dict {
    (map f | f in TeamFieldsToFetch :: Get(row.fields, f, Str("")))["record_id" := Str(row.id)]
  }

  /** Each applicant dict holds exactly the team fields and record_id, missing fields as "". */
  lemma TeamApplicantShape(row: Row)
    ensures TeamApplicant(row).Keys == (set f | f in TeamFieldsToFetch) + {"record_id"}
    ensures TeamApplicant(row)["record_id"] == Str(row.id)
    ensures forall f :: f in TeamFieldsToFetch ==>
      TeamApplicant(row)[f] == (if f in row.fields then row.fields[f] else Str(""))
  {
    assert "record_id" !in TeamFieldsToFetch;
  }

  /** What the team fetch returns for the given rows, in their order: at most one applicant per
      row, each with a truthy team code. */
  function TeamApplicants(rows: seq<Row>): (r: seq<Dict>)
    ensures |r| <= |rows|
    ensures forall k :: 0 <= k < |r| ==> "Team Code" in r[k] && Truthy(r[k]["Team Code"])
  {
    if rows == [] then []
    else
      var last := rows[|rows| - 1];
      TeamApplicantShape(last);
      TeamApplicants(rows[..|rows| - 1]) + (if HasTeamCode(last) then [TeamApplicant(last)] else [])
  }

  /** The loop of fetch_applicants_for_team_evaluation over the rows table.all() returned. */
  method FetchTeamApplicants(rows: seq<Row>) returns (applicants: seq<Dict>)
    ensures applicants == TeamApplicants(rows)
  {
    applicants := [];
    var i := 0;
    while i < |rows|
      invariant 0 <= i <= |rows|
      invariant applicants == TeamApplicants(rows[..i])
    {
      assert rows[..i + 1][..i] == rows[..i];
      if HasTeamCode(rows[i]) {
        applicants := applicants + [TeamApplicant(rows[i])];
      }
      i := i + 1;
    }
    assert rows[..i] == rows;
  }

  /** Every row with a truthy team code is fetched, projected. */
  lemma {:induction false} CodedRowFetched(rows: seq<Row>, i: nat)
    requires i < |rows| && HasTeamCode(rows[i])
    ensures TeamApplicant(rows[i]) in TeamApplicants(rows)
  {
    var init := rows[..|rows| - 1];
    if i < |init| {
      assert init[i] == rows[i];
      CodedRowFetched(init, i);
    }
  }

  /** Every fetched applicant is the projection of a row with a truthy team code. */
  lemma {:induction false} FetchedFromCodedRow(rows: seq<Row>, a: Dict)
    requires a in TeamApplicants(rows)
    ensures exists i :: 0 <= i < |rows| && HasTeamCode(rows[i]) && a == TeamApplicant(rows[i])
  {
    var init, last := rows[..|rows| - 1], rows[|rows| - 1];
    if a in TeamApplicants(init) {
      FetchedFromCodedRow(init, a);
      var i :| 0 <= i < |init| && HasTeamCode(init[i]) && a == TeamApplicant(init[i]);
      assert rows[i] == init[i];
    } else {
      assert HasTeamCode(last) && a == TeamApplicant(last);
    }
  }

  /** The fetch keeps exactly the rows with a truthy team code, projected. */
  lemma TeamApplicantsAreCodedRows(rows: seq<Row>, a: Dict)
    ensures a in TeamApplicants(rows) <==>
      exists i :: 0 <= i < |rows| && HasTeamCode(rows[i]) && a == TeamApplicant(rows[i])
  {
    if a in TeamApplicants(rows) {
      FetchedFromCodedRow(rows, a);
    }
    if exists i :: 0 <= i < |rows| && HasTeamCode(rows[i]) && a == TeamApplicant(rows[i]) {
      var i :| 0 <= i < |rows| && HasTeamCode(rows[i]) && a == TeamApplicant(rows[i]);
      CodedRowFetched(rows, i);
    }
  }

  // ---------------------------------------------------------------------------
  // group_applicants_by_team

  /** The "Team Code" of the applicant, when present, is text (.strip() needs a str). */
  predicate CodeIsText(a: Dict) {
    Get(a, "Team Code", Str("")).Str?
  }

  predicate AllCodesText(applicants: seq<Dict>) {
    forall i :: 0 <= i < |applicants| ==> CodeIsText(applicants[i])
  }

  /** applicant.get("Team Code", "").strip() */
  function TeamKey(a: Dict): string
    requires CodeIsText(a)
  {
    Strip(Get(a, "Team Code", Str("")).text)
  }

  /** The applicants whose key is code, in their input order. */
  function Members(applicants: seq<Dict>, code: string): seq<Dict>
    requires AllCodesText(applicants)
  {
    if applicants == [] then []
    else
      var last := applicants[|applicants| - 1];
      Members(applicants[..|applicants| - 1], code) + (if TeamKey(last) == code then [last] else [])
  }

  /** The teams group_applicants_by_team returns: every non-empty code with at least two members. */
  method GroupByTeam(applicants: seq<Dict>) returns (teams: map<string, seq<Dict>>)
    requires AllCodesText(applicants)
    ensures forall code :: code in teams <==> code != "" && |Members(applicants, code)| > 1
    ensures forall code :: code in teams ==> teams[code] == Members(applicants, code)
  {
    var groups: map<string, seq<Dict>> := map[];
    var i := 0;
    while i < |applicants|
      invariant 0 <= i <= |applicants|
      invariant AllCodesText(applicants[..i])
      invariant forall code :: code in groups <==> code != "" && Members(applicants[..i], code) != []
      invariant forall code :: code in groups ==> groups[code] == Members(applicants[..i], code)
    {
      assert applicants[..i + 1][..i] == applicants[..i];
      var code := TeamKey(applicants[i]);
      if code != "" {
        var members := if code in groups then groups[code] else [];
        groups := groups[code := members + [applicants[i]]];
      }
      i := i + 1;
    }
    assert applicants[..i] == applicants;
    teams := map code | code in groups && |groups[code]| > 1 :: groups[code];
  }

  /** Grouping keeps the input order: the members from a later stretch follow those from an earlier one. */
  lemma {:induction false} MembersAppend(xs: seq<Dict>, ys: seq<Dict>, code: string)
    requires AllCodesText(xs) && AllCodesText(ys)
    ensures AllCodesText(xs + ys)
    ensures Members(xs + ys, code) == Members(xs, code) + Members(ys, code)
    decreases |ys|
  {
    var zs := xs + ys;
    if ys == [] {
      assert zs == xs;
    } else {
      var init := ys[..|ys| - 1];
      assert zs[..|zs| - 1] == xs + init;
      MembersAppend(xs, init, code);
    }
  }

  /** A team holds exactly the applicants with its code, each as often as it occurs in the input. */
  lemma {:induction false} MembersCount(applicants: seq<Dict>, code: string, a: Dict)
    requires AllCodesText(applicants) && CodeIsText(a)
    ensures multiset(Members(applicants, code))[a] ==
      if TeamKey(a) == code then multiset(applicants)[a] else 0
  {
    if applicants != [] {
      var init := applicants[..|applicants| - 1];
      assert applicants == init + [applicants[|applicants| - 1]];
      MembersCount(init, code, a);
    }
  }

  /** Every applicant with a non-empty code is in the team of that code, and in no other. */
  lemma ApplicantInOwnTeamOnly(applicants: seq<Dict>, i: nat, code: string)
    requires AllCodesText(applicants) && i < |applicants|
    ensures applicants[i] in Members(applicants, TeamKey(applicants[i]))
    ensures code != TeamKey(applicants[i]) ==> applicants[i] !in Members(applicants, code)
  {
    var a := applicants[i];
    MembersCount(applicants, TeamKey(a), a);
    MembersCount(applicants, code, a);
  }

  /** Codes "A", " A " and "B": the two A applicants form a team, B alone is dropped. */
  lemma TwoOfAOneOfB(a1: Dict, a2: Dict, b: Dict)
    requires Get(a1, "Team Code", Str("")) == Str("A")
    requires Get(a2, "Team Code", Str("")) == Str(" A ")
    requires Get(b, "Team Code", Str("")) == Str("B")
    ensures AllCodesText([a1, a2, b])
    ensures Members([a1, a2, b], "A") == [a1, a2] && |Members([a1, a2, b], "B")| == 1
  {
    var xs := [a1, a2, b];
    assert TeamKey(a1) == "A" by {
      TrimFramed([], "A", [], Whitespace);
    }
    assert TeamKey(b) == "B" by {
      TrimFramed([], "B", [], Whitespace);
    }
    assert TeamKey(a2) == "A" by {
      TrimFramed(" ", "A", " ", Whitespace);
    }
    var ys := [a1, a2];
    assert xs[..|xs| - 1] == ys && ys[..|ys| - 1] == [a1] && [a1][..0] == [];
    assert Members([a1], "A") == [a1] && Members([a1], "B") == [];
    assert Members(ys, "A") == ys && Members(ys, "B") == [];
  }

  // ---------------------------------------------------------------------------
  // prepare_team_data_for_ai

  /** The member_data dict built for one member: exactly the five keys the team prompt reads,
      with the source's defaults. */
  function MemberData(m: Dict): (d: Dict)
    ensures d.Keys == {"first_name", "individual_score", "individual_feedback", "motivation", "skills"}
    ensures "Individual Score" !in m ==> d["individual_score"] == Int(0)
    ensures "Individual Score" in m ==> d["individual_score"] == m["Individual Score"]
    ensures "First Name" !in m ==> d["first_name"] == Str("")
  {
    map[
      "first_name" := Get(m, "First Name", Str("")),
      "individual_score" := Get(m, "Individual Score", Int(0)),
      "individual_feedback" := Get(m, "Individual Feedback", Str("")),
      "motivation" := Get(m, "Motivation to Join", Str("")),
      "skills" := Get(m, "Technical Skills", Str(""))
    ]
  }

  /** prepare_team_data_for_ai */
  method PrepareTeamData(code: string, team: seq<Dict>) returns (data: Option<TeamData>)
    ensures data.None? <==> team == []
    ensures data.Some? ==>
      && data.value.teamName == Some(Get(team[0], "Team Name", Str("Team " + code)))
      && data.value.chosenTrack == Some(Get(team[0], "Chosen Track", Str("")))
      && data.value.members.Some? && |data.value.members.value| == |team|
      && forall i :: 0 <= i < |team| ==> data.value.members.value[i] == MemberData(team[i])
  {
    if team == [] {
      return None;
    }
    var track := Get(team[0], "Chosen Track", Str(""));
    var members: seq<Dict> := [];
    var i := 0;
    while i < |team|
      invariant 0 <= i <= |team|
      invariant |members| == i
      invariant forall k :: 0 <= k < i ==> members[k] == MemberData(team[k])
    {
      members := members + [MemberData(team[i])];
      i := i + 1;
    }
    var name := Get(team[0], "Team Name", Str("Team " + code));
    data := Some(TeamData(Some(name), Some(track), Some(members)));
  }

  // ---------------------------------------------------------------------------
  // update_team_members_in_airtable

  /** The table: record id to fields. */
  class Table {
    var records: map<string, Dict>

    constructor (records: map<string, Dict>)
      ensures this.records == records
    {
      this.records := records;
    }

    /** table.update(record_id, fields): merges the fields into a known record. The call fails on an
        unknown id, and also whenever the service refuses the write (`rejected`: a network error, a
        field the table does not have, a value of the wrong type); a failed call changes nothing. */
    method Update(id: string, fields: Dict, rejected: bool) returns (ok: bool)
      modifies this
      ensures ok <==> !rejected && id in old(records)
      ensures records == if ok then old(records)[id := old(records)[id] + fields] else old(records)
    {
      ok := !rejected && id in records;
      if ok {
        records := records[id := records[id] + fields];
      }
    }
  }

  /** The fields written to every member: a None score becomes 0, falsy feedback a fixed note. */
  function TeamFields(score: Value, feedback: Value): Dict {
    map[
      "Team Score" := if score.Null? then Int(0) else score,
      "Team Feedback" := if Truthy(feedback) then feedback else Str("No team feedback generated.")
    ]
  }

  /** member["record_id"], when it is present and text. */
  function RecordId(member: Dict): Option<string> {
    if "record_id" in member && member["record_id"].Str? then Some(member["record_id"].text) else None
  }

  /** The store after one member's write: a missing id, an unknown record or a rejected write
      leaves it as it was. */
  function WriteOne(store: map<string, Dict>, member: Dict, fields: Dict, rejected: bool): (after: map<string, Dict>)
    ensures after.Keys == store.Keys
  {
    match RecordId(member)
    case Some(id) => if !rejected && id in store then store[id := store[id] + fields] else store
    case None => store
  }

  /** The store after the writes for the given members, in order; `rejected` holds the positions
      of the members whose write the service refuses. */
  function WriteAll(store: map<string, Dict>, members: seq<Dict>, fields: Dict, rejected: set<nat>): (after: map<string, Dict>)
    ensures after.Keys == store.Keys
  {
    if members == [] then store
    else
      var last := |members| - 1;
      WriteOne(WriteAll(store, members[..last], fields, rejected), members[last], fields, last in rejected)
  }

  /** The writes for one more member are those for the members before it, then its own. */
  lemma WriteAllStep(store: map<string, Dict>, members: seq<Dict>, fields: Dict, rejected: set<nat>, i: nat)
    requires i < |members|
    ensures WriteAll(store, members[..i + 1], fields, rejected)
         == WriteOne(WriteAll(store, members[..i], fields, rejected), members[i], fields, i in rejected)
  {
    assert members[..i + 1][..i] == members[..i];
  }

  /** The loop of update_team_members_in_airtable: a failed write is passed over and the loop goes on. */
  method UpdateTeamMembers(table: Table, members: seq<Dict>, score: Value, feedback: Value, rejected: set<nat>)
    modifies table
    ensures table.records == WriteAll(old(table.records), members, TeamFields(score, feedback), rejected)
  {
    var fields := TeamFields(score, feedback);
    ghost var start := table.records;
    var i := 0;
    while i < |members|
      invariant 0 <= i <= |members|
      invariant table.records == WriteAll(start, members[..i], fields, rejected)
    {
      ghost var before := table.records;
      var id := RecordId(members[i]);
      if id.Some? {
        var ok := table.Update(id.value, fields, i in rejected);
      }
      assert table.records == WriteOne(before, members[i], fields, i in rejected);
      WriteAllStep(start, members, fields, rejected, i);
      i := i + 1;
    }
    assert members[..i] == members;
  }

  /** The ids of the members' records whose write the service accepts. */
  function Targets(members: seq<Dict>, rejected: set<nat>): set<string> {
    set i | 0 <= i < |members| && i !in rejected && RecordId(members[i]).Some? :: RecordId(members[i]).value
  }

  /** One write changes at most the member's own record, by merging the fields into it. */
  lemma WriteOneEffect(store: map<string, Dict>, member: Dict, fields: Dict, rejected: bool)
    ensures WriteOne(store, member, fields, rejected).Keys == store.Keys
    ensures forall id :: id in store ==>
      WriteOne(store, member, fields, rejected)[id] ==
        if !rejected && RecordId(member) == Some(id) then store[id] + fields else store[id]
  {
  }

  /** The targets of the writes for all members are those for all but the last, plus the last
      member's record when its write is accepted. */
  lemma TargetsStep(members: seq<Dict>, rejected: set<nat>)
    requires members != []
    ensures var n := |members| - 1;
      Targets(members, rejected) == Targets(members[..n], rejected) +
        (if n !in rejected && RecordId(members[n]).Some? then {RecordId(members[n]).value} else {})
  {
    var n := |members| - 1;
    var init := members[..n];
    forall id | id in Targets(members, rejected)
      ensures id in Targets(init, rejected) || (n !in rejected && RecordId(members[n]) == Some(id))
    {
      var i :| 0 <= i < |members| && i !in rejected && RecordId(members[i]).Some? && RecordId(members[i]).value == id;
      if i < n {
        assert init[i] == members[i];
      }
    }
    forall id | id in Targets(init, rejected) ensures id in Targets(members, rejected) {
      var i :| 0 <= i < |init| && i !in rejected && RecordId(init[i]).Some? && RecordId(init[i]).value == id;
      assert members[i] == init[i];
    }
    if n !in rejected && RecordId(members[n]).Some? {
      assert RecordId(members[n]).value in Targets(members, rejected);
    }
  }

  /** Merging the same fields twice is merging them once. */
  lemma MergeTwice(x: Dict, fields: Dict)
    ensures x + fields + fields == x + fields
  {
    assert (x + fields + fields).Keys == (x + fields).Keys;
  }

  /** After the writes, every member record that some accepted write reaches carries the team fields
      and every other record is as it was: a failure affects only its own write, and the store
      gains no record. */
  lemma {:induction false} WriteAllEffect(store: map<string, Dict>, members: seq<Dict>, fields: Dict, rejected: set<nat>)
    ensures WriteAll(store, members, fields, rejected).Keys == store.Keys
    ensures forall id :: id in store ==>
      WriteAll(store, members, fields, rejected)[id] ==
        if id in Targets(members, rejected) then store[id] + fields else store[id]
  {
    if members != [] {
      var n := |members| - 1;
      var init := members[..n];
      var last := members[n];
      WriteAllEffect(store, init, fields, rejected);
      WriteOneEffect(WriteAll(store, init, fields, rejected), last, fields, n in rejected);
      TargetsStep(members, rejected);
      if n !in rejected && RecordId(last).Some? {
        forall x: Dict ensures x + fields + fields == x + fields {
          MergeTwice(x, fields);
        }
      }
    }
  }

  /** Every member whose record exists and whose write is accepted ends with the identical
      Team Score and Team Feedback. */
  lemma SameTeamResultForAll(store: map<string, Dict>, members: seq<Dict>, score: Value, feedback: Value,
                             rejected: set<nat>, id: string)
    requires id in store && id in Targets(members, rejected)
    ensures var after := WriteAll(store, members, TeamFields(score, feedback), rejected);
      && id in after && after[id].Keys == store[id].Keys + {"Team Score", "Team Feedback"}
      && after[id]["Team Score"] == (if score.Null? then Int(0) else score)
      && after[id]["Team Feedback"] == (if Truthy(feedback) then feedback else Str("No team feedback generated."))
      && forall k :: k in store[id] && k !in {"Team Score", "Team Feedback"} ==> after[id][k] == store[id][k]
  {
    var fields := TeamFields(score, feedback);
    WriteAllEffect(store, members, fields, rejected);
    var after := WriteAll(store, members, fields, rejected);
    assert after[id] == store[id] + fields;
    assert fields.Keys == {"Team Score", "Team Feedback"};
  }

  /** A record is reached by the writes that accept at least one of two refusal sets exactly
      when one of the two runs reaches it. */
  lemma TargetsOfBoth(members: seq<Dict>, r1: set<nat>, r2: set<nat>)
    ensures Targets(members, r1 * r2) == Targets(members, r1) + Targets(members, r2)
  {
  }

  /** Running the team update twice over the same members leaves each record as one run would
      where either run's write was accepted: re-sending the team fields changes nothing. */
  lemma WriteAllTwice(store: map<string, Dict>, members: seq<Dict>, fields: Dict, r1: set<nat>, r2: set<nat>)
    ensures WriteAll(WriteAll(store, members, fields, r1), members, fields, r2) == WriteAll(store, members, fields, r1 * r2)
  {
    var once := WriteAll(store, members, fields, r1);
    WriteAllEffect(store, members, fields, r1);
    WriteAllEffect(once, members, fields, r2);
    WriteAllEffect(store, members, fields, r1 * r2);
    TargetsOfBoth(members, r1, r2);
    forall id | id in store
      ensures WriteAll(once, members, fields, r2)[id] == WriteAll(store, members, fields, r1 * r2)[id]
    {
      MergeTwice(store[id], fields);
    }
  }

  /** When the service accepts every write, updating the team a second time is updating it once. */
  lemma WriteAllIdempotent(store: map<string, Dict>, members: seq<Dict>, fields: Dict)
    ensures WriteAll(WriteAll(store, members, fields, {}), members, fields, {}) == WriteAll(store, members, fields, {})
  {
    var none: set<nat> := {};
    WriteAllTwice(store, members, fields, none, none);
    assert none * none == none;
  }
}
