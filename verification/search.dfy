/**
 The issue search (`Get`): builds the JQL filter from project and sprint,
 asks the remote search endpoint, and renames two custom-field identifiers
 in the returned payload by textual replacement.
 */
module Search {

  import opened Results
  import opened Remote
  import opened Text

  /** Project used when the caller gives none or an empty one. */
  const DefaultProject := "Evolution"

  /** `maxResults` of every search request. */
  const MaxResults: nat := 2000

  const StoryPointsField := "customfield_10004"
  const StoryPointsName := "storyPoints"
  const EpicLinkField := "customfield_10008"
  const EpicLinkName := "epicLink"

  /** Pieces of the filter text. */
  const FilterHead := "Project = "
  const FilterMiddle := " AND Sprint "
  const FilterTail := " ORDER BY rank"
  const OpenSprints := "in openSprints()"
  const NamedSprintOpen := "=\"Sprint "

  /** `string.IsNullOrEmpty(project)` falls back to the default project. */
  function EffectiveProject(project: Option<string>): (p: string)
    ensures project == None || project == Some("") ==> p == DefaultProject
    ensures project.Some? && project.value != "" ==> p == project.value
  {
    match project
    case None => DefaultProject
    case Some(name) => if name == "" then DefaultProject else name
  }

  /** The sprint part of the filter: only a null sprint selects the open sprints. */
  function SprintClause(sprint: Option<string>): string {
    match sprint
    case None => OpenSprints
    case Some(name) => NamedSprintOpen + name + "\""
  }

  function BuildJql(project: string, sprint: Option<string>): string {
    FilterHead + project + FilterMiddle + SprintClause(sprint) + FilterTail
  }

  /**
   Reads a filter for `project` back: `Some(None)` for the open sprints,
   `Some(Some(name))` for a named sprint, `None` when the text is not a
   filter for that project.
   */
  function FilterSprint(project: string, jql: string): Option<Option<string>> {
    var head := FilterHead + project + FilterMiddle;
    if |jql| < |head| + |FilterTail| || jql[..|head|] != head || jql[|jql| - |FilterTail|..] != FilterTail then None
    else
      var clause := jql[|head|..|jql| - |FilterTail|];
      if clause == OpenSprints then Some(None)
      else if |clause| > |NamedSprintOpen| && clause[..|NamedSprintOpen|] == NamedSprintOpen && clause[|clause| - 1] == '"'
      then Some(Some(clause[|NamedSprintOpen|..|clause| - 1]))
      else None
  }

  /** The sprint can always be read back from the filter built for it. */
  lemma FilterSprintOfBuildJql(project: string, sprint: Option<string>)
    ensures FilterSprint(project, BuildJql(project, sprint)) == Some(sprint)
  {
    var head := FilterHead + project + FilterMiddle;
    var clause := SprintClause(sprint);
    var jql := BuildJql(project, sprint);
    assert jql == head + clause + FilterTail;
    assert jql[..|head|] == head;
    assert jql[|jql| - |FilterTail|..] == FilterTail;
    assert jql[|head|..|jql| - |FilterTail|] == clause;
    match sprint
    case None =>
    case Some(name) =>
      assert clause[0] == '=' && OpenSprints[0] == 'i';
      assert clause[..|NamedSprintOpen|] == NamedSprintOpen;
      assert clause[|NamedSprintOpen|..|clause| - 1] == name;
  }

  /** Whatever the reader accepts is exactly the filter built for what it read. */
  lemma BuildJqlOfFilterSprint(project: string, jql: string, sprint: Option<string>)
    requires FilterSprint(project, jql) == Some(sprint)
    ensures jql == BuildJql(project, sprint)
  {
    var head := FilterHead + project + FilterMiddle;
    var clause := jql[|head|..|jql| - |FilterTail|];
    assert jql == jql[..|head|] + clause + jql[|jql| - |FilterTail|..];
    match sprint
    case None =>
    case Some(name) =>
      assert clause == clause[..|NamedSprintOpen|] + name + [clause[|clause| - 1]];
  }

  /** Filters for different sprint selections of one project differ. */
  lemma BuildJqlInjective(project: string, s1: Option<string>, s2: Option<string>)
    requires BuildJql(project, s1) == BuildJql(project, s2)
    ensures s1 == s2
  {
    FilterSprintOfBuildJql(project, s1);
    FilterSprintOfBuildJql(project, s2);
  }

  /** Neither field id can overlap the story-points name. */
  lemma StoryPointsCannotOverlap(q: string)
    requires q == StoryPointsField || q == EpicLinkField
    ensures CannotOverlap(q, StoryPointsName)
  {
    var rep := StoryPointsName;
    forall j | 1 <= j < |q| ensures !AgreeAt(q, rep, j) {
      if j == 2 { Disagree(q, rep, j, 3); } else { Disagree(q, rep, j, 0); }
    }
    forall k | 0 <= k < |rep| ensures !AgreeAt(rep, q, k) {
      Disagree(rep, q, k, 0);
    }
  }

  /** Neither field id can overlap the epic-link name. */
  lemma EpicLinkCannotOverlap(q: string)
    requires q == StoryPointsField || q == EpicLinkField
    ensures CannotOverlap(q, EpicLinkName)
  {
    var rep := EpicLinkName;
    forall j | 1 <= j < |q| ensures !AgreeAt(q, rep, j) {
      if j == 8 { Disagree(q, rep, j, 1); } else { Disagree(q, rep, j, 0); }
    }
    forall k | 0 <= k < |rep| ensures !AgreeAt(rep, q, k) {
      if k == 3 { Disagree(rep, q, k, 1); } else { Disagree(rep, q, k, 0); }
    }
  }

  /**
   The intended renaming in one left-to-right pass: at each position a
   story-points id becomes `storyPoints`, an epic-link id becomes
   `epicLink`, and any other character is copied.
   */
  function RenameFields(s: string): string
    decreases |s|
  {
    if |s| == 0 then []
    else if MatchAt(s, StoryPointsField, 0) then StoryPointsName + RenameFields(s[|StoryPointsField|..])
    else if MatchAt(s, EpicLinkField, 0) then EpicLinkName + RenameFields(s[|EpicLinkField|..])
    else [s[0]] + RenameFields(s[1..])
  }

  /** No epic-link id starts inside a leading `storyPoints`, so the second replacement skips it. */
  lemma SecondReplaceSkipsName(x: string)
    ensures ReplaceAll(StoryPointsName + x, EpicLinkField, EpicLinkName)
         == StoryPointsName + ReplaceAll(x, EpicLinkField, EpicLinkName)
  {
    var t := StoryPointsName + x;
    StoryPointsCannotOverlap(EpicLinkField);
    assert t[0..|StoryPointsName|] == StoryPointsName;
    forall p | 0 <= p < |StoryPointsName| ensures !MatchAt(t, EpicLinkField, p) {
      NotFromInside(t, EpicLinkField, StoryPointsName, p, 0);
    }
    ReplaceAllSkip(StoryPointsName, x, EpicLinkField, EpicLinkName);
  }

  /** A leading epic-link id contains no story-points id, so the first replacement copies it. */
  lemma FirstReplaceSkipsEpicLinkId(s: string)
    requires MatchAt(s, EpicLinkField, 0)
    ensures ReplaceAll(s, StoryPointsField, StoryPointsName)
         == EpicLinkField + ReplaceAll(s[|EpicLinkField|..], StoryPointsField, StoryPointsName)
  {
    var n := |EpicLinkField|;
    assert s[..n] == EpicLinkField;
    forall j | 0 <= j < n ensures !MatchAt(s, StoryPointsField, j) {
      if j == 0 {
        assert s[0..n][16] != StoryPointsField[16];
      } else if j + |StoryPointsField| <= |s| {
        assert s[j..j + |StoryPointsField|][0] == EpicLinkField[j] != StoryPointsField[0];
      }
    }
    assert s == EpicLinkField + s[n..];
    ReplaceAllSkip(EpicLinkField, s[n..], StoryPointsField, StoryPointsName);
  }

  /** The two successive `String.Replace` calls perform exactly the one-pass renaming. */
  lemma {:induction false} RenameFieldsAsReplaces(s: string)
    ensures ReplaceAll(ReplaceAll(s, StoryPointsField, StoryPointsName), EpicLinkField, EpicLinkName) == RenameFields(s)
    decreases |s|
  {
    if |s| == 0 {
    } else if MatchAt(s, StoryPointsField, 0) {
      var rest := s[|StoryPointsField|..];
      assert s[..|StoryPointsField|] == StoryPointsField;
      SecondReplaceSkipsName(ReplaceAll(rest, StoryPointsField, StoryPointsName));
      RenameFieldsAsReplaces(rest);
    } else if MatchAt(s, EpicLinkField, 0) {
      var rest := s[|EpicLinkField|..];
      FirstReplaceSkipsEpicLinkId(s);
      var y := ReplaceAll(rest, StoryPointsField, StoryPointsName);
      assert (EpicLinkField + y)[..|EpicLinkField|] == EpicLinkField;
      assert (EpicLinkField + y)[|EpicLinkField|..] == y;
      RenameFieldsAsReplaces(rest);
    } else {
      ReplaceAllStep(s, StoryPointsField, StoryPointsName);
      var t := [s[0]] + ReplaceAll(s[1..], StoryPointsField, StoryPointsName);
      StoryPointsCannotOverlap(EpicLinkField);
      NoMatchAtStartAfterStep(s, StoryPointsField, StoryPointsName, EpicLinkField);
      ReplaceAllStep(t, EpicLinkField, EpicLinkName);
      assert t[1..] == ReplaceAll(s[1..], StoryPointsField, StoryPointsName);
      RenameFieldsAsReplaces(s[1..]);
    }
  }

  /**
   The two `String.Replace` calls on the search payload. They rename every
   story-points id to `storyPoints` and every epic-link id to `epicLink` and
   copy everything else, as the one-pass `RenameFields` does; so no id is
   left, the payload is unchanged exactly when it mentions neither id, and
   the renaming never lengthens it.
   */
  function RemapFields(payload: string): (r: string)
    ensures r == RenameFields(payload)
    ensures r == payload <==> !Occurs(payload, StoryPointsField) && !Occurs(payload, EpicLinkField)
    ensures !Occurs(r, StoryPointsField) && !Occurs(r, EpicLinkField)
    ensures !Occurs(payload, StoryPointsField) ==> r == ReplaceAll(payload, EpicLinkField, EpicLinkName)
    ensures !Occurs(payload, EpicLinkField) ==> r == ReplaceAll(payload, StoryPointsField, StoryPointsName)
    ensures |r| <= |payload|
  {
    var renamed := ReplaceAll(payload, StoryPointsField, StoryPointsName);
    var r := ReplaceAll(renamed, EpicLinkField, EpicLinkName);
    RenameFieldsAsReplaces(payload);
    assert !Occurs(payload, StoryPointsField) ==> renamed == payload by {
      if !Occurs(payload, StoryPointsField) {
        ReplaceAllNoOccurrence(payload, StoryPointsField, StoryPointsName);
      }
    }
    assert !Occurs(r, StoryPointsField) && !Occurs(r, EpicLinkField) by {
      StoryPointsCannotOverlap(StoryPointsField);
      EpicLinkCannotOverlap(StoryPointsField);
      EpicLinkCannotOverlap(EpicLinkField);
      ReplaceAllAvoids(payload, StoryPointsField, StoryPointsName, StoryPointsField);
      ReplaceAllAvoids(renamed, EpicLinkField, EpicLinkName, StoryPointsField);
      ReplaceAllAvoids(renamed, EpicLinkField, EpicLinkName, EpicLinkField);
    }
    assert !Occurs(payload, EpicLinkField) ==> r == renamed by {
      if !Occurs(payload, EpicLinkField) {
        StoryPointsCannotOverlap(EpicLinkField);
        ReplaceAllAvoids(payload, StoryPointsField, StoryPointsName, EpicLinkField);
        ReplaceAllNoOccurrence(renamed, EpicLinkField, EpicLinkName);
      }
    }
    assert (r == payload <==> !Occurs(payload, StoryPointsField) && !Occurs(payload, EpicLinkField)) && |r| <= |payload| by {
      ReplaceAllLength(payload, StoryPointsField, StoryPointsName);
      ReplaceAllLength(renamed, EpicLinkField, EpicLinkName);
      ReplaceAllIdentity(payload, StoryPointsField, StoryPointsName);
      ReplaceAllIdentity(renamed, EpicLinkField, EpicLinkName);
      if Occurs(payload, StoryPointsField) {
        ReplaceAllShrinks(payload, StoryPointsField, StoryPointsName);
      } else if Occurs(payload, EpicLinkField) {
        ReplaceAllShrinks(renamed, EpicLinkField, EpicLinkName);
      }
    }
    r
  }

  /** The search issued and its outcome: the renamed payload, or the upstream status. */
  datatype SearchReply = SearchReply(request: Request, result: Result<string>)

  /** `Get(project, sprint)` given the remote search response. */
  function Get(project: Option<string>, sprint: Option<string>, response: HttpResponse): (r: SearchReply)
    ensures r.request.SearchIssues? && r.request.maxResults == MaxResults
    ensures FilterSprint(EffectiveProject(project), r.request.jql) == Some(sprint)
    ensures r.result.Ok? <==> IsSuccess(response.status)
    ensures r.result.Ok? ==> r.result.value == RemapFields(response.body)
    ensures r.result.Err? ==> r.result.error == Upstream(response.status)
    ensures r.result.Err? ==> StatusSent(r.result.error) == response.status
  {
    var p := EffectiveProject(project);
    FilterSprintOfBuildJql(p, sprint);
    var request := SearchIssues(BuildJql(p, sprint), MaxResults);
    if IsSuccess(response.status) then SearchReply(request, Ok(RemapFields(response.body)))
    else SearchReply(request, Err(Upstream(response.status)))
  }

  /** A missing or empty project searches the default project. */
  lemma EmptyProjectSearchesDefault(sprint: Option<string>, response: HttpResponse)
    ensures Get(None, sprint, response) == Get(Some(DefaultProject), sprint, response)
    ensures Get(Some(""), sprint, response) == Get(Some(DefaultProject), sprint, response)
  {
  }
}
