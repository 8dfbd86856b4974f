/**
 The forwarded mutations: assignment, the assignment-then-transition
 workflow (`UpdateState`) and the bulk subtask creation (`PutSubTasks`).
 The remote answers are passed in; the model records the requests issued.
 */
module Mutations {

  import opened Results
  import opened Remote
  import opened Text

  /** The `Int16` transition id of the request body. */
  newtype int16 = x: int | -32768 <= x < 32768

  /** `UpdateStateParams`. */
  datatype StateUpdate = StateUpdate(issueId: string, userName: string, updateAssignment: bool, state: int16)

  /** The requests issued, in order, and the response handed back to the caller. */
  datatype Exchange = Exchange(requests: seq<Request>, response: HttpResponse)

  /** `Assign`: one PUT of the assignee, whose response is returned as is. */
  function Assign(issueId: string, userName: string, response: HttpResponse): Exchange {
    Exchange([PutAssignee(issueId, userName)], response)
  }

  /**
   `UpdateState`: assign first when asked to, then post the transition only if
   the assignment was skipped or answered 204 No Content; otherwise the
   assignment's response is the answer.
   */
  function UpdateState(p: StateUpdate, assignResponse: HttpResponse, transitionResponse: HttpResponse): (r: Exchange)
    ensures PutAssignee(p.issueId, p.userName) in r.requests <==> p.updateAssignment
    ensures PostTransition(p.issueId, p.state as int) in r.requests <==> !p.updateAssignment || assignResponse.status == NoContent
    ensures forall q | q in r.requests :: q == PutAssignee(p.issueId, p.userName) || q == PostTransition(p.issueId, p.state as int)
    ensures p.updateAssignment ==> r.requests[0] == PutAssignee(p.issueId, p.userName)
    ensures |r.requests| == (if p.updateAssignment then 1 else 0)
                          + (if !p.updateAssignment || assignResponse.status == NoContent then 1 else 0)
    ensures r.response == if PostTransition(p.issueId, p.state as int) in r.requests then transitionResponse else assignResponse
  {
    var transition := Exchange([PostTransition(p.issueId, p.state as int)], transitionResponse);
    if !p.updateAssignment then transition
    else
      var assignment := Assign(p.issueId, p.userName, assignResponse);
      if assignment.response.status == NoContent then Exchange(assignment.requests + transition.requests, transitionResponse)
      else assignment
  }

  /** Without reassignment the assignment's outcome plays no part. */
  lemma SkippedAssignmentIsIrrelevant(p: StateUpdate, a1: HttpResponse, a2: HttpResponse, t: HttpResponse)
    requires !p.updateAssignment
    ensures UpdateState(p, a1, t) == UpdateState(p, a2, t)
  {
  }

  /** An assignment answered with anything but 204 is handed back verbatim and nothing follows it. */
  lemma AssignmentShortCircuits(p: StateUpdate, a: HttpResponse, t: HttpResponse)
    requires p.updateAssignment && a.status != NoContent
    ensures UpdateState(p, a, t) == Exchange([PutAssignee(p.issueId, p.userName)], a)
  {
  }

  /**
   An assignment answered with 204 is followed by exactly the exchange the
   same update would have without reassignment.
   */
  lemma ConfirmedAssignmentThenTransition(p: StateUpdate, a: HttpResponse, t: HttpResponse)
    requires p.updateAssignment && a.status == NoContent
    ensures UpdateState(p, a, t) ==
      Exchange(Assign(p.issueId, p.userName, a).requests + UpdateState(p.(updateAssignment := false), a, t).requests,
               UpdateState(p.(updateAssignment := false), a, t).response)
  {
  }

  const TechnicalTask := "Technical Task"

  /** `parent.Split('-')[0]`: the parent id up to its first dash, all of it when it has none. */
  function ProjectKey(parent: string): (r: string)
    ensures r <= parent
    ensures '-' !in r
    ensures |r| < |parent| ==> parent[|r|] == '-'
  {
    if |parent| == 0 || parent[0] == '-' then ""
    else [parent[0]] + ProjectKey(parent[1..])
  }

  /** `String.Format("{0} - {1}", index, title)`. */
  function Summary(index: nat, title: string): string {
    NatToString(index) + " - " + title
  }

  /** Reads a summary back into its index and title. */
  function ParseSummary(s: string): Option<(nat, string)> {
    var n := DigitRun(s);
    if n == 0 || |s| < n + 3 || s[n..n + 3] != " - " then None
    else Some((ParseNat(s[..n]), s[n + 3..]))
  }

  /** Index and title are recovered from every summary. */
  lemma SummaryRoundTrip(index: nat, title: string)
    ensures ParseSummary(Summary(index, title)) == Some((index, title))
  {
    var digits := NatToString(index);
    var s := Summary(index, title);
    assert s == digits + (" - " + title);
    DigitRunOfDigits(digits, " - " + title);
    assert s[..|digits|] == digits;
    assert s[|digits|..|digits| + 3] == " - ";
    assert s[|digits| + 3..] == title;
    ParseNatToString(index);
  }

  /** Distinct (index, title) pairs never share a summary. */
  lemma SummaryInjective(i1: nat, t1: string, i2: nat, t2: string)
    requires Summary(i1, t1) == Summary(i2, t2)
    ensures i1 == i2 && t1 == t2
  {
    SummaryRoundTrip(i1, t1);
    SummaryRoundTrip(i2, t2);
  }

  /** The creation request for the subtask numbered `index`. */
  function SubtaskFields(parent: string, index: nat, title: string): NewIssue {
    NewIssue(ProjectKey(parent), parent, Summary(index, title), "", TechnicalTask)
  }

  /** The creation requests for the kept titles, numbered from 1. */
  function SubtaskRequests(parent: string, kept: seq<string>): (r: seq<Request>)
    ensures |r| == |kept|
    ensures forall k | 0 <= k < |kept| :: r[k] == PostIssue(SubtaskFields(parent, k + 1, kept[k]))
  {
    if |kept| == 0 then []
    else
      var init := kept[..|kept| - 1];
      var r0 := SubtaskRequests(parent, init);
      var r := r0 + [PostIssue(SubtaskFields(parent, |kept|, kept[|kept| - 1]))];
      assert forall k | 0 <= k < |init| :: r[k] == r0[k] && kept[k] == init[k];
      r
  }

  /** One more kept title adds one more request, numbered after the others. */
  lemma SubtaskRequestsSnoc(parent: string, kept: seq<string>, title: string)
    ensures SubtaskRequests(parent, kept + [title])
         == SubtaskRequests(parent, kept) + [PostIssue(SubtaskFields(parent, |kept| + 1, title))]
  {
    assert (kept + [title])[..|kept|] == kept;
  }

  /** `Where(x => !String.IsNullOrWhiteSpace(x))`, order kept. */
  function KeptTitles(titles: seq<string>): seq<string> {
    if |titles| == 0 then []
    else KeptTitles(titles[..|titles| - 1]) + (if IsBlank(titles[|titles| - 1]) then [] else [titles[|titles| - 1]])
  }

  /** The kept titles are exactly the non-blank ones, and there are no more of them than titles. */
  lemma {:induction false} KeptTitlesMembers(titles: seq<string>)
    ensures forall t :: t in KeptTitles(titles) <==> t in titles && !IsBlank(t)
    ensures |KeptTitles(titles)| <= |titles|
    decreases |titles|
  {
    if |titles| > 0 {
      var init := titles[..|titles| - 1];
      assert titles == init + [titles[|titles| - 1]];
      KeptTitlesMembers(init);
    }
  }

  /** One more title is kept unless it is blank. */
  lemma KeptTitlesSnoc(titles: seq<string>, t: string)
    ensures KeptTitles(titles + [t]) == KeptTitles(titles) + (if IsBlank(t) then [] else [t])
  {
    assert (titles + [t])[..|titles|] == titles;
  }

  /** Filtering distributes over concatenation, so kept titles stay in their original order. */
  lemma {:induction false} KeptTitlesAppend(a: seq<string>, b: seq<string>)
    ensures KeptTitles(a + b) == KeptTitles(a) + KeptTitles(b)
    decreases |b|
  {
    if |b| == 0 {
      assert a + b == a;
    } else {
      var init := b[..|b| - 1];
      assert (a + b)[..|a + b| - 1] == a + init;
      assert (a + b)[|a + b| - 1] == b[|b| - 1];
      KeptTitlesAppend(a, init);
    }
  }

  /** One loop step of `PutSubTasks`: a non-blank title adds the next numbered request, a blank one nothing. */
  lemma PutSubTasksStep(parent: string, done: seq<string>, task: string)
    ensures var kept := KeptTitles(done);
      SubtaskRequests(parent, KeptTitles(done + [task]))
      == SubtaskRequests(parent, kept) + (if IsBlank(task) then [] else [PostIssue(SubtaskFields(parent, |kept| + 1, task))])
    ensures |KeptTitles(done + [task])| == |KeptTitles(done)| + (if IsBlank(task) then 0 else 1)
  {
    KeptTitlesSnoc(done, task);
    if !IsBlank(task) {
      SubtaskRequestsSnoc(parent, KeptTitles(done), task);
    } else {
      assert KeptTitles(done + [task]) == KeptTitles(done);
    }
  }

  /**
   `PutSubTasks`: an empty list is a 400 with no request; otherwise one
   creation request per non-blank title, numbered from 1 in list order, and
   201 Created whatever the individual answers were.
   */
  method PutSubTasks(parent: string, titles: seq<string>) returns (requests: seq<Request>, status: int)
    ensures |titles| == 0 ==> status == BadRequest && requests == []
    ensures |titles| > 0 ==> status == Created
    ensures |titles| > 0 ==> |requests| == |KeptTitles(titles)|
    ensures |titles| > 0 ==>
      forall k | 0 <= k < |requests| :: requests[k] == PostIssue(SubtaskFields(parent, k + 1, KeptTitles(titles)[k]))
  {
    if |titles| == 0 {
      return [], BadRequest;
    }
    requests := [];
    var taskIndex := 1;
    var i := 0;
    while i < |titles|
      invariant 0 <= i <= |titles|
      invariant taskIndex == |KeptTitles(titles[..i])| + 1
      invariant requests == SubtaskRequests(parent, KeptTitles(titles[..i]))
    {
      var task := titles[i];
      assert titles[..i + 1] == titles[..i] + [task];
      PutSubTasksStep(parent, titles[..i], task);
      if !IsBlank(task) {
        requests := requests + [PostIssue(SubtaskFields(parent, taskIndex, task))];
        taskIndex := taskIndex + 1;
      }
      i := i + 1;
    }
    assert titles[..|titles|] == titles;
    status := Created;
  }

  /** Every creation request's summary gives back its position among the kept titles and the title. */
  lemma SubtaskSummaryIdentifiesTitle(parent: string, titles: seq<string>, k: nat)
    requires k < |KeptTitles(titles)|
    ensures ParseSummary(SubtaskFields(parent, k + 1, KeptTitles(titles)[k]).summary) == Some((k + 1, KeptTitles(titles)[k]))
  {
    SummaryRoundTrip(k + 1, KeptTitles(titles)[k]);
  }

  /** Blank and white-space-only titles are dropped. */
  lemma KeptTitlesExample()
    ensures KeptTitles(["", "  ", "Do X"]) == ["Do X"]
  {
    assert !IsBlank("Do X") by { assert !IsWhiteSpace("Do X"[0]); }
    assert IsBlank("") && IsBlank("  ");
    KeptTitlesSnoc([], "");
    assert [] + [""] == [""];
    KeptTitlesSnoc([""], "  ");
    assert [""] + ["  "] == ["", "  "];
    KeptTitlesSnoc(["", "  "], "Do X");
    assert ["", "  "] + ["Do X"] == ["", "  ", "Do X"];
  }

  /** The project key of "ABC-1" is "ABC". */
  lemma ProjectKeyExample()
    ensures ProjectKey("ABC-1") == "ABC"
  {
    assert "ABC-1"[1..] == "BC-1" && "BC-1"[1..] == "C-1" && "C-1"[1..] == "-1";
    assert ProjectKey("-1") == "";
    assert ProjectKey("C-1") == "C";
    assert ProjectKey("BC-1") == "BC";
  }

  /** The first kept title "Do X" is summarised as "1 - Do X". */
  lemma SummaryExample()
    ensures Summary(1, "Do X") == "1 - Do X"
  {
    assert NatToString(1) == "1";
    assert "1" + " - " + "Do X" == "1 - Do X";
  }
}
