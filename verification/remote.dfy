/**
 The vocabulary of the remote issue tracker as the controller sees it: the
 requests it issues and the responses it receives. Transport, URLs and JSON
 are not modelled; a request records what was asked for.
 */
module Remote {

  import opened Results

  const Created := 201
  const NoContent := 204
  const BadRequest := 400
  const InternalServerError := 500

  /** `HttpResponseMessage.IsSuccessStatusCode`: any 2xx status. */
  predicate IsSuccess(status: int) {
    200 <= status <= 299
  }

  /**
   The status the caller of an action receives for a failure: a forwarded
   upstream response keeps its status; any other exception escaping the
   action becomes 500 Internal Server Error.
   */
  function StatusSent(f: Failure): int {
    if f.Upstream? then f.status else InternalServerError
  }

  /** A response of the remote service: its status and its body as text. */
  datatype HttpResponse = HttpResponse(status: int, body: string)

  /** The `fields` of an issue-creation request. */
  datatype NewIssue = NewIssue(
    projectKey: string,
    parentKey: string,
    summary: string,
    description: string,
    issueType: string)

  /** One call to the remote service. */
  datatype Request =
    | SearchIssues(jql: string, maxResults: nat)
    | FetchUser(username: string)
    | FetchEpic(id: string)
    | FetchBoards
    | FetchSprints(boardId: int)
    | PutAssignee(issueId: string, userName: string)
    | PostTransition(issueId: string, transitionId: int)
    | PostIssue(fields: NewIssue)
}
