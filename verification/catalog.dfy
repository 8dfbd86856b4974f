/**
 The cache-or-fetch lookups: the user record (`GetUserData`) and the sprint
 catalog (`GetSprints`), which first resolves the board list and then the
 sprint list, each under its own fixed key and expiry.
 */
module Catalog {

  import opened Results
  import opened Remote
  import opened Text
  import opened TtlCache

  /** The board whose name contains this text is the project's board. */
  const BoardNameNeedle := "Iterations"

  /** One entry of the board list (`View`). */
  datatype View = View(id: int, name: string, canEdit: bool, sprintSupportEnabled: bool)

  /** The requests issued, the payload or failure, and the store afterwards. */
  datatype TextReply = TextReply(requests: seq<Request>, result: Result<string>, cache: Cache)

  /**
   How a fetch reports a failure status: `GetAsync` followed by
   `throw new HttpResponseException(response)` forwards the remote response,
   while `GetStringAsync` throws `HttpRequestException` on its own.
   */
  datatype FetchKind = Forwarding | Throwing

  function FetchFailure(kind: FetchKind, status: int): Failure {
    match kind
    case Forwarding => Upstream(status)
    case Throwing => RequestFailed(status)
  }

  /**
   Answer from the live entry under `key`, or issue `request` and, on a
   success status, store the body for `ttl` seconds; a failure status is
   reported as `kind` does and nothing is stored.
   */
  function CacheOrFetch(c: Cache, key: string, now: int, ttl: int, kind: FetchKind, request: Request, response: HttpResponse): (r: TextReply)
    requires WellTyped(c) && key != EpicsKey && ttl > 0
    ensures WellTyped(r.cache)
    ensures Live(c, key, now) ==> r == TextReply([], Ok(c[key].value.text), c)
    ensures !Live(c, key, now) ==> r.requests == [request]
    ensures !Live(c, key, now) ==> (r.result.Ok? <==> IsSuccess(response.status))
    ensures !Live(c, key, now) && r.result.Ok? ==> r.result.value == response.body && r.cache == Store(c, key, Raw(response.body), now, ttl)
    ensures r.result.Err? ==> r.result.error == FetchFailure(kind, response.status) && r.cache == c
    ensures r.result.Ok? ==> Lookup(r.cache, key, now) == Some(Raw(r.result.value))
    ensures forall k, t | k != key :: Lookup(r.cache, k, t) == Lookup(c, k, t)
  {
    if Live(c, key, now) then TextReply([], Ok(c[key].value.text), c)
    else if IsSuccess(response.status) then
      TextReply([request], Ok(response.body), Store(c, key, Raw(response.body), now, ttl))
    else TextReply([request], Err(FetchFailure(kind, response.status)), c)
  }

  /** After a fetched answer, the same lookup before the expiry is served from the store. */
  lemma CacheOrFetchServesUntilExpiry(c: Cache, key: string, now: int, ttl: int, kind: FetchKind, request: Request, response: HttpResponse,
                                      t: int, request2: Request, response2: HttpResponse)
    requires WellTyped(c) && key != EpicsKey && ttl > 0
    requires CacheOrFetch(c, key, now, ttl, kind, request, response).result.Ok?
    requires !Live(c, key, now) && now <= t < now + ttl
    ensures var r := CacheOrFetch(c, key, now, ttl, kind, request, response);
      CacheOrFetch(r.cache, key, t, ttl, kind, request2, response2) == TextReply([], r.result, r.cache)
  {
  }

  /** `GetUserData(username)`: the user record, kept for seven days under "users-" + name. */
  function GetUserData(username: string, c: Cache, now: int, response: HttpResponse): (r: TextReply)
    requires WellTyped(c)
    ensures WellTyped(r.cache)
    ensures Live(c, UsersKey(username), now) ==> r == TextReply([], Ok(c[UsersKey(username)].value.text), c)
    ensures !Live(c, UsersKey(username), now) ==> r.requests == [FetchUser(username)]
    ensures r.result.Ok? <==> Live(c, UsersKey(username), now) || IsSuccess(response.status)
    ensures r.result.Err? ==> r.result.error == Upstream(response.status) && r.cache == c
    ensures r.result.Err? ==> StatusSent(r.result.error) == response.status
    ensures !Live(c, UsersKey(username), now) && r.result.Ok? ==>
      r.result.value == response.body && r.cache == Store(c, UsersKey(username), Raw(response.body), now, UserTtl)
    ensures forall k, t | k != UsersKey(username) :: Lookup(r.cache, k, t) == Lookup(c, k, t)
  {
    UsersKeyIsFresh(username);
    CacheOrFetch(c, UsersKey(username), now, UserTtl, Forwarding, FetchUser(username), response)
  }

  /** A fetched user record is served from the store, without a request, for seven days. */
  lemma UserDataServedForAWeek(username: string, c: Cache, now: int, response: HttpResponse, t: int, response2: HttpResponse)
    requires WellTyped(c)
    requires !Live(c, UsersKey(username), now) && IsSuccess(response.status)
    requires now <= t < now + 7 * Day
    ensures var r := GetUserData(username, c, now, response);
      GetUserData(username, r.cache, t, response2) == TextReply([], Ok(response.body), r.cache)
  {
  }

  /** `views.First(v => v.name.Contains(needle))` as an index; `None` where `First` throws. */
  function FirstBoard(views: seq<View>, needle: string): (r: Option<nat>)
    ensures r.Some? ==> r.value < |views| && Occurs(views[r.value].name, needle)
    ensures r.Some? ==> forall j | 0 <= j < r.value :: !Occurs(views[j].name, needle)
    ensures r.None? <==> forall j | 0 <= j < |views| :: !Occurs(views[j].name, needle)
  {
    if |views| == 0 then None
    else if Occurs(views[0].name, needle) then Some(0)
    else
      match FirstBoard(views[1..], needle)
      case None =>
        assert forall j | 1 <= j < |views| :: views[j] == views[1..][j - 1];
        None
      case Some(i) =>
        assert forall j | 1 <= j <= i + 1 :: views[j] == views[1..][j - 1];
        Some(i + 1)
  }

  /** Deserializes the board list and picks the project's board. */
  function ResolveBoard(payload: string, parse: string -> Option<seq<View>>): (r: Result<View>)
    ensures parse(payload).None? ==> r == Err(UnparsableBoards)
    ensures parse(payload).Some? ==>
      var views := parse(payload).value;
      && (r.Err? ==> r == Err(NoMatchingBoard))
      && (r == Err(NoMatchingBoard) <==> forall j | 0 <= j < |views| :: !Occurs(views[j].name, BoardNameNeedle))
      && (r.Ok? ==> exists i :: 0 <= i < |views| && r.value == views[i] && Occurs(views[i].name, BoardNameNeedle)
                                && forall j | 0 <= j < i :: !Occurs(views[j].name, BoardNameNeedle))
  {
    match parse(payload)
    case None => Err(UnparsableBoards)
    case Some(views) =>
      match FirstBoard(views, BoardNameNeedle)
      case None => Err(NoMatchingBoard)
      case Some(i) => Ok(views[i])
  }

  /** The board list the sprint lookup works from: the live cached one, or the fetched one. */
  function BoardPayload(c: Cache, now: int, boards: HttpResponse): Option<string>
    requires WellTyped(c)
  {
    if Live(c, ProjectsKey, now) then Some(c[ProjectsKey].value.text)
    else if IsSuccess(boards.status) then Some(boards.body)
    else None
  }

  /** The id of the board the sprint lookup settles on, when the board list is there, parses and has a match. */
  function BoardId(c: Cache, now: int, boards: HttpResponse, parse: string -> Option<seq<View>>): Option<int>
    requires WellTyped(c)
  {
    match BoardPayload(c, now, boards)
    case None => None
    case Some(payload) =>
      match ResolveBoard(payload, parse)
      case Ok(view) => Some(view.id)
      case Err(_) => None
  }

  /**
   `GetSprints()`: the board list (cached 15 days under "projects"), the first
   board whose name contains "Iterations", then the sprint list of that board,
   cached 4 hours under the fixed key "sprints" whatever the board id. Both
   fetches use `GetStringAsync`, so every failure reaches the caller as 500.
   */
  function GetSprints(c: Cache, now: int, boards: HttpResponse, parse: string -> Option<seq<View>>,
                      sprintsFor: int -> HttpResponse): (r: TextReply)
    requires WellTyped(c)
    ensures WellTyped(r.cache)
    ensures r.requests ==
      (if Live(c, ProjectsKey, now) then [] else [FetchBoards])
      + (if BoardId(c, now, boards, parse).Some? && !Live(c, SprintsKey, now)
         then [FetchSprints(BoardId(c, now, boards, parse).value)] else [])
    ensures !Live(c, ProjectsKey, now) && IsSuccess(boards.status) ==>
      ProjectsKey in r.cache && r.cache[ProjectsKey] == Entry(Raw(boards.body), now + BoardTtl)
    ensures !Live(c, ProjectsKey, now) && !IsSuccess(boards.status) ==>
      r == TextReply([FetchBoards], Err(RequestFailed(boards.status)), c)
    ensures BoardPayload(c, now, boards).Some? && BoardId(c, now, boards, parse).None? ==>
      && r.result.Err? && r.result.error == ResolveBoard(BoardPayload(c, now, boards).value, parse).error
      && forall t :: Lookup(r.cache, SprintsKey, t) == Lookup(c, SprintsKey, t)
    ensures BoardId(c, now, boards, parse).Some? && Live(c, SprintsKey, now) ==>
      r.result == Ok(c[SprintsKey].value.text)
    ensures BoardId(c, now, boards, parse).Some? && !Live(c, SprintsKey, now) ==>
      var answer := sprintsFor(BoardId(c, now, boards, parse).value);
      && (r.result.Ok? <==> IsSuccess(answer.status))
      && (r.result.Ok? ==> r.result.value == answer.body)
      && (r.result.Err? ==> r.result.error == RequestFailed(answer.status)
                            && forall t :: Lookup(r.cache, SprintsKey, t) == Lookup(c, SprintsKey, t))
    ensures !Live(c, SprintsKey, now) && r.result.Ok? ==>
      SprintsKey in r.cache && r.cache[SprintsKey] == Entry(Raw(r.result.value), now + SprintTtl)
    ensures r.result.Ok? ==> Lookup(r.cache, SprintsKey, now) == Some(Raw(r.result.value))
    ensures r.result.Err? ==> StatusSent(r.result.error) == InternalServerError
    ensures forall k, t | k != ProjectsKey && k != SprintsKey :: Lookup(r.cache, k, t) == Lookup(c, k, t)
    ensures Live(c, ProjectsKey, now) ==> forall t :: Lookup(r.cache, ProjectsKey, t) == Lookup(c, ProjectsKey, t)
    ensures Live(c, SprintsKey, now) ==> forall t :: Lookup(r.cache, SprintsKey, t) == Lookup(c, SprintsKey, t)
  {
    var b := CacheOrFetch(c, ProjectsKey, now, BoardTtl, Throwing, FetchBoards, boards);
    match b.result
    case Err(e) => b
    case Ok(payload) =>
      match ResolveBoard(payload, parse)
      case Err(e) => TextReply(b.requests, Err(e), b.cache)
      case Ok(view) =>
        var s := CacheOrFetch(b.cache, SprintsKey, now, SprintTtl, Throwing, FetchSprints(view.id), sprintsFor(view.id));
        TextReply(b.requests + s.requests, s.result, s.cache)
  }

  /** Without a matching board the lookup fails with `NoMatchingBoard`, asks for no sprints and leaves "sprints" alone. */
  lemma NoBoardNoSprintFetch(c: Cache, now: int, boards: HttpResponse, parse: string -> Option<seq<View>>,
                             sprintsFor: int -> HttpResponse)
    requires WellTyped(c)
    requires BoardPayload(c, now, boards).Some?
    requires parse(BoardPayload(c, now, boards).value).Some?
    requires forall v | v in parse(BoardPayload(c, now, boards).value).value :: !Occurs(v.name, BoardNameNeedle)
    ensures var r := GetSprints(c, now, boards, parse, sprintsFor);
      && r.result == Err(NoMatchingBoard)
      && (forall id :: FetchSprints(id) !in r.requests)
      && (forall t :: Lookup(r.cache, SprintsKey, t) == Lookup(c, SprintsKey, t))
  {
  }

  /** A live "sprints" entry answers for whichever board the board list resolves to. */
  lemma CachedSprintsServeAnyBoard(c: Cache, now: int, boards: HttpResponse, parse: string -> Option<seq<View>>,
                                   sprintsFor: int -> HttpResponse)
    requires WellTyped(c)
    requires Live(c, SprintsKey, now)
    requires BoardPayload(c, now, boards).Some?
    requires ResolveBoard(BoardPayload(c, now, boards).value, parse).Ok?
    ensures var r := GetSprints(c, now, boards, parse, sprintsFor);
      && r.result == Ok(c[SprintsKey].value.text)
      && (forall id :: FetchSprints(id) !in r.requests)
  {
  }

  /**
   After the sprint list was fetched, any sprint lookup in the next four hours
   that gets past the board resolution returns that same list without asking
   for sprints, even if it resolves a different board.
   */
  lemma SprintsServedForFourHours(c: Cache, now: int, boards: HttpResponse, parse: string -> Option<seq<View>>,
                                  sprintsFor: int -> HttpResponse,
                                  t: int, boards2: HttpResponse, parse2: string -> Option<seq<View>>,
                                  sprintsFor2: int -> HttpResponse)
    requires WellTyped(c)
    requires !Live(c, SprintsKey, now)
    requires GetSprints(c, now, boards, parse, sprintsFor).result.Ok?
    requires now <= t < now + SprintTtl
    ensures var r := GetSprints(c, now, boards, parse, sprintsFor);
      var r2 := GetSprints(r.cache, t, boards2, parse2, sprintsFor2);
      && (r2.result.Ok? ==> r2.result == r.result)
      && (forall id :: FetchSprints(id) !in r2.requests)
  {
    var r := GetSprints(c, now, boards, parse, sprintsFor);
    assert r.cache[SprintsKey] == Entry(Raw(r.result.value), now + SprintTtl);
    assert Live(r.cache, SprintsKey, t);
  }
}
