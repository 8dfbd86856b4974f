/**
 The epic resolver (`GetEpics`): answers epic id -> summary from the cached
 "epics" dictionary, or refetches every requested epic when one is missing
 and merges the answers into the dictionary, fetched values winning.
 */
module Epics {

  import opened Results
  import opened Remote
  import opened TtlCache

  /** The two fields of an issue response the resolver reads. */
  datatype Issue = Issue(key: string, summary: string)

  predicate NoDuplicates(s: seq<string>) {
    forall i, j | 0 <= i < j < |s| :: s[i] != s[j]
  }

  /** `Enumerable.Distinct`: the first occurrence of every id, in order. */
  function Dedup(ids: seq<string>): (r: seq<string>)
    ensures NoDuplicates(r)
    ensures forall x :: x in r <==> x in ids
    ensures |r| <= |ids|
  {
    if |ids| == 0 then []
    else
      var init := ids[..|ids| - 1];
      var x := ids[|ids| - 1];
      assert ids == init + [x];
      var r0 := Dedup(init);
      if x in r0 then r0 else r0 + [x]
  }

  /** Later ids never disturb the ids already kept: the order is that of first occurrence. */
  lemma {:induction false} DedupPrefix(a: seq<string>, b: seq<string>)
    ensures Dedup(a) <= Dedup(a + b)
    decreases |b|
  {
    if |b| == 0 {
      assert a + b == a;
    } else {
      var init := b[..|b| - 1];
      assert (a + b)[..|a + b| - 1] == a + init;
      DedupPrefix(a, init);
    }
  }

  /** Ids that are already distinct are kept as they are. */
  lemma {:induction false} DedupOfDistinct(ids: seq<string>)
    requires NoDuplicates(ids)
    ensures Dedup(ids) == ids
    decreases |ids|
  {
    if |ids| > 0 {
      var init := ids[..|ids| - 1];
      assert NoDuplicates(init);
      DedupOfDistinct(init);
      assert ids[|ids| - 1] !in init;
      assert ids == init + [ids[|ids| - 1]];
    }
  }

  /** Every response could be read as an issue. */
  predicate AllReadable(rs: seq<Option<Issue>>) {
    forall i | 0 <= i < |rs| :: rs[i].Some?
  }

  /** No two responses carry the same issue key. */
  ghost predicate DistinctKeys(rs: seq<Option<Issue>>)
    requires AllReadable(rs)
  {
    forall i, j | 0 <= i < j < |rs| :: rs[i].value.key != rs[j].value.key
  }

  ghost function KeysOf(rs: seq<Option<Issue>>): set<string>
    requires AllReadable(rs)
  {
    set i | 0 <= i < |rs| :: rs[i].value.key
  }

  /**
   Reading the responses and `ToDictionary(r => r.key, r => r.fields.summary)`
   into `acc`, in response order: an unreadable response or a key already
   present throws, which fails the whole resolution.
   */
  function Collect(rs: seq<Option<Issue>>, acc: map<string, string>): (r: Result<map<string, string>>)
    ensures r.Ok? <==> AllReadable(rs) && DistinctKeys(rs) && KeysOf(rs) !! acc.Keys
    ensures r.Err? ==> r.error == UnreadableIssue || r.error.DuplicateIssueKey?
    ensures r.Ok? ==> r.value.Keys == acc.Keys + KeysOf(rs)
    ensures r.Ok? ==> forall k | k in acc :: r.value[k] == acc[k]
    ensures r.Ok? ==> forall i | 0 <= i < |rs| :: r.value[rs[i].value.key] == rs[i].value.summary
    decreases |rs|
  {
    if |rs| == 0 then Ok(acc)
    else
      match rs[0]
      case None => Err(UnreadableIssue)
      case Some(issue) =>
        if issue.key in acc then
          assert AllReadable(rs) ==> issue.key in KeysOf(rs);
          Err(DuplicateIssueKey(issue.key))
        else
          var rest := Collect(rs[1..], acc[issue.key := issue.summary]);
          CollectStep(rs, acc);
          assert rest.Ok? ==> forall i | 0 <= i < |rs| :: rest.value[rs[i].value.key] == rs[i].value.summary by {
            if rest.Ok? {
              forall i | 0 <= i < |rs| ensures rest.value[rs[i].value.key] == rs[i].value.summary {
                if i > 0 { assert rs[1..][i - 1] == rs[i]; }
              }
            }
          }
          rest
  }

  /** What the first response contributes, and what remains for the others. */
  lemma CollectStep(rs: seq<Option<Issue>>, acc: map<string, string>)
    requires |rs| > 0 && rs[0].Some? && rs[0].value.key !in acc
    ensures var head := rs[0].value;
      AllReadable(rs) && DistinctKeys(rs) && KeysOf(rs) !! acc.Keys
      <==> AllReadable(rs[1..]) && DistinctKeys(rs[1..]) && KeysOf(rs[1..]) !! acc[head.key := head.summary].Keys
    ensures AllReadable(rs) ==> KeysOf(rs) == {rs[0].value.key} + KeysOf(rs[1..])
  {
    var head := rs[0].value;
    var tail := rs[1..];
    assert forall i | 0 <= i < |tail| :: tail[i] == rs[i + 1];
    assert AllReadable(rs) <==> AllReadable(tail) by {
      if AllReadable(tail) {
        forall i | 0 <= i < |rs| ensures rs[i].Some? {
          if i > 0 { assert rs[i] == tail[i - 1]; }
        }
      }
    }
    if AllReadable(rs) {
      assert KeysOf(rs) == {head.key} + KeysOf(tail) by {
        forall k | k in KeysOf(rs) ensures k in {head.key} + KeysOf(tail) {
          var i :| 0 <= i < |rs| && rs[i].value.key == k;
          if i > 0 { assert rs[i] == tail[i - 1]; }
        }
      }
      if DistinctKeys(tail) && KeysOf(tail) !! acc[head.key := head.summary].Keys {
        forall i, j | 0 <= i < j < |rs| ensures rs[i].value.key != rs[j].value.key {
          assert rs[j] == tail[j - 1];
          if i > 0 { assert rs[i] == tail[i - 1]; } else { assert rs[j].value.key in KeysOf(tail); }
        }
      }
      if DistinctKeys(rs) && KeysOf(rs) !! acc.Keys {
        forall k | k in KeysOf(tail) ensures k != head.key {
          var i :| 0 <= i < |tail| && tail[i].value.key == k;
          assert rs[0].value.key != rs[i + 1].value.key;
        }
      }
    }
  }

  /** The fetched dictionary merged over the cached one: fetched values win, cached-only keys stay. */
  function Merge(cached: map<string, string>, fetched: map<string, string>): (r: map<string, string>)
    ensures r.Keys == cached.Keys + fetched.Keys
    ensures forall k | k in fetched :: r[k] == fetched[k]
    ensures forall k | k in cached && k !in fetched :: r[k] == cached[k]
  {
    cached + fetched
  }

  /** No pair after position `i` repeats the key of pair `i`. */
  ghost predicate IsLastKey(pairs: seq<(string, string)>, i: int)
    requires 0 <= i < |pairs|
  {
    forall j | i < j < |pairs| :: pairs[j].0 != pairs[i].0
  }

  /**
   `ToLookup(pair => pair.Key).ToDictionary(g => g.Key, g => g.Last())` over a
   stream of key/value pairs: each key gets the value of its last pair.
   */
  function LastWins(pairs: seq<(string, string)>): (r: map<string, string>)
    ensures forall i | 0 <= i < |pairs| :: pairs[i].0 in r
    ensures forall k | k in r :: exists i :: 0 <= i < |pairs| && pairs[i].0 == k
    ensures forall i | 0 <= i < |pairs| && IsLastKey(pairs, i) :: r[pairs[i].0] == pairs[i].1
    decreases |pairs|
  {
    if |pairs| == 0 then map[]
    else
      var init := pairs[..|pairs| - 1];
      var last := pairs[|pairs| - 1];
      var r := LastWins(init)[last.0 := last.1];
      LastWinsStep(pairs, LastWins(init), r);
      r
  }

  /** Adding the last pair to the map of the earlier ones. */
  lemma LastWinsStep(pairs: seq<(string, string)>, r0: map<string, string>, r: map<string, string>)
    requires |pairs| > 0
    requires var init := pairs[..|pairs| - 1];
      && (forall i | 0 <= i < |init| :: init[i].0 in r0)
      && (forall k | k in r0 :: exists i :: 0 <= i < |init| && init[i].0 == k)
      && (forall i | 0 <= i < |init| && IsLastKey(init, i) :: r0[init[i].0] == init[i].1)
    requires r == r0[pairs[|pairs| - 1].0 := pairs[|pairs| - 1].1]
    ensures forall i | 0 <= i < |pairs| :: pairs[i].0 in r
    ensures forall k | k in r :: exists i :: 0 <= i < |pairs| && pairs[i].0 == k
    ensures forall i | 0 <= i < |pairs| && IsLastKey(pairs, i) :: r[pairs[i].0] == pairs[i].1
  {
    var init := pairs[..|pairs| - 1];
    var n := |pairs| - 1;
    forall i | 0 <= i < |pairs| ensures pairs[i].0 in r {
      if i < n { assert pairs[i] == init[i]; }
    }
    forall k | k in r ensures exists i :: 0 <= i < |pairs| && pairs[i].0 == k {
      if k != pairs[n].0 {
        var i :| 0 <= i < |init| && init[i].0 == k;
        assert pairs[i] == init[i];
      }
    }
    forall i | 0 <= i < |pairs| && IsLastKey(pairs, i) ensures r[pairs[i].0] == pairs[i].1 {
      if i < n {
        assert pairs[i] == init[i];
        assert pairs[i].0 != pairs[n].0;
        assert IsLastKey(init, i) by {
          forall j | i < j < |init| ensures init[j].0 != init[i].0 { assert init[j] == pairs[j]; }
        }
      }
    }
  }

  /** `pairs` is an enumeration of `m`: each key once, each with its value. */
  ghost predicate Enumerates(pairs: seq<(string, string)>, m: map<string, string>) {
    && (forall i, j | 0 <= i < j < |pairs| :: pairs[i].0 != pairs[j].0)
    && (forall i | 0 <= i < |pairs| :: pairs[i].0 in m && m[pairs[i].0] == pairs[i].1)
    && (forall k | k in m :: exists i :: 0 <= i < |pairs| && pairs[i].0 == k)
  }

  /**
   Whatever order the two dictionaries enumerate in, the controller's
   SelectMany/ToLookup/Last pipeline over (cached, fetched) computes `Merge`.
   */
  lemma MergeIsLastWins(cached: map<string, string>, fetched: map<string, string>,
                        ec: seq<(string, string)>, ef: seq<(string, string)>)
    requires Enumerates(ec, cached) && Enumerates(ef, fetched)
    ensures LastWins(ec + ef) == Merge(cached, fetched)
  {
    LastWinsCoversMerge(ec, ef, cached, fetched);
    LastWinsKeysWithin(ec, ef, cached, fetched);
    SameEntries(LastWins(ec + ef), Merge(cached, fetched));
  }

  /** Two maps with the same keys and the same value under each key are equal. */
  lemma SameEntries(r: map<string, string>, m: map<string, string>)
    requires forall k | k in m :: k in r && r[k] == m[k]
    requires forall k | k in r :: k in m
    ensures r == m
  {
    assert r.Keys == m.Keys;
  }

  /** Every merged key is in the pipeline's result, with its merged value. */
  lemma LastWinsCoversMerge(ec: seq<(string, string)>, ef: seq<(string, string)>,
                            cached: map<string, string>, fetched: map<string, string>)
    requires Enumerates(ec, cached) && Enumerates(ef, fetched)
    ensures forall k | k in Merge(cached, fetched) :: k in LastWins(ec + ef) && LastWins(ec + ef)[k] == Merge(cached, fetched)[k]
  {
    var m := Merge(cached, fetched);
    forall k | k in m ensures k in LastWins(ec + ef) && LastWins(ec + ef)[k] == m[k] {
      if k in fetched {
        LastWinsFetchedKey(ec, ef, fetched, k);
      } else {
        LastWinsCachedKey(ec, ef, cached, fetched, k);
      }
    }
  }

  /** Every key of the pipeline's result comes from one of the two dictionaries. */
  lemma LastWinsKeysWithin(ec: seq<(string, string)>, ef: seq<(string, string)>,
                           cached: map<string, string>, fetched: map<string, string>)
    requires Enumerates(ec, cached) && Enumerates(ef, fetched)
    ensures forall k | k in LastWins(ec + ef) :: k in Merge(cached, fetched)
  {
    var pairs := ec + ef;
    forall k | k in LastWins(pairs) ensures k in cached || k in fetched {
      var i :| 0 <= i < |pairs| && pairs[i].0 == k;
      if i < |ec| {
        assert pairs[i] == ec[i];
      } else {
        assert pairs[i] == ef[i - |ec|];
      }
    }
  }

  /** A fetched key takes its fetched value: its pair is the last one with that key. */
  lemma LastWinsFetchedKey(ec: seq<(string, string)>, ef: seq<(string, string)>, fetched: map<string, string>, k: string)
    requires Enumerates(ef, fetched) && k in fetched
    ensures k in LastWins(ec + ef) && LastWins(ec + ef)[k] == fetched[k]
  {
    var pairs := ec + ef;
    var i :| 0 <= i < |ef| && ef[i].0 == k;
    assert pairs[|ec| + i] == ef[i];
    assert IsLastKey(pairs, |ec| + i) by {
      forall j | |ec| + i < j < |pairs| ensures pairs[j].0 != pairs[|ec| + i].0 {
        assert pairs[j] == ef[j - |ec|];
      }
    }
  }

  /** A key only the cache holds keeps its cached value: no fetched pair repeats it. */
  lemma LastWinsCachedKey(ec: seq<(string, string)>, ef: seq<(string, string)>,
                          cached: map<string, string>, fetched: map<string, string>, k: string)
    requires Enumerates(ec, cached) && Enumerates(ef, fetched)
    requires k in cached && k !in fetched
    ensures k in LastWins(ec + ef) && LastWins(ec + ef)[k] == cached[k]
  {
    var pairs := ec + ef;
    var i :| 0 <= i < |ec| && ec[i].0 == k;
    assert pairs[i] == ec[i];
    assert IsLastKey(pairs, i) by {
      forall j | i < j < |pairs| ensures pairs[j].0 != pairs[i].0 {
        if j < |ec| {
          assert pairs[j] == ec[j];
        } else {
          assert pairs[j] == ef[j - |ec|];
          assert ef[j - |ec|].0 in fetched;
        }
      }
    }
  }

  /** Every requested id already has a cached summary. */
  predicate AllCached(ids: seq<string>, m: map<string, string>) {
    forall id | id in ids :: id in m
  }

  /** The dictionary read from the store, empty on a miss. */
  function CachedEpics(c: Cache, now: int): map<string, string>
    requires WellTyped(c)
  {
    if Live(c, EpicsKey, now) then c[EpicsKey].value.dict else map[]
  }

  /** One issue request per id, in order. */
  function FetchRequests(ids: seq<string>): (r: seq<Request>)
    ensures |r| == |ids|
    ensures forall i | 0 <= i < |ids| :: r[i] == FetchEpic(ids[i])
  {
    seq(|ids|, i requires 0 <= i < |ids| => FetchEpic(ids[i]))
  }

  /** The responses to those requests, in the same order. */
  function Responses(ids: seq<string>, fetch: string -> Option<Issue>): (r: seq<Option<Issue>>)
    ensures |r| == |ids|
    ensures forall i | 0 <= i < |ids| :: r[i] == fetch(ids[i])
  {
    seq(|ids|, i requires 0 <= i < |ids| => fetch(ids[i]))
  }

  /**
   The miss path: the responses for the distinct ids, collected into a
   dictionary and merged over the cached one.
   */
  function Refetch(cached: map<string, string>, rs: seq<Option<Issue>>): (r: Result<map<string, string>>)
    ensures r.Ok? <==> AllReadable(rs) && DistinctKeys(rs)
    ensures r.Ok? ==> r.value.Keys == cached.Keys + KeysOf(rs)
    ensures r.Ok? ==> forall i | 0 <= i < |rs| :: r.value[rs[i].value.key] == rs[i].value.summary
    ensures r.Ok? ==> forall k | k in cached && k !in KeysOf(rs) :: r.value[k] == cached[k]
  {
    match Collect(rs, map[])
    case Err(e) => Err(e)
    case Ok(fetched) => Ok(Merge(cached, fetched))
  }

  /** The requests issued, the answer, and the store afterwards. */
  datatype EpicsReply = EpicsReply(requests: seq<Request>, result: Result<map<string, string>>, cache: Cache)

  /** `GetEpics(epics)`; `fetch` is the remote answer for one epic id. */
  function GetEpics(ids: seq<string>, fetch: string -> Option<Issue>, c: Cache, now: int): (r: EpicsReply)
    requires WellTyped(c)
    ensures WellTyped(r.cache)
    ensures AllCached(ids, CachedEpics(c, now)) ==> r == EpicsReply([], Ok(CachedEpics(c, now)), c)
    ensures !AllCached(ids, CachedEpics(c, now)) ==>
      var cached := CachedEpics(c, now);
      var rs := Responses(Dedup(ids), fetch);
      && r.requests == FetchRequests(Dedup(ids))
      && (r.result.Ok? <==> AllReadable(rs) && DistinctKeys(rs))
      && (r.result.Err? ==> r.cache == c && StatusSent(r.result.error) == InternalServerError)
      && (r.result.Ok? ==>
            && r.cache == Store(c, EpicsKey, Dict(r.result.value), now, EpicTtl)
            && r.result.value.Keys == cached.Keys + KeysOf(rs)
            && (forall i | 0 <= i < |rs| :: r.result.value[rs[i].value.key] == rs[i].value.summary)
            && (forall k | k in cached && k !in KeysOf(rs) :: r.result.value[k] == cached[k]))
  {
    var cached := CachedEpics(c, now);
    if AllCached(ids, cached) then EpicsReply([], Ok(cached), c)
    else
      var distinct := Dedup(ids);
      match Refetch(cached, Responses(distinct, fetch))
      case Err(e) => EpicsReply(FetchRequests(distinct), Err(e), c)
      case Ok(merged) =>
        EpicsReply(FetchRequests(distinct), Ok(merged), Store(c, EpicsKey, Dict(merged), now, EpicTtl))
  }

  /** On a miss every distinct requested id is fetched exactly once, cached or not. */
  lemma MissFetchesEachIdOnce(ids: seq<string>, fetch: string -> Option<Issue>, c: Cache, now: int)
    requires WellTyped(c)
    requires !AllCached(ids, CachedEpics(c, now))
    ensures var rq := GetEpics(ids, fetch, c, now).requests;
      && (forall id :: FetchEpic(id) in rq <==> id in ids)
      && (forall i, j | 0 <= i < j < |rq| :: rq[i] != rq[j])
  {
    var rq := GetEpics(ids, fetch, c, now).requests;
    var d := Dedup(ids);
    forall id ensures FetchEpic(id) in rq <==> id in ids {
      if id in ids {
        var i :| 0 <= i < |d| && d[i] == id;
        assert rq[i] == FetchEpic(id);
      }
    }
  }

  /** Once every requested epic answers under its own id, every requested id is in the answer. */
  lemma ResolvedCoversRequest(ids: seq<string>, fetch: string -> Option<Issue>, c: Cache, now: int)
    requires WellTyped(c)
    requires forall id | id in ids :: fetch(id).Some? && fetch(id).value.key == id
    ensures var r := GetEpics(ids, fetch, c, now);
      r.result.Ok? ==> forall id | id in ids :: id in r.result.value && (!AllCached(ids, CachedEpics(c, now)) ==> r.result.value[id] == fetch(id).value.summary)
  {
  }

  /**
   A dictionary stored under "epics" answers, for four hours, every request
   whose ids it holds: no remote call, whatever the remote would answer then.
   */
  lemma StoredEpicsServeLaterRequests(c: Cache, m: map<string, string>, now: int,
                                      later: seq<string>, fetch: string -> Option<Issue>, t: int)
    requires WellTyped(c)
    requires forall id | id in later :: id in m
    requires now <= t < now + EpicTtl
    ensures var c2 := Store(c, EpicsKey, Dict(m), now, EpicTtl);
      GetEpics(later, fetch, c2, t) == EpicsReply([], Ok(m), c2)
  {
    var c2 := Store(c, EpicsKey, Dict(m), now, EpicTtl);
    assert Live(c2, EpicsKey, t);
    assert CachedEpics(c2, t) == m;
  }

  /** Responses that each carry the id asked for have distinct keys when the ids are distinct. */
  lemma {:induction false} OwnKeysAreDistinct(ids: seq<string>, fetch: string -> Option<Issue>)
    requires NoDuplicates(ids)
    requires forall id | id in ids :: fetch(id).Some? && fetch(id).value.key == id
    ensures AllReadable(Responses(ids, fetch)) && DistinctKeys(Responses(ids, fetch))
  {
    var rs := Responses(ids, fetch);
    forall i | 0 <= i < |rs| ensures rs[i].Some? && rs[i].value.key == ids[i] {
      assert ids[i] in ids;
    }
  }

  /**
   After a refetch in which every epic answered under its own id, any request
   for a subset of those ids within four hours is answered from the store
   with the refetched dictionary.
   */
  lemma RefetchServesLaterRequests(ids: seq<string>, fetch: string -> Option<Issue>, c: Cache, now: int,
                                   later: seq<string>, fetch2: string -> Option<Issue>, t: int)
    requires WellTyped(c)
    requires !AllCached(ids, CachedEpics(c, now))
    requires forall id | id in ids :: fetch(id).Some? && fetch(id).value.key == id
    requires forall id | id in later :: id in ids
    requires now <= t < now + EpicTtl
    ensures var r := GetEpics(ids, fetch, c, now);
      r.result.Ok? && GetEpics(later, fetch2, r.cache, t) == EpicsReply([], r.result, r.cache)
  {
    var d := Dedup(ids);
    OwnKeysAreDistinct(d, fetch);
    var r := GetEpics(ids, fetch, c, now);
    ResolvedCoversRequest(ids, fetch, c, now);
    StoredEpicsServeLaterRequests(c, r.result.value, now, later, fetch2, t);
  }

  /** The merged dictionary only grows: nothing cached is lost by a refetch. */
  lemma RefetchKeepsCachedIds(ids: seq<string>, fetch: string -> Option<Issue>, c: Cache, now: int)
    requires WellTyped(c)
    ensures var r := GetEpics(ids, fetch, c, now);
      r.result.Ok? ==> CachedEpics(c, now).Keys <= r.result.value.Keys
  {
  }
}
