/** The file size cache, its pending requests, and a generation counter that keeps late answers out of it. */
module FileSize {
  import opened Common

  /** What happened to the module so far; a request is known by the order in which it was sent. */
  datatype Event =
    | Started(id: nat, name: string)
    | Resolved(id: nat, name: string, size: nat)
    | Failed(id: nat, name: string)
    | Cleared

  datatype Request = Request(name: string, gen: nat)

  datatype Reply = Known(size: nat) | Waits(id: nat) | Sent(id: nat)

  // ---------------------------------------------------------------- what the history says

  function Init(log: seq<Event>): seq<Event>
    requires log != []
  {
    log[..|log| - 1]
  }

  function Last(log: seq<Event>): Event
    requires log != []
  {
    log[|log| - 1]
  }

  /** The request was sent, and nothing was cleared since. */
  predicate SinceClear(log: seq<Event>, id: nat, name: string)
    decreases |log|
  {
    log != [] && !Last(log).Cleared? && (Last(log) == Started(id, name) || SinceClear(Init(log), id, name))
  }

  /** The sizes reported since the last clear by requests sent since then. */
  function CacheOf(log: seq<Event>): map<string, nat>
    decreases |log|
  {
    if log == [] || Last(log).Cleared? then map[]
    else
      var cache := CacheOf(Init(log));
      if Last(log).Resolved? && SinceClear(log, Last(log).id, Last(log).name)
        then cache[Last(log).name := Last(log).size] else cache
  }

  /** The request for the name that a new caller joins. */
  function PendingOf(log: seq<Event>, name: string): Option<nat>
    decreases |log|
  {
    if log == [] || Last(log).Cleared? then None
    else if Last(log).name != name then PendingOf(Init(log), name)
    else if Last(log).Started? then Some(Last(log).id)
    else None
  }

  /** What one more event does to the first two. */
  lemma OneMore(log: seq<Event>, e: Event)
    ensures forall id, name :: SinceClear(log + [e], id, name) <==>
      !e.Cleared? && (e == Started(id, name) || SinceClear(log, id, name))
    ensures CacheOf(log + [e]) ==
      if e.Cleared? then map[]
      else if e.Resolved? && SinceClear(log, e.id, e.name) then CacheOf(log)[e.name := e.size]
      else CacheOf(log)
  {
    assert Init(log + [e]) == log;
  }

  /** The map holds the requests to join. */
  ghost predicate Joinable(pending: map<string, nat>, log: seq<Event>) {
    forall name :: PendingOf(log, name) == if name in pending then Some(pending[name]) else None
  }

  /** And to the third. */
  lemma OneMoreJoinable(pending: map<string, nat>, log: seq<Event>, e: Event)
    requires Joinable(pending, log)
    ensures Joinable(
      if e.Cleared? then map[] else if e.Started? then pending[e.name := e.id] else pending - {e.name}, log + [e])
  {
    assert Init(log + [e]) == log;
  }

  /** A new request is recent, and no other becomes or ceases to be so. */
  lemma StillRecent(log: seq<Event>, requests: seq<Request>, gen: nat, name: string)
    requires forall id | 0 <= id < |requests| ::
      requests[id].gen == gen <==> SinceClear(log, id, requests[id].name)
    ensures
      var e, more := Started(|requests|, name), requests + [Request(name, gen)];
      && CacheOf(log + [e]) == CacheOf(log)
      && forall id | 0 <= id < |more| :: more[id].gen == gen <==> SinceClear(log + [e], id, more[id].name)
  {
    OneMore(log, Started(|requests|, name));
  }

  predicate NoneCleared(log: seq<Event>, from: nat) {
    forall i | from <= i < |log| :: !log[i].Cleared?
  }

  /**
   The answer at j, to the request sent at i, is the last one for its name that was asked for since the
   last clear.
   */
  ghost predicate Wrote(log: seq<Event>, i: int, j: int) {
    && 0 <= i < j < |log| && NoneCleared(log, i)
    && log[i].Started? && log[j].Resolved? && log[i].id == log[j].id && log[i].name == log[j].name
    && forall k | j < k < |log| && log[k].Resolved? && log[k].name == log[j].name ::
      !SinceClear(log[..k], log[k].id, log[k].name)
  }

  lemma {:induction false} SinceClearIff(log: seq<Event>, id: nat, name: string)
    ensures SinceClear(log, id, name) <==> exists i ::
      0 <= i < |log| && log[i] == Started(id, name) && NoneCleared(log, i)
    decreases |log|
  {
    if log != [] {
      SinceClearIff(Init(log), id, name);
      if SinceClear(Init(log), id, name) && !Last(log).Cleared? {
        var i :| 0 <= i < |Init(log)| && Init(log)[i] == Started(id, name) && NoneCleared(Init(log), i);
        assert log[i] == Started(id, name) && NoneCleared(log, i);
      }
      if Last(log) == Started(id, name) {
        assert NoneCleared(log, |log| - 1);
      }
      forall i | 0 <= i < |log| && log[i] == Started(id, name) && NoneCleared(log, i)
        ensures SinceClear(log, id, name)
      {
        assert !Last(log).Cleared?;
        if i < |log| - 1 {
          assert Init(log)[i] == Started(id, name) && NoneCleared(Init(log), i);
        }
      }
    }
  }

  /**
   A cached size is what the last answer reported to a request sent after the last clear; every such
   answer is cached.
   */
  lemma {:induction false} CachedIff(log: seq<Event>, name: string, size: nat)
    ensures name in CacheOf(log) && CacheOf(log)[name] == size <==>
      exists i, j :: Wrote(log, i, j) && log[j].name == name && log[j].size == size
    decreases |log|
  {
    if log != [] {
      CachedIff(Init(log), name, size);
      if name in CacheOf(log) && CacheOf(log)[name] == size {
        CachedWasWritten(log, name, size);
      }
      forall i, j | Wrote(log, i, j) && log[j].name == name && log[j].size == size
        ensures name in CacheOf(log) && CacheOf(log)[name] == size
      {
        WrittenIsCached(log, i, j);
      }
    }
  }

  lemma CachedWasWritten(log: seq<Event>, name: string, size: nat)
    requires log != [] && name in CacheOf(log) && CacheOf(log)[name] == size
    requires name in CacheOf(Init(log)) && CacheOf(Init(log))[name] == size ==>
      exists i, j :: Wrote(Init(log), i, j) && Init(log)[j].name == name && Init(log)[j].size == size
    ensures exists i, j :: Wrote(log, i, j) && log[j].name == name && log[j].size == size
  {
    var last := Last(log);
    var n := |log| - 1;
    assert log == Init(log) + [last];
    OneMore(Init(log), last);
    if last.Resolved? && last.name == name && SinceClear(Init(log), last.id, name) {
      SinceClearIff(log, last.id, name);
      var i :| 0 <= i < |log| && log[i] == Started(last.id, name) && NoneCleared(log, i);
      assert Wrote(log, i, n);
    } else {
      var i, j :| Wrote(Init(log), i, j) && Init(log)[j].name == name && Init(log)[j].size == size;
      forall k | j < k < |log| && log[k].Resolved? && log[k].name == name
        ensures !SinceClear(log[..k], log[k].id, name)
      {
        assert log[..k] == Init(log)[..k];
        assert k < n ==> log[k] == Init(log)[k];
      }
      assert Wrote(log, i, j);
    }
  }

  lemma {:induction false} WrittenIsCached(log: seq<Event>, i: int, j: int)
    requires Wrote(log, i, j)
    ensures log[j].name in CacheOf(log) && CacheOf(log)[log[j].name] == log[j].size
    decreases |log|
  {
    var n := |log| - 1;
    assert !Last(log).Cleared?;
    if j == n {
      SinceClearIff(log, log[j].id, log[j].name);
      assert log[i] == Started(log[j].id, log[j].name);
    } else {
      forall k | j < k < n && Init(log)[k].Resolved? && Init(log)[k].name == log[j].name
        ensures !SinceClear(Init(log)[..k], Init(log)[k].id, log[j].name)
      {
        assert log[..k] == Init(log)[..k] && log[k] == Init(log)[k];
      }
      assert Wrote(Init(log), i, j);
      WrittenIsCached(Init(log), i, j);
      assert log[..n] == Init(log);
    }
  }

  /** Nothing about the name, and no clear, happened from the position on. */
  predicate Quiet(log: seq<Event>, from: nat, name: string) {
    forall i | from <= i < |log| :: !log[i].Cleared? && log[i].name != name
  }

  /** A caller joins the request that was sent for the name after everything else that happened to the name. */
  lemma {:induction false} PendingIff(log: seq<Event>, name: string, id: nat)
    ensures PendingOf(log, name) == Some(id) <==>
      exists i: nat :: i < |log| && log[i] == Started(id, name) && Quiet(log, i + 1, name)
    decreases |log|
  {
    if log != [] {
      PendingIff(Init(log), name, id);
      if PendingOf(log, name) == Some(id) {
        if Last(log).name == name {
          assert log[|log| - 1] == Started(id, name) && Quiet(log, |log| - 1 + 1, name);
        } else {
          var i: nat :| i < |Init(log)| && Init(log)[i] == Started(id, name) && Quiet(Init(log), i + 1, name);
          assert log[i] == Started(id, name) && Quiet(log, i + 1, name);
        }
      }
      forall i: nat | i < |log| && log[i] == Started(id, name) && Quiet(log, i + 1, name)
        ensures PendingOf(log, name) == Some(id)
      {
        if i < |log| - 1 {
          assert !Last(log).Cleared? && Last(log).name != name;
          assert Init(log)[i] == Started(id, name) && Quiet(Init(log), i + 1, name);
        }
      }
    }
  }

  /**
   The latest request for a name, sent since the last clear, is joined exactly as long as no answer for the name has
   come; an answer to an older request, from before the clear, counts like its own.
   */
  lemma JoinedIff(log: seq<Event>, i: nat)
    requires i < |log| && log[i].Started? && NoneCleared(log, i)
    requires forall j | i < j < |log| :: !(log[j].Started? && log[j].name == log[i].name)
    ensures PendingOf(log, log[i].name) == Some(log[i].id) <==>
      forall j | i < j < |log| ::
        !(log[j].Resolved? && log[j].name == log[i].name) && !(log[j].Failed? && log[j].name == log[i].name)
    ensures PendingOf(log, log[i].name).None? || PendingOf(log, log[i].name) == Some(log[i].id)
  {
    var name := log[i].name;
    PendingIff(log, name, log[i].id);
    if PendingOf(log, name).Some? {
      PendingIff(log, name, PendingOf(log, name).value);
      var k: nat :| k < |log| && log[k] == Started(PendingOf(log, name).value, name) && Quiet(log, k + 1, name);
      assert k <= i;
      assert k == i;
    }
    if forall j | i < j < |log| ::
      !(log[j].Resolved? && log[j].name == name) && !(log[j].Failed? && log[j].name == name) {
      assert Quiet(log, i + 1, name);
    }
  }

  // ---------------------------------------------------------------- the module

  class FileSizes {
    var sizeCache: map<string, nat>
    var pendingRequests: map<string, nat>
    var cacheGeneration: nat
    /** Every request sent so far, with the generation its callback captured. */
    var requests: seq<Request>
    /** Requests whose promise has not settled. */
    var unsettled: set<nat>
    ghost var log: seq<Event>

    /**
     The cache and the requests to join are what the history says, captured generations tell which requests
     are recent, and only recent unsettled requests are joined.
     */
    ghost predicate Valid()
      reads this
    {
      && sizeCache == CacheOf(log)
      && (forall id | 0 <= id < |requests| :: requests[id].gen <= cacheGeneration)
      && (forall id | 0 <= id < |requests| :: requests[id].gen == cacheGeneration <==>
        SinceClear(log, id, requests[id].name))
      && (forall id | id in unsettled :: id < |requests|)
      && Joinable(pendingRequests, log)
      && (forall name | name in pendingRequests ::
            var id := pendingRequests[name];
            id in unsettled && requests[id] == Request(name, cacheGeneration))
    }

    constructor ()
      ensures Valid() && log == [] && requests == [] && unsettled == {}
    {
      sizeCache, pendingRequests, cacheGeneration, requests, unsettled, log := map[], map[], 0, [], {}, [];
    }

    /** A known size is returned; a recent request for the name is joined; otherwise a request is sent. */
    method FetchFileSize(name: string) returns (reply: Reply)
      requires Valid()
      modifies this
      ensures Valid() && sizeCache == old(sizeCache)
      ensures reply.Known? <==> name in CacheOf(old(log))
      ensures reply.Known? ==> reply.size == CacheOf(old(log))[name]
      ensures reply.Waits? <==> name !in CacheOf(old(log)) && PendingOf(old(log), name).Some?
      ensures reply.Waits? ==>
        PendingOf(old(log), name) == Some(reply.id) && reply.id in unsettled && SinceClear(old(log), reply.id, name)
      ensures reply.Sent? ==> reply.id == |old(requests)| && unsettled == old(unsettled) + {reply.id}
      ensures reply.Sent? ==> requests == old(requests) + [Request(name, cacheGeneration)]
      ensures !reply.Sent? ==> unsettled == old(unsettled) && requests == old(requests)
      ensures log == if reply.Sent? then old(log) + [Started(reply.id, name)] else old(log)
    {
      if name in sizeCache {
        return Known(sizeCache[name]);
      }
      if name in pendingRequests {
        return Waits(pendingRequests[name]);
      }
      var id := Send(name);
      return Sent(id);
    }

    /** Start a request that remembers the current generation. */
    method Send(name: string) returns (id: nat)
      requires Valid()
      modifies this
      ensures Valid() && sizeCache == old(sizeCache)
      ensures requests == old(requests) + [Request(name, cacheGeneration)]
      ensures id == |old(requests)| && unsettled == old(unsettled) + {id} && log == old(log) + [Started(id, name)]
    {
      id := |requests|;
      StillRecent(log, requests, cacheGeneration, name);
      OneMoreJoinable(pendingRequests, log, Started(id, name));
      requests := requests + [Request(name, cacheGeneration)];
      unsettled := unsettled + {id};
      pendingRequests := pendingRequests[name := id];
      log := log + [Started(id, name)];
    }

    /** A request's answer arrives: it is cached unless the cache was cleared since the request was sent. */
    method Resolve(id: nat, size: nat)
      requires Valid() && id in unsettled
      modifies this
      ensures Valid() && log == old(log) + [Resolved(id, old(requests)[id].name, size)]
      ensures unsettled == old(unsettled) - {id}
      ensures requests == old(requests)
    {
      var request := requests[id];
      if cacheGeneration == request.gen {
        sizeCache := sizeCache[request.name := size];
      }
      OneMoreJoinable(pendingRequests, log, Resolved(id, request.name, size));
      pendingRequests := pendingRequests - {request.name};
      unsettled := unsettled - {id};
      OneMore(log, Resolved(id, request.name, size));
      log := log + [Resolved(id, request.name, size)];
    }

    method Fail(id: nat)
      requires Valid() && id in unsettled
      modifies this
      ensures Valid() && log == old(log) + [Failed(id, old(requests)[id].name)] && unsettled == old(unsettled) - {id}
      ensures requests == old(requests)
    {
      OneMoreJoinable(pendingRequests, log, Failed(id, requests[id].name));
      pendingRequests := pendingRequests - {requests[id].name};
      unsettled := unsettled - {id};
      OneMore(log, Failed(id, requests[id].name));
      log := log + [Failed(id, requests[id].name)];
    }

    method ClearFileSizeCache()
      requires Valid()
      modifies this
      ensures Valid() && log == old(log) + [Cleared] && sizeCache == map[] && unsettled == old(unsettled)
      ensures requests == old(requests)
    {
      cacheGeneration := cacheGeneration + 1;
      sizeCache := map[];
      OneMoreJoinable(pendingRequests, log, Cleared);
      pendingRequests := map[];
      OneMore(log, Cleared);
      log := log + [Cleared];
    }
  }

  /** Ask, and clear before the answer arrives. */
  method AskAndClear(name: string) returns (sizes: FileSizes)
    ensures fresh(sizes) && sizes.Valid() && sizes.log == [Started(0, name), Cleared]
    ensures |sizes.requests| == 1 && sizes.requests[0].name == name && sizes.unsettled == {0}
  {
    sizes := new FileSizes();
    assert CacheOf([]) == map[] && PendingOf([], name).None?;
    var reply := sizes.FetchFileSize(name);
    assert reply == Sent(0);
    sizes.ClearFileSizeCache();
  }

  /** And ask again. */
  method AskAgain(name: string) returns (sizes: FileSizes)
    ensures fresh(sizes) && sizes.Valid() && sizes.log == [Started(0, name), Cleared, Started(1, name)]
    ensures |sizes.requests| == 2 && sizes.requests[0].name == name && sizes.unsettled == {0, 1}
  {
    sizes := AskAndClear(name);
    assert CacheOf(sizes.log) == map[] && PendingOf(sizes.log, name).None?;
    var reply := sizes.FetchFileSize(name);
    assert reply == Sent(1);
  }

  /** The late answer to the first request: a third is sent although the second is pending. */
  method SentTwice(name: string, size: nat) returns (sizes: FileSizes)
    ensures fresh(sizes) && sizes.Valid() && 1 in sizes.unsettled && 2 in sizes.unsettled
    ensures sizes.log == [Started(0, name), Cleared, Started(1, name), Resolved(0, name, size), Started(2, name)]
  {
    sizes := AskAgain(name);
    sizes.Resolve(0, size);
    LateAnswer(name, size);
    var reply := sizes.FetchFileSize(name);
    assert reply == Sent(2);
  }

  lemma LateAnswer(name: string, size: nat)
    ensures var log := [Started(0, name), Cleared, Started(1, name)] + [Resolved(0, name, size)];
      CacheOf(log) == map[] && PendingOf(log, name).None?
  {
    var log := [Started(0, name), Cleared, Started(1, name)];
    SinceClearIff(log, 0, name);
    assert log[1].Cleared?;
    OneMore(log, Resolved(0, name, size));
    assert Init(log + [Resolved(0, name, size)]) == log;
    assert log == [Started(0, name)] + [Cleared] + [Started(1, name)];
    OneMore([Started(0, name)], Cleared);
    OneMore([Started(0, name)] + [Cleared], Started(1, name));
  }
}
