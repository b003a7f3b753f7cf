/** The delivery queue of rest_hooks/client.py: a `Client` that queues
    HTTP calls and a fixed pool of flush threads that drain the queue.
    Threads are modelled as slots holding a liveness flag; a worker's run is
    a separate, single-threaded step. A call made through the HTTP session
    is recorded in `sent` instead of being performed; whether it returns or
    raises is the `session` parameter of a flush. */
module Dispatch {
  import opened Base

  /** A queued `(method, args, kwargs)` item. */
  datatype Request = Request(verb: string, args: seq<Value>, kwargs: seq<(string, Value)>)

  /** A `FlushThread` in a pool slot: the order in which it was created, and
      whether it is alive (started and not yet finished). */
  datatype Worker = Worker(serial: nat, alive: bool)

  /** `s` read from its last element to its first. */
  function Reversed<T>(s: seq<T>): (r: seq<T>)
    ensures |r| == |s|
    decreases |s|
  {
    if s == [] then [] else Reversed(s[1..]) + [s[0]]
  }

  /** Position `i` of the reversal holds the element `i` places from the end. */
  lemma {:induction false} ReversedAt<T>(s: seq<T>)
    ensures |Reversed(s)| == |s|
    ensures forall i :: 0 <= i < |s| ==> Reversed(s)[i] == s[|s| - 1 - i]
    decreases |s|
  {
    if s != [] {
      ReversedAt(s[1..]);
      forall i | 0 <= i < |s| ensures Reversed(s)[i] == s[|s| - 1 - i] {
        if i < |s| - 1 {
          assert Reversed(s)[i] == Reversed(s[1..])[i];
        }
      }
    }
  }

  /** Reversal is a permutation: nothing is lost or repeated. */
  lemma {:induction false} ReversedMultiset<T>(s: seq<T>)
    ensures multiset(Reversed(s)) == multiset(s)
    decreases |s|
  {
    if s != [] {
      ReversedMultiset(s[1..]);
      assert s == [s[0]] + s[1..];
    }
  }

  /** How many of the requests in `order` the session carries out before
      the first call that raises. */
  function Completed(order: seq<Request>, session: Request -> Outcome): (n: nat)
    ensures n <= |order|
    ensures forall j :: 0 <= j < n ==> session(order[j]).Done?
    ensures n < |order| ==> session(order[n]).Raised?
    decreases |order|
  {
    if order == [] || session(order[0]).Raised? then 0
    else
      var k := Completed(order[1..], session);
      assert forall j :: 0 < j < |order| ==> order[1..][j - 1] == order[j];
      k + 1
  }

  /** `[index for index, thread in enumerate(threads) if not thread.is_alive()]`. */
  function DeadIndices(ws: seq<Worker>): (r: seq<nat>)
    ensures forall m :: 0 <= m < |r| ==> r[m] < |ws| && !ws[r[m]].alive
    ensures forall i :: 0 <= i < |ws| && !ws[i].alive ==> i in r
    ensures forall m, n :: 0 <= m < n < |r| ==> r[m] < r[n]
    decreases |ws|
  {
    if ws == [] then []
    else
      var init := DeadIndices(ws[..|ws| - 1]);
      assert forall m :: 0 <= m < |init| ==> ws[init[m]] == ws[..|ws| - 1][init[m]];
      if ws[|ws| - 1].alive then init else init + [|ws| - 1]
  }

  /** A count of leading calls that return, followed by one that raises,
      is the count `Completed` gives. */
  lemma CompletedAt(order: seq<Request>, session: Request -> Outcome, k: nat)
    requires k <= |order|
    requires forall j :: 0 <= j < k ==> session(order[j]).Done?
    requires k < |order| ==> session(order[k]).Raised?
    ensures Completed(order, session) == k
  {
  }

  /** The slots `ws` after each slot listed in `dead` gets a new, started
      thread, the m-th of them numbered `first + m`. */
  function Restarted(ws: seq<Worker>, dead: seq<nat>, first: nat): (r: seq<Worker>)
    requires forall m :: 0 <= m < |dead| ==> dead[m] < |ws|
    ensures |r| == |ws|
    decreases |dead|
  {
    if dead == [] then ws
    else Restarted(ws, dead[..|dead| - 1], first)[dead[|dead| - 1] := Worker(first + |dead| - 1, true)]
  }

  /** With distinct slots listed in increasing order, each listed slot holds
      its new thread and every other slot keeps its old one. */
  lemma {:induction false} RestartedSlots(ws: seq<Worker>, dead: seq<nat>, first: nat)
    requires forall m :: 0 <= m < |dead| ==> dead[m] < |ws|
    requires forall m, n :: 0 <= m < n < |dead| ==> dead[m] < dead[n]
    ensures forall m :: 0 <= m < |dead| ==> Restarted(ws, dead, first)[dead[m]] == Worker(first + m, true)
    ensures forall i :: 0 <= i < |ws| && i !in dead ==> Restarted(ws, dead, first)[i] == ws[i]
    decreases |dead|
  {
    if dead != [] {
      var init := dead[..|dead| - 1];
      RestartedSlots(ws, init, first);
      assert forall m :: 0 <= m < |init| ==> init[m] == dead[m];
    }
  }

  /** Restarting the dead slots of a pool, numbering the new threads from
      `first`: each dead slot gets its new thread in index order, live slots
      keep theirs, and every slot is then alive. */
  lemma RefreshedPool(ws: seq<Worker>, first: nat)
    ensures var dead := DeadIndices(ws);
            var r := Restarted(ws, dead, first);
            (forall m :: 0 <= m < |dead| ==> r[dead[m]] == Worker(first + m, true))
            && (forall i :: 0 <= i < |ws| && ws[i].alive ==> r[i] == ws[i])
            && (forall i :: 0 <= i < |ws| ==> r[i].alive)
  {
    var dead := DeadIndices(ws);
    RestartedSlots(ws, dead, first);
    forall i | 0 <= i < |ws| && i in dead
      ensures Restarted(ws, dead, first)[i].alive
    {
      var m :| 0 <= m < |dead| && dead[m] == i;
    }
  }

  class Client {
    /** Pending requests; the deque's right end is the end of the sequence. */
    var queue: seq<Request>
    const numThreads: nat
    const flushThreads: array<Worker>
    /** How many `FlushThread`s have been created so far. */
    var spawned: nat
    var totalSent: nat
    /** The session calls made by flushes, in order. */
    var sent: seq<Request>

    ghost predicate Valid()
      reads this, flushThreads
    {
      flushThreads.Length == numThreads
      && totalSent == |sent|
      && forall i :: 0 <= i < flushThreads.Length ==> flushThreads[i].serial < spawned
    }

    /** `Client(num_threads)`: an empty queue and `num_threads` threads that
        are created but not started. */
    constructor (numThreads: nat := 3)
      ensures Valid()
      ensures this.numThreads == numThreads && fresh(flushThreads)
      ensures queue == [] && sent == [] && totalSent == 0
      ensures forall i :: 0 <= i < flushThreads.Length ==> !flushThreads[i].alive
    {
      this.numThreads := numThreads;
      queue := [];
      flushThreads := new Worker[numThreads](i => Worker(i, false));
      spawned := numThreads;
      totalSent := 0;
      sent := [];
    }

    /** `refresh_threads`: when work is queued, every slot whose thread is not
        alive gets a new, started thread, in slot order; live threads stay. */
    method RefreshThreads()
      requires Valid()
      modifies this, flushThreads
      ensures Valid()
      ensures queue == old(queue) && sent == old(sent) && totalSent == old(totalSent)
      ensures old(queue) == [] ==> spawned == old(spawned) && flushThreads[..] == old(flushThreads[..])
      ensures old(queue) != [] ==>
                var dead := DeadIndices(old(flushThreads[..]));
                spawned == old(spawned) + |dead|
                && flushThreads[..] == Restarted(old(flushThreads[..]), dead, old(spawned))
                && (forall m :: 0 <= m < |dead| ==> flushThreads[dead[m]] == Worker(old(spawned) + m, true))
                && (forall i :: 0 <= i < flushThreads.Length && old(flushThreads[i]).alive ==> flushThreads[i] == old(flushThreads[i]))
                && (forall i :: 0 <= i < flushThreads.Length ==> flushThreads[i].alive)
    {
      if |queue| > 0 {
        var toRefresh := DeadIndices(flushThreads[..]);
        StartThreads(toRefresh);
        RefreshedPool(old(flushThreads[..]), old(spawned));
      }
    }

    /** The loop of `refresh_threads` over the slots to refresh: each gets a
        new, started thread, in list order. */
    method StartThreads(toRefresh: seq<nat>)
      requires Valid()
      requires forall m :: 0 <= m < |toRefresh| ==> toRefresh[m] < flushThreads.Length
      modifies this, flushThreads
      ensures Valid()
      ensures queue == old(queue) && sent == old(sent) && totalSent == old(totalSent)
      ensures spawned == old(spawned) + |toRefresh|
      ensures flushThreads[..] == Restarted(old(flushThreads[..]), toRefresh, old(spawned))
    {
      var k := 0;
      while k < |toRefresh|
        invariant 0 <= k <= |toRefresh|
        invariant queue == old(queue) && sent == old(sent) && totalSent == old(totalSent)
        invariant Valid() && spawned == old(spawned) + k
        invariant flushThreads[..] == Restarted(old(flushThreads[..]), toRefresh[..k], old(spawned))
      {
        StartThread(toRefresh[k]);
        assert toRefresh[..k + 1][..k] == toRefresh[..k];
        k := k + 1;
      }
      assert toRefresh[..k] == toRefresh;
    }

    /** `flush_threads[index] = FlushThread(self)` followed by `start()`: the
        slot gets a new, started thread with the next number. */
    method StartThread(index: nat)
      requires Valid() && index < flushThreads.Length
      modifies this, flushThreads
      ensures Valid()
      ensures flushThreads[..] == old(flushThreads[..])[index := Worker(old(spawned), true)]
      ensures spawned == old(spawned) + 1
      ensures queue == old(queue) && sent == old(sent) && totalSent == old(totalSent)
    {
      flushThreads[index] := Worker(spawned, true);
      spawned := spawned + 1;
    }

    /** `enqueue`: the request joins the tail of the queue, then the pool is
        refreshed. */
    method Enqueue(request: Request)
      requires Valid()
      modifies this, flushThreads
      ensures Valid()
      ensures queue == old(queue) + [request]
      ensures sent == old(sent) && totalSent == old(totalSent)
      ensures spawned == old(spawned) + |DeadIndices(old(flushThreads[..]))|
      ensures flushThreads[..] == Restarted(old(flushThreads[..]), DeadIndices(old(flushThreads[..])), old(spawned))
      ensures forall i :: 0 <= i < flushThreads.Length ==> flushThreads[i].alive
      ensures forall i :: 0 <= i < flushThreads.Length && old(flushThreads[i]).alive ==> flushThreads[i] == old(flushThreads[i])
    {
      queue := queue + [request];
      RefreshThreads();
    }

    method Get(args: seq<Value>, kwargs: seq<(string, Value)>)
      requires Valid()
      modifies this, flushThreads
      ensures Valid()
      ensures queue == old(queue) + [Request("get", args, kwargs)]
      ensures sent == old(sent) && totalSent == old(totalSent)
      ensures spawned == old(spawned) + |DeadIndices(old(flushThreads[..]))|
      ensures flushThreads[..] == Restarted(old(flushThreads[..]), DeadIndices(old(flushThreads[..])), old(spawned))
      ensures forall i :: 0 <= i < flushThreads.Length ==> flushThreads[i].alive
      ensures forall i :: 0 <= i < flushThreads.Length && old(flushThreads[i]).alive ==> flushThreads[i] == old(flushThreads[i])
    {
      Enqueue(Request("get", args, kwargs));
    }

    method Post(args: seq<Value>, kwargs: seq<(string, Value)>)
      requires Valid()
      modifies this, flushThreads
      ensures Valid()
      ensures queue == old(queue) + [Request("post", args, kwargs)]
      ensures sent == old(sent) && totalSent == old(totalSent)
      ensures spawned == old(spawned) + |DeadIndices(old(flushThreads[..]))|
      ensures flushThreads[..] == Restarted(old(flushThreads[..]), DeadIndices(old(flushThreads[..])), old(spawned))
      ensures forall i :: 0 <= i < flushThreads.Length ==> flushThreads[i].alive
      ensures forall i :: 0 <= i < flushThreads.Length && old(flushThreads[i]).alive ==> flushThreads[i] == old(flushThreads[i])
    {
      Enqueue(Request("post", args, kwargs));
    }

    method Put(args: seq<Value>, kwargs: seq<(string, Value)>)
      requires Valid()
      modifies this, flushThreads
      ensures Valid()
      ensures queue == old(queue) + [Request("put", args, kwargs)]
      ensures sent == old(sent) && totalSent == old(totalSent)
      ensures spawned == old(spawned) + |DeadIndices(old(flushThreads[..]))|
      ensures flushThreads[..] == Restarted(old(flushThreads[..]), DeadIndices(old(flushThreads[..])), old(spawned))
      ensures forall i :: 0 <= i < flushThreads.Length ==> flushThreads[i].alive
      ensures forall i :: 0 <= i < flushThreads.Length && old(flushThreads[i]).alive ==> flushThreads[i] == old(flushThreads[i])
    {
      Enqueue(Request("put", args, kwargs));
    }

    method Delete(args: seq<Value>, kwargs: seq<(string, Value)>)
      requires Valid()
      modifies this, flushThreads
      ensures Valid()
      ensures queue == old(queue) + [Request("delete", args, kwargs)]
      ensures sent == old(sent) && totalSent == old(totalSent)
      ensures spawned == old(spawned) + |DeadIndices(old(flushThreads[..]))|
      ensures flushThreads[..] == Restarted(old(flushThreads[..]), DeadIndices(old(flushThreads[..])), old(spawned))
      ensures forall i :: 0 <= i < flushThreads.Length ==> flushThreads[i].alive
      ensures forall i :: 0 <= i < flushThreads.Length && old(flushThreads[i]).alive ==> flushThreads[i] == old(flushThreads[i])
    {
      Enqueue(Request("delete", args, kwargs));
    }

    /** `sync_flush`: pop from the tail until the queue is empty, making one
        session call and counting one send per request. A call that raises
        ends the flush: its request is already popped and is neither
        recorded nor counted, and the requests below it stay queued. */
    method SyncFlush(session: Request -> Outcome) returns (r: Outcome)
      requires Valid()
      modifies this
      ensures Valid() && spawned == old(spawned)
      ensures var n := Completed(Reversed(old(queue)), session);
              sent == old(sent) + Reversed(old(queue))[..n] && totalSent == old(totalSent) + n
      ensures var n := Completed(Reversed(old(queue)), session);
              n == |old(queue)| ==> r == Done && queue == []
      ensures var n := Completed(Reversed(old(queue)), session);
              n < |old(queue)| ==>
                r == session(Reversed(old(queue))[n]) && r.Raised?
                && queue == old(queue)[..|old(queue)| - n - 1]
    {
      ghost var order := Reversed(old(queue));
      ReversedAt(old(queue));
      while |queue| > 0
        invariant Valid() && spawned == old(spawned)
        invariant |queue| <= |old(queue)| && queue == old(queue)[..|queue|]
        invariant sent == old(sent) + order[..|old(queue)| - |queue|]
        invariant forall j :: 0 <= j < |old(queue)| - |queue| ==> session(order[j]).Done?
        decreases |queue|
      {
        ghost var k := |old(queue)| - |queue|;
        var request := Pop();
        assert request == order[k];
        var answer := session(request);
        if answer.Raised? {
          CompletedAt(order, session, k);
          return answer;
        }
        sent := sent + [request];
        totalSent := totalSent + 1;
        assert order[..k + 1] == order[..k] + [order[k]];
      }
      assert order[..|old(queue)|] == order;
      CompletedAt(order, session, |order|);
      r := Done;
    }

    /** `self.queue.pop()`: the request at the tail leaves the queue. */
    method Pop() returns (request: Request)
      requires queue != []
      modifies this
      ensures request == old(queue)[|old(queue)| - 1] && queue == old(queue)[..|old(queue)| - 1]
      ensures sent == old(sent) && totalSent == old(totalSent) && spawned == old(spawned)
    {
      request := queue[|queue| - 1];
      queue := queue[..|queue| - 1];
    }

    /** `FlushThread.run` for the thread in slot `i`: flush the queue; the
        thread then ends, whether the flush returned or raised. */
    method RunWorker(i: nat, session: Request -> Outcome) returns (r: Outcome)
      requires Valid() && i < flushThreads.Length && flushThreads[i].alive
      modifies this, flushThreads
      ensures Valid()
      ensures var n := Completed(Reversed(old(queue)), session);
              sent == old(sent) + Reversed(old(queue))[..n] && totalSent == old(totalSent) + n
              && (n == |old(queue)| ==> r == Done && queue == [])
              && (n < |old(queue)| ==> r.Raised? && queue == old(queue)[..|old(queue)| - n - 1])
      ensures spawned == old(spawned)
      ensures flushThreads[..] == old(flushThreads[..])[i := Worker(old(flushThreads[i]).serial, false)]
    {
      r := SyncFlush(session);
      flushThreads[i] := Worker(flushThreads[i].serial, false);
    }
  }
}
