/**
 * The work queue shared by the clipboard monitor and the download workers:
 * the FIFO `download_queue` of pending links and the `downloaded_links`
 * set that keeps a link from being queued again until its download has
 * finished. The three steps (the monitor's guarded enqueue, the worker's
 * dequeue, the removal in each download routine's `finally`) are first
 * stated on values, with the invariant they keep, then as the methods of
 * the `WorkQueue` class, which are proved against them.
 */
module Pipeline {
  import opened Wrappers
  import opened PyStr
  import opened UrlValidator
  import opened Downloaders

  /** The queue's contents, oldest first, and the set of links seen and not yet finished. */
  datatype QueueState = QueueState(pending: seq<string>, seen: set<string>)

  const Empty: QueueState := QueueState([], {})

  predicate NoDuplicates(s: seq<string>) {
    forall i, j :: 0 <= i < j < |s| ==> s[i] != s[j]
  }

  /** No link is queued twice, and every queued link is in the seen set. */
  predicate Inv(q: QueueState) {
    NoDuplicates(q.pending) && forall i :: 0 <= i < |q.pending| ==> q.pending[i] in q.seen
  }

  datatype Offered = Offered(state: QueueState, accepted: bool)

  /**
   * The monitor's step for a link already stripped: a valid link not in the
   * seen set is added to it and appended to the queue; anything else leaves
   * both as they were.
   */
  function EnqueueStep(q: QueueState, link: string, valid: bool): (r: Offered)
    ensures r.accepted <==> valid && link !in q.seen
    ensures link in r.state.seen <==> link in q.seen || r.accepted
    ensures forall x :: x != link ==> (x in r.state.seen <==> x in q.seen)
    ensures |r.state.pending| == |q.pending| + (if r.accepted then 1 else 0)
    ensures r.state.pending[..|q.pending|] == q.pending
    ensures r.accepted ==> r.state.pending[|q.pending|] == link
    ensures Inv(q) ==> Inv(r.state)
  {
    if valid && link !in q.seen then
      Offered(QueueState(q.pending + [link], q.seen + {link}), true)
    else
      Offered(q, false)
  }

  datatype Taken = Taken(state: QueueState, url: Option<string>)

  /**
   * The worker's `get`: the oldest queued link, removed from the queue. An
   * empty queue is where the worker would wait; it yields `None`.
   */
  function DequeueStep(q: QueueState): (r: Taken)
    ensures r.url.None? <==> q.pending == []
    ensures r.url.None? ==> r.state == q
    ensures r.url.Some? ==> q.pending == [r.url.value] + r.state.pending
    ensures r.state.seen == q.seen
    ensures Inv(q) && r.url.Some? ==> r.url.value in r.state.seen && r.url.value !in r.state.pending
    ensures Inv(q) ==> Inv(r.state)
  {
    if q.pending == [] then Taken(q, None)
    else Taken(QueueState(q.pending[1..], q.seen), Some(q.pending[0]))
  }

  /**
   * The `finally` of both download routines: the link leaves the seen set
   * if it is there; nothing else changes.
   */
  function NotifyDoneStep(q: QueueState, url: string): (r: QueueState)
    ensures url !in r.seen
    ensures forall x :: x != url ==> (x in r.seen <==> x in q.seen)
    ensures r.pending == q.pending
    ensures url !in q.seen ==> r == q
    ensures Inv(q) && url !in q.pending ==> Inv(r)
  {
    if url in q.seen then QueueState(q.pending, q.seen - {url}) else q
  }

  /** Offering a link twice before it finishes queues it once. */
  lemma EnqueueTwice(q: QueueState, link: string, valid: bool)
    ensures var r1 := EnqueueStep(q, link, valid);
      var r2 := EnqueueStep(r1.state, link, valid);
      !r2.accepted && r2.state == r1.state && |r2.state.pending| <= |q.pending| + 1
  {
  }

  /** Once its download has finished, a valid link can be queued again. */
  lemma EnqueueAfterDone(q: QueueState, link: string)
    ensures EnqueueStep(NotifyDoneStep(q, link), link, true).accepted
  {
  }

  /** What the monitor, a worker, or a finishing download does to the queue. */
  datatype Event = Paste(text: string) | Get | Finish(url: string)

  /** The state after a run of events, with the links accepted and taken, in order. */
  datatype Outcome = Outcome(state: QueueState, accepted: seq<string>, taken: seq<string>)

  /**
   * One event. A paste carries the raw clipboard text, which the monitor
   * strips before validating and queuing it. One event neither loses nor
   * reorders links: the links taken, then those still queued, are those
   * queued before, then those accepted.
   */
  function Step(q: QueueState, e: Event): (o: Outcome)
    ensures o.taken + o.state.pending == q.pending + o.accepted
  {
    match e
    case Paste(text) =>
      var link := Strip(text);
      var r := EnqueueStep(q, link, IsValidYoutubeUrl(link));
      Outcome(r.state, if r.accepted then [link] else [], [])
    case Get =>
      var r := DequeueStep(q);
      Outcome(r.state, [], if r.url.Some? then [r.url.value] else [])
    case Finish(url) =>
      Outcome(NotifyDoneStep(q, url), [], [])
  }

  function Run(q: QueueState, events: seq<Event>): Outcome
    decreases |events|
  {
    if events == [] then Outcome(q, [], [])
    else
      var o := Step(q, events[0]);
      var rest := Run(o.state, events[1..]);
      Outcome(rest.state, o.accepted + rest.accepted, o.taken + rest.taken)
  }

  /** Two conserving stretches in a row conserve. */
  lemma ConservesCompose<T>(p0: seq<T>, t1: seq<T>, a1: seq<T>, p1: seq<T>, t2: seq<T>, a2: seq<T>, p2: seq<T>)
    requires t1 + p1 == p0 + a1 && t2 + p2 == p1 + a2
    ensures (t1 + t2) + p2 == p0 + (a1 + a2)
  {
    calc {
      (t1 + t2) + p2;
      t1 + (t2 + p2);
      t1 + (p1 + a2);
      (t1 + p1) + a2;
      (p0 + a1) + a2;
    }
  }

  /**
   * The FIFO law over any run: the links taken, followed by the links still
   * queued, are the links queued at the start followed by the links accepted.
   */
  lemma {:induction false} RunConserves(q: QueueState, events: seq<Event>)
    ensures Run(q, events).taken + Run(q, events).state.pending == q.pending + Run(q, events).accepted
    decreases |events|
  {
    if events != [] {
      var o := Step(q, events[0]);
      var rest := Run(o.state, events[1..]);
      RunConserves(o.state, events[1..]);
      ConservesCompose(q.pending, o.taken, o.accepted, o.state.pending, rest.taken, rest.accepted, rest.state.pending);
    }
  }

  /** From an empty queue, links come out in the order they were accepted. */
  lemma FifoFromEmpty(events: seq<Event>)
    ensures |Run(Empty, events).taken| <= |Run(Empty, events).accepted|
    ensures Run(Empty, events).taken == Run(Empty, events).accepted[..|Run(Empty, events).taken|]
  {
    RunConserves(Empty, events);
    var o := Run(Empty, events);
    assert o.taken + o.state.pending == o.accepted;
    assert o.accepted[..|o.taken|] == (o.taken + o.state.pending)[..|o.taken|];
  }

  /**
   * A run in which every finishing download names a link no longer queued,
   * as every worker's does: it finishes the link it took.
   */
  predicate Admissible(q: QueueState, events: seq<Event>)
    decreases |events|
  {
    events == [] ||
    ((events[0].Finish? ==> events[0].url !in q.pending) &&
     Admissible(Step(q, events[0]).state, events[1..]))
  }

  /** Every admissible run keeps the invariant. */
  lemma {:induction false} RunKeepsInv(q: QueueState, events: seq<Event>)
    requires Inv(q) && Admissible(q, events)
    ensures Inv(Run(q, events).state)
    decreases |events|
  {
    if events != [] {
      RunKeepsInv(Step(q, events[0]).state, events[1..]);
    }
  }

  function Elems(s: seq<string>): set<string> {
    set x | x in s
  }

  lemma ElemsAppend(s: seq<string>, x: string)
    ensures Elems(s + [x]) == Elems(s) + {x}
  {
  }

  /**
   * The two globals as one object. The ghost field `active` holds the
   * links taken by a worker and not yet finished; the seen set is exactly
   * the queued links and those.
   */
  class WorkQueue {
    var pending: seq<string>
    var seen: set<string>
    ghost var active: set<string>

    function State(): QueueState
      reads this
    {
      QueueState(pending, seen)
    }

    ghost predicate Valid()
      reads this
    {
      Inv(State()) && active == seen - Elems(pending)
    }

    constructor ()
      ensures Valid() && pending == [] && seen == {} && active == {}
    {
      pending, seen, active := [], {}, {};
    }

    /**
     * The monitor's `add` and `put` of a link it has found valid, guarded by
     * the seen set.
     */
    method Enqueue(link: string) returns (accepted: bool)
      requires Valid()
      modifies this
      ensures Valid()
      ensures Offered(State(), accepted) == EnqueueStep(old(State()), link, true)
      ensures active == old(active)
    {
      accepted := link !in seen;
      if accepted {
        ElemsAppend(pending, link);
        seen := seen + {link};
        pending := pending + [link];
      }
    }

    /** The worker's `get`: the oldest link leaves the queue and is now being downloaded. */
    method Dequeue() returns (url: Option<string>)
      requires Valid()
      modifies this
      ensures Valid()
      ensures Taken(State(), url) == DequeueStep(old(State()))
      ensures active == if url.Some? then old(active) + {url.value} else old(active)
    {
      if pending == [] {
        url := None;
      } else {
        url := Some(pending[0]);
        active := active + {pending[0]};
        pending := pending[1..];
      }
    }

    /** The `finally` of a download routine: the link may be queued again. */
    method NotifyDone(url: string)
      requires Valid() && url !in pending
      modifies this
      ensures Valid()
      ensures State() == NotifyDoneStep(old(State()), url)
      ensures active == old(active) - {url}
    {
      if url in seen {
        seen := seen - {url};
      }
      active := active - {url};
    }
  }

  /**
   * One turn of the monitor's loop: strip the clipboard text, offer it to the
   * queue, and clear the clipboard if it was accepted.
   */
  method MonitorPoll(q: WorkQueue, clipboard: string) returns (accepted: bool, clipboardAfter: string)
    requires q.Valid()
    modifies q
    ensures q.Valid() && q.active == old(q.active)
    ensures Offered(q.State(), accepted) == EnqueueStep(old(q.State()), Strip(clipboard), IsValidYoutubeUrl(Strip(clipboard)))
    ensures clipboardAfter == if accepted then "" else clipboard
  {
    var link := Strip(clipboard);
    if IsValidYoutubeUrl(link) {
      accepted := q.Enqueue(link);
    } else {
      accepted := false;
    }
    clipboardAfter := if accepted then "" else clipboard;
  }

  datatype Job = Job(url: string, handler: Handler)

  /**
   * One turn of a worker's loop, with the download itself in between left to
   * the media library: take the oldest link, pick its routine, and on every
   * way out of that routine drop the link from the seen set.
   */
  method WorkerTurn(q: WorkQueue) returns (job: Option<Job>)
    requires q.Valid()
    modifies q
    ensures q.Valid() && q.active == old(q.active)
    ensures job.None? <==> old(q.pending) == []
    ensures job.None? ==> q.State() == old(q.State())
    ensures job.Some? ==>
      old(q.pending) == [job.value.url] + q.pending && job.value.handler == Dispatch(job.value.url) &&
      q.seen == old(q.seen) - {job.value.url}
  {
    var url := q.Dequeue();
    match url
    case None =>
      job := None;
    case Some(u) =>
      job := Some(Job(u, Dispatch(u)));
      q.NotifyDone(u);
  }

  /** Pasting the same valid link twice before it is downloaded queues it once. */
  method PasteTwice(clipboard: string) returns (depth: nat, second: bool)
    requires IsValidYoutubeUrl(clipboard)
    ensures depth == 1 && !second
  {
    IsValidYoutubeUrlStripped(clipboard);
    var q := new WorkQueue();
    var first, cleared := MonitorPoll(q, clipboard);
    second, cleared := MonitorPoll(q, clipboard);
    depth := |q.pending|;
  }

  /** Text that is not a valid link never reaches the queue, and the clipboard is left alone. */
  method InvalidNeverQueued(clipboard: string) returns (depth: nat, clipboardAfter: string)
    requires !IsValidYoutubeUrl(Strip(clipboard))
    ensures depth == 0 && clipboardAfter == clipboard
  {
    var q := new WorkQueue();
    var accepted;
    accepted, clipboardAfter := MonitorPoll(q, clipboard);
    depth := |q.pending|;
  }

  /** A link whose download has finished is accepted when pasted again. */
  method PasteAfterDownload(clipboard: string) returns (again: bool)
    requires IsValidYoutubeUrl(clipboard)
    ensures again
  {
    IsValidYoutubeUrlStripped(clipboard);
    var q := new WorkQueue();
    var first, cleared := MonitorPoll(q, clipboard);
    var job := WorkerTurn(q);
    again, cleared := MonitorPoll(q, clipboard);
  }

  /** Two different links come out of the queue in the order they went in. */
  method FirstInFirstOut(a: string, b: string) returns (first: Option<string>, second: Option<string>)
    requires a != b
    ensures first == Some(a) && second == Some(b)
  {
    var q := new WorkQueue();
    var acceptedA := q.Enqueue(a);
    var acceptedB := q.Enqueue(b);
    first := q.Dequeue();
    second := q.Dequeue();
  }
}
