/**
 The credentials watcher (`watch`). Its loop keeps one long poll outstanding
 at a time; each poll asks the store for the next change of the service key
 after the cursor. The model consumes one event per step: the stop signal,
 or the outcome of the poll in flight.
 */
module Watcher {
  import opened Records

  /** What a long poll returns: a transport error, or a change with its value and index. */
  datatype Outcome = WatchErr | Changed(value: string, modifiedIndex: Index)

  /**
   `Cancel(inFlight)` is the stop signal; `inFlight` says whether a poll was
   outstanding, in which case cancelling the context makes that poll fail.
   `Poll(outcome)` is the outcome of the poll in flight.
   */
  datatype Event = Cancel(inFlight: bool) | Poll(outcome: Outcome)

  datatype WatchLog = LostWatcher | DecodeError

  /**
   The watcher's state: the cursor, the AfterIndex of every poll issued so
   far, the pairs sent to the registrar, the log, and whether it was stopped.
   */
  datatype WatchState = WatchState(
    key: string,
    cursor: Index,
    requests: seq<Index>,
    emitted: seq<Credentials>,
    logs: seq<WatchLog>,
    cancelled: bool)

  predicate Sorted(s: seq<Index>) {
    forall i, j :: 0 <= i < j < |s| ==> s[i] <= s[j]
  }

  /** Every poll issued so far asked for changes after an index no later than the cursor. */
  predicate RequestsBehindCursor(w: WatchState) {
    forall i :: 0 <= i < |w.requests| ==> w.requests[i] <= w.cursor
  }

  /**
   A watcher that has issued nothing yet, its cursor at `seed`; it starts in
   the state `CursorMonotone` asks for.
   */
  function Init(key: string, seed: Index): (r: WatchState)
    ensures r.key == key && r.cursor == seed && !r.cancelled
    ensures r.requests == [] && r.emitted == [] && r.logs == []
    ensures Sorted(r.requests) && RequestsBehindCursor(r)
  {
    WatchState(key, seed, [], [], [], false)
  }

  /** Polls, emitted pairs and log entries of `w` are still the first ones of `r`. */
  predicate Extends(w: WatchState, r: WatchState) {
    && |r.requests| >= |w.requests| && r.requests[..|w.requests|] == w.requests
    && |r.emitted| >= |w.emitted| && r.emitted[..|w.emitted|] == w.emitted
    && |r.logs| >= |w.logs| && r.logs[..|w.logs|] == w.logs
  }

  /** True when the poll outcome is a change whose value decodes. */
  predicate Accepted(decode: string -> Option<Infos>, o: Outcome) {
    o.Changed? && decode(o.value).Some?
  }

  /** The outcome of the poll issued at the current cursor. */
  function OnOutcome(decode: string -> Option<Infos>, w: WatchState, o: Outcome): (r: WatchState)
    requires !w.cancelled
    ensures r.requests == w.requests + [w.cursor]
    ensures r.key == w.key && !r.cancelled
    ensures o.WatchErr? ==> r.cursor == w.cursor && r.emitted == w.emitted && r.logs == w.logs + [LostWatcher]
    ensures o.Changed? && decode(o.value).None? ==>
      r.cursor == w.cursor && r.emitted == w.emitted && r.logs == w.logs + [DecodeError]
    ensures Accepted(decode, o) ==>
      r.cursor == o.modifiedIndex && r.emitted == w.emitted + [decode(o.value).value.Creds()] && r.logs == w.logs
  {
    var polled := w.(requests := w.requests + [w.cursor]);
    match o
    case WatchErr => polled.(logs := w.logs + [LostWatcher])
    case Changed(value, index) =>
      match decode(value)
      case None => polled.(logs := w.logs + [DecodeError])
      case Some(infos) => polled.(cursor := index, emitted := w.emitted + [infos.Creds()])
  }

  /**
   The stop signal: the context is cancelled and the loop returns. A poll in
   flight was issued at the cursor and fails with the cancellation, which is
   logged as a lost watch; nothing is emitted and the cursor stays.
   */
  function OnCancel(w: WatchState, inFlight: bool): (r: WatchState)
    requires !w.cancelled
    ensures r.cancelled && r.key == w.key
    ensures r.cursor == w.cursor && r.emitted == w.emitted
    ensures inFlight ==> r.requests == w.requests + [w.cursor] && r.logs == w.logs + [LostWatcher]
    ensures !inFlight ==> r.requests == w.requests && r.logs == w.logs
  {
    var stopped := w.(cancelled := true);
    if inFlight then
      stopped.(requests := w.requests + [w.cursor], logs := w.logs + [LostWatcher])
    else
      stopped
  }

  /**
   One turn of the watcher loop: the `select` hands the stop signal or the
   poll outcome to its handler. Once stopped it has returned and ignores
   everything.
   */
  function Step(decode: string -> Option<Infos>, w: WatchState, ev: Event): (r: WatchState)
    ensures w.cancelled ==> r == w
    ensures !w.cancelled && ev.Cancel? ==> r == OnCancel(w, ev.inFlight)
    ensures !w.cancelled && ev.Poll? ==> r == OnOutcome(decode, w, ev.outcome)
    ensures r.key == w.key
    ensures r.cancelled <==> w.cancelled || ev.Cancel?
    ensures Extends(w, r)
  {
    if w.cancelled then w
    else
      match ev
      case Cancel(inFlight) => OnCancel(w, inFlight)
      case Poll(o) => OnOutcome(decode, w, o)
  }

  /**
   The watcher loop over a sequence of events. It watches one key throughout,
   and history is never rewritten: polls, emitted pairs and log entries are
   only appended; once stopped it stays stopped.
   */
  function Run(decode: string -> Option<Infos>, w: WatchState, evs: seq<Event>): (r: WatchState)
    ensures r.key == w.key
    ensures Extends(w, r)
    ensures w.cancelled ==> r.cancelled
    decreases |evs|
  {
    if |evs| == 0 then w
    else
      var w' := Step(decode, w, evs[0]);
      var r := Run(decode, w', evs[1..]);
      assert r.requests[..|w.requests|] == r.requests[..|w'.requests|][..|w.requests|];
      assert r.emitted[..|w.emitted|] == r.emitted[..|w'.emitted|][..|w.emitted|];
      assert r.logs[..|w.logs|] == r.logs[..|w'.logs|][..|w.logs|];
      r
  }

  // ---------------------------------------------------------------------
  // Reference definitions, stated on the event sequence alone
  // ---------------------------------------------------------------------

  /** The poll outcomes delivered before the first stop signal. */
  function Live(evs: seq<Event>): seq<Outcome>
    decreases |evs|
  {
    if |evs| == 0 || evs[0].Cancel? then [] else [evs[0].outcome] + Live(evs[1..])
  }

  /** 1 when the first stop signal cancelled a poll in flight, otherwise 0. */
  function CancelledPolls(evs: seq<Event>): nat
    decreases |evs|
  {
    if |evs| == 0 then 0
    else if evs[0].Cancel? then (if evs[0].inFlight then 1 else 0)
    else CancelledPolls(evs[1..])
  }

  predicate HasCancel(evs: seq<Event>) {
    exists k :: 0 <= k < |evs| && evs[k].Cancel?
  }

  /** The pairs of the accepted changes, in order. */
  function Successes(decode: string -> Option<Infos>, live: seq<Outcome>): seq<Credentials>
    decreases |live|
  {
    if |live| == 0 then []
    else
      (if Accepted(decode, live[0]) then [decode(live[0].value).value.Creds()] else [])
      + Successes(decode, live[1..])
  }

  /** The index of the last accepted change, or `seed` when there is none. */
  function LastSeen(decode: string -> Option<Infos>, seed: Index, live: seq<Outcome>): Index
    decreases |live|
  {
    if |live| == 0 then seed
    else if Accepted(decode, live[|live| - 1]) then live[|live| - 1].modifiedIndex
    else LastSeen(decode, seed, live[..|live| - 1])
  }

  /** One lost-watch entry per transport error and one decode entry per undecodable change, in order. */
  function FailureLogs(decode: string -> Option<Infos>, live: seq<Outcome>): seq<WatchLog>
    decreases |live|
  {
    if |live| == 0 then []
    else
      (if live[0].WatchErr? then [LostWatcher]
       else if decode(live[0].value).None? then [DecodeError]
       else [])
      + FailureLogs(decode, live[1..])
  }

  /** The k-th poll asks after the last index accepted among the k outcomes before it. */
  function PollsAt(decode: string -> Option<Infos>, seed: Index, live: seq<Outcome>): seq<Index> {
    seq(|live|, k requires 0 <= k < |live| => LastSeen(decode, seed, live[..k]))
  }

  /** The poll a stop signal cancels, if one was in flight, at the final cursor. */
  function CancelledAt(decode: string -> Option<Infos>, seed: Index, evs: seq<Event>): seq<Index> {
    if CancelledPolls(evs) == 1 then [LastSeen(decode, seed, Live(evs))] else []
  }

  lemma {:induction false} LastSeenCons(decode: string -> Option<Infos>, seed: Index, o: Outcome, live: seq<Outcome>)
    ensures LastSeen(decode, seed, [o] + live) ==
      LastSeen(decode, if Accepted(decode, o) then o.modifiedIndex else seed, live)
    decreases |live|
  {
    if |live| == 0 {
      assert [o] + live == [o];
      assert [o][..0] == [];
    } else {
      var init := live[..|live| - 1];
      assert ([o] + live)[..|[o] + live| - 1] == [o] + init;
      LastSeenCons(decode, seed, o, init);
    }
  }

  /** A stop signal occurs in a sequence that starts with a poll exactly when it occurs in its tail. */
  lemma HasCancelTail(evs: seq<Event>)
    requires |evs| > 0 && evs[0].Poll?
    ensures HasCancel(evs) <==> HasCancel(evs[1..])
  {
  }

  /** A stopped watcher issues no poll and emits nothing. */
  lemma {:induction false} StoppedIsInert(decode: string -> Option<Infos>, w: WatchState, evs: seq<Event>)
    requires w.cancelled
    ensures Run(decode, w, evs) == w
    decreases |evs|
  {
    if |evs| != 0 {
      StoppedIsInert(decode, Step(decode, w, evs[0]), evs[1..]);
    }
  }

  lemma {:induction false} RunCursor(decode: string -> Option<Infos>, w: WatchState, evs: seq<Event>)
    requires !w.cancelled
    ensures Run(decode, w, evs).cursor == LastSeen(decode, w.cursor, Live(evs))
    decreases |evs|
  {
    if |evs| == 0 {
    } else if evs[0].Cancel? {
      StoppedIsInert(decode, Step(decode, w, evs[0]), evs[1..]);
    } else {
      var o := evs[0].outcome;
      RunCursor(decode, Step(decode, w, evs[0]), evs[1..]);
      LastSeenCons(decode, w.cursor, o, Live(evs[1..]));
    }
  }

  lemma {:induction false} RunEmitted(decode: string -> Option<Infos>, w: WatchState, evs: seq<Event>)
    requires !w.cancelled
    ensures Run(decode, w, evs).emitted == w.emitted + Successes(decode, Live(evs))
    decreases |evs|
  {
    if |evs| == 0 {
    } else if evs[0].Cancel? {
      StoppedIsInert(decode, Step(decode, w, evs[0]), evs[1..]);
    } else {
      var w' := Step(decode, w, evs[0]);
      RunEmitted(decode, w', evs[1..]);
      assert Live(evs) == [evs[0].outcome] + Live(evs[1..]);
    }
  }

  lemma {:induction false} PollsAtCons(decode: string -> Option<Infos>, seed: Index, o: Outcome, live: seq<Outcome>)
    ensures PollsAt(decode, seed, [o] + live) ==
      [seed] + PollsAt(decode, if Accepted(decode, o) then o.modifiedIndex else seed, live)
  {
    var next := if Accepted(decode, o) then o.modifiedIndex else seed;
    var a := PollsAt(decode, seed, [o] + live);
    var b := [seed] + PollsAt(decode, next, live);
    assert ([o] + live)[..0] == [];
    forall k | 1 <= k < |a| ensures a[k] == b[k] {
      assert ([o] + live)[..k] == [o] + live[..k - 1];
      LastSeenCons(decode, seed, o, live[..k - 1]);
    }
  }

  lemma {:induction false} RunRequests(decode: string -> Option<Infos>, w: WatchState, evs: seq<Event>)
    requires !w.cancelled
    ensures Run(decode, w, evs).requests ==
      w.requests + PollsAt(decode, w.cursor, Live(evs)) + CancelledAt(decode, w.cursor, evs)
    decreases |evs|
  {
    if |evs| == 0 {
      assert w.requests + [] + [] == w.requests;
    } else if evs[0].Cancel? {
      StoppedIsInert(decode, Step(decode, w, evs[0]), evs[1..]);
      assert w.requests + [] == w.requests;
    } else {
      var o := evs[0].outcome;
      var w' := Step(decode, w, evs[0]);
      assert Run(decode, w, evs) == Run(decode, w', evs[1..]);
      RunRequests(decode, w', evs[1..]);
      var live := Live(evs[1..]);
      assert Live(evs) == [o] + live;
      assert w'.requests == w.requests + [w.cursor];
      assert w'.cursor == if Accepted(decode, o) then o.modifiedIndex else w.cursor;
      PollsAtCons(decode, w.cursor, o, live);
      LastSeenCons(decode, w.cursor, o, live);
      assert CancelledAt(decode, w.cursor, evs) == CancelledAt(decode, w'.cursor, evs[1..]);
      AppendAssoc(w.requests, [w.cursor], PollsAt(decode, w'.cursor, live));
    }
  }

  lemma {:induction false} RunLogs(decode: string -> Option<Infos>, w: WatchState, evs: seq<Event>)
    requires !w.cancelled
    ensures Run(decode, w, evs).logs ==
      w.logs + FailureLogs(decode, Live(evs)) + (if CancelledPolls(evs) == 1 then [LostWatcher] else [])
    decreases |evs|
  {
    if |evs| == 0 {
      assert w.logs + [] + [] == w.logs;
    } else if evs[0].Cancel? {
      StoppedIsInert(decode, Step(decode, w, evs[0]), evs[1..]);
      assert w.logs + [] == w.logs;
    } else {
      var o := evs[0].outcome;
      var w' := Step(decode, w, evs[0]);
      assert Run(decode, w, evs) == Run(decode, w', evs[1..]);
      RunLogs(decode, w', evs[1..]);
      var live := Live(evs[1..]);
      assert Live(evs) == [o] + live;
      var own: seq<WatchLog> :=
        if o.WatchErr? then [LostWatcher] else if decode(o.value).None? then [DecodeError] else [];
      assert FailureLogs(decode, [o] + live) == own + FailureLogs(decode, live) by {
        assert ([o] + live)[0] == o;
        assert ([o] + live)[1..] == live;
      }
      assert w'.logs == w.logs + own;
      assert CancelledPolls(evs) == CancelledPolls(evs[1..]);
      var tail: seq<WatchLog> := if CancelledPolls(evs) == 1 then [LostWatcher] else [];
      AppendAssoc(w.logs, own, FailureLogs(decode, live));
    }
  }

  lemma {:induction false} RunCancelled(decode: string -> Option<Infos>, w: WatchState, evs: seq<Event>)
    requires !w.cancelled
    ensures Run(decode, w, evs).key == w.key
    ensures Run(decode, w, evs).cancelled <==> HasCancel(evs)
    decreases |evs|
  {
    if |evs| == 0 {
    } else if evs[0].Cancel? {
      StoppedIsInert(decode, Step(decode, w, evs[0]), evs[1..]);
    } else {
      RunCancelled(decode, Step(decode, w, evs[0]), evs[1..]);
      HasCancelTail(evs);
    }
  }

  /**
   A run, compared with the reference definitions: the cursor is the index of
   the last accepted change (or where it started), exactly the accepted pairs
   are emitted, in order, the k-th poll asks after the last index accepted
   among the outcomes before it, a poll a stop cancels asks after the final
   cursor, each failed or cancelled poll is logged once, in order, and the
   watcher is stopped exactly when a stop signal came.
   */
  lemma {:induction false} RunMatchesReference(decode: string -> Option<Infos>, w: WatchState, evs: seq<Event>)
    requires !w.cancelled
    ensures var r := Run(decode, w, evs);
      && r.key == w.key
      && r.cursor == LastSeen(decode, w.cursor, Live(evs))
      && r.emitted == w.emitted + Successes(decode, Live(evs))
      && r.requests == w.requests + PollsAt(decode, w.cursor, Live(evs)) + CancelledAt(decode, w.cursor, evs)
      && r.logs == w.logs + FailureLogs(decode, Live(evs)) + (if CancelledPolls(evs) == 1 then [LostWatcher] else [])
      && (r.cancelled <==> HasCancel(evs))
  {
    RunCursor(decode, w, evs);
    RunEmitted(decode, w, evs);
    RunRequests(decode, w, evs);
    RunLogs(decode, w, evs);
    RunCancelled(decode, w, evs);
  }

  /**
   The store keeps its side of the watch: each change a poll returns is newer
   than the AfterIndex the poll was issued with.
   */
  ghost predicate Honest(decode: string -> Option<Infos>, w: WatchState, evs: seq<Event>)
    decreases |evs|
  {
    |evs| == 0 ||
    ((evs[0].Poll? && evs[0].outcome.Changed? && !w.cancelled ==> evs[0].outcome.modifiedIndex > w.cursor)
     && Honest(decode, Step(decode, w, evs[0]), evs[1..]))
  }

  /**
   Against an honest store the cursor never moves back, so the polls resume at
   non-decreasing positions, and every accepted change strictly advances it.
   */
  lemma {:induction false} CursorMonotone(decode: string -> Option<Infos>, w: WatchState, evs: seq<Event>)
    requires Honest(decode, w, evs)
    requires Sorted(w.requests)
    requires RequestsBehindCursor(w)
    ensures var r := Run(decode, w, evs);
      && r.cursor >= w.cursor
      && Sorted(r.requests)
      && RequestsBehindCursor(r)
      && (|r.emitted| > |w.emitted| ==> r.cursor > w.cursor)
    decreases |evs|
  {
    if |evs| != 0 {
      var w' := Step(decode, w, evs[0]);
      assert w'.cursor >= w.cursor;
      assert |w'.emitted| > |w.emitted| ==> w'.cursor > w.cursor;
      assert |w'.emitted| >= |w.emitted|;
      CursorMonotone(decode, w', evs[1..]);
    }
  }
}
