/**
 The polling state machine shared by `wait_for_cluster_status`,
 `wait_for_library_status` and both `wait_for_run_status` functions.

 Each iteration issues one status query, extracts a status from the reply
 (or fails while extracting it), raises when the status is in the failure
 list, otherwise sleeps, and stops once the status is in the target list.
 The remote side is a finite sequence of replies, one consumed per query;
 when it runs out the loop is still polling, since the code has no bound.
 What the loop sees is given here as the sequence of extraction results.
 */
module Polling {
  import opened Common

  /** How a poll loop ends. */
  datatype PollEnd =
    | Reached(status: string)  // the loop condition found the status in the target list
    | Failed(status: string)   // `raise ValueError(...)` on a status in the failure list
    | Crashed(error: Error)    // extracting the status from a reply raised
    | StillPolling             // every reply was consumed and the loop had not stopped

  /** How a poll loop ends, with the number of queries issued and sleeps taken. */
  datatype PollTrace = PollTrace(end: PollEnd, queries: nat, sleeps: nat)

  /** An extraction result that stops the loop, by raising or by reaching a target. */
  predicate IsTerminal(x: Result<string>, target: seq<string>, failure: seq<string>)
  {
    x.Err? || x.value in failure || x.value in target
  }

  /** How a terminal extraction result ends the loop; the failure test comes first. */
  function Classify(x: Result<string>, target: seq<string>, failure: seq<string>): PollEnd
    requires IsTerminal(x, target, failure)
  {
    if x.Err? then Crashed(x.error)
    else if x.value in failure then Failed(x.value)
    else Reached(x.value)
  }

  /**
   The loop from the state in which `i` queries have been issued and slept
   after, with the latest status outside the target list.
   */
  function PollFrom(observed: seq<Result<string>>, i: nat, target: seq<string>, failure: seq<string>): (t: PollTrace)
    requires i <= |observed|
    ensures i <= t.queries <= |observed|
    ensures t.end.StillPolling? ==> t.queries == |observed|
    ensures t.end.Reached? || t.end.StillPolling? ==> t.sleeps == t.queries
    ensures t.end.Failed? || t.end.Crashed? ==> t.sleeps + 1 == t.queries
    decreases |observed| - i
  {
    if i == |observed| then PollTrace(StillPolling, i, i)
    else if IsTerminal(observed[i], target, failure) then
      var end := Classify(observed[i], target, failure);
      PollTrace(end, i + 1, if end.Reached? then i + 1 else i)
    else PollFrom(observed, i + 1, target, failure)
  }

  /**
   The whole loop, from its initial state (no status yet, nothing issued):
   it never issues more queries than there are replies, it runs until the
   replies are used up or it stops, and it sleeps after every query except
   one that raises.
   */
  function Poll(observed: seq<Result<string>>, target: seq<string>, failure: seq<string>): (t: PollTrace)
    ensures t.queries <= |observed|
    ensures t.end.StillPolling? ==> t.queries == |observed|
    ensures t.end.Reached? || t.end.StillPolling? ==> t.sleeps == t.queries
    ensures t.end.Failed? || t.end.Crashed? ==> t.sleeps + 1 == t.queries
  {
    PollFrom(observed, 0, target, failure)
  }

  lemma {:induction false} PollFromOutcome(observed: seq<Result<string>>, i: nat, target: seq<string>, failure: seq<string>)
    requires i <= |observed|
    ensures var t := PollFrom(observed, i, target, failure);
      && i <= t.queries <= |observed|
      && (forall j :: i <= j < |observed| && j + 1 < t.queries ==> !IsTerminal(observed[j], target, failure))
      && (t.end.StillPolling? <==> forall j :: i <= j < |observed| ==> !IsTerminal(observed[j], target, failure))
      && (t.end.StillPolling? ==> t.queries == |observed|)
      && (!t.end.StillPolling? ==>
            i < t.queries
            && IsTerminal(observed[t.queries - 1], target, failure)
            && t.end == Classify(observed[t.queries - 1], target, failure))
      && t.sleeps == (if t.end.Failed? || t.end.Crashed? then t.queries - 1 else t.queries)
    decreases |observed| - i
  {
    if i < |observed| && !IsTerminal(observed[i], target, failure) {
      PollFromOutcome(observed, i + 1, target, failure);
    }
  }

  /**
   What a poll loop does, for every sequence of replies:
   - the number of queries is one plus the index of the first reply that is
     terminal (raises, or has a status in the failure or target list), and no
     reply after it is consumed;
   - that reply decides the end, the failure test before the target test;
   - with no terminal reply every reply is consumed and the loop is still polling;
   - a sleep follows every query that does not raise, the last successful one included.
   */
  lemma PollOutcome(observed: seq<Result<string>>, target: seq<string>, failure: seq<string>)
    ensures var t := Poll(observed, target, failure);
      && t.queries <= |observed|
      && (forall j :: 0 <= j < |observed| && j + 1 < t.queries ==> !IsTerminal(observed[j], target, failure))
      && (t.end.StillPolling? <==> forall j :: 0 <= j < |observed| ==> !IsTerminal(observed[j], target, failure))
      && (t.end.StillPolling? ==> t.queries == |observed|)
      && (!t.end.StillPolling? ==>
            1 <= t.queries
            && IsTerminal(observed[t.queries - 1], target, failure)
            && t.end == Classify(observed[t.queries - 1], target, failure))
      && t.sleeps == (if t.end.Failed? || t.end.Crashed? then t.queries - 1 else t.queries)
  {
    PollFromOutcome(observed, 0, target, failure);
  }

  /** A loop that ends normally ends on a status in the target list and outside the failure list. */
  lemma PollReachedIsTarget(observed: seq<Result<string>>, target: seq<string>, failure: seq<string>)
    requires Poll(observed, target, failure).end.Reached?
    ensures var s := Poll(observed, target, failure).end.status; s in target && s !in failure
  {
    PollFromOutcome(observed, 0, target, failure);
  }

  /** With an empty failure list the loop never raises on a status. */
  lemma PollNeverFailsWithoutFailureList(observed: seq<Result<string>>, target: seq<string>)
    ensures !Poll(observed, target, []).end.Failed?
  {
    PollFromOutcome(observed, 0, target, []);
  }

  /** A status in both lists raises: the failure test precedes the loop re-test. */
  lemma PollFailureBeforeTarget(observed: seq<Result<string>>, target: seq<string>, failure: seq<string>, k: nat)
    requires k < |observed| && observed[k].Ok?
    requires observed[k].value in failure && observed[k].value in target
    requires forall j :: 0 <= j < k ==> !IsTerminal(observed[j], target, failure)
    ensures Poll(observed, target, failure) == PollTrace(Failed(observed[k].value), k + 1, k)
  {
    PollFromOutcome(observed, 0, target, failure);
  }

  /** Three queries for "PENDING", "PENDING", "RUNNING" with target {"RUNNING"}; a sleep after each. */
  lemma PollScenarioReached()
    ensures Poll([Ok("PENDING"), Ok("PENDING"), Ok("RUNNING"), Ok("RUNNING")], ["RUNNING"], [])
         == PollTrace(Reached("RUNNING"), 3, 3)
  {
  }

  /** "PENDING" then "ERROR" with failure {"ERROR"}: raises after the second query, never issues a third. */
  lemma PollScenarioFailed()
    ensures Poll([Ok("PENDING"), Ok("ERROR"), Ok("RUNNING")], ["RUNNING"], ["ERROR"])
         == PollTrace(Failed("ERROR"), 2, 1)
  {
  }
}
