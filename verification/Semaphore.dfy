/** What xsem and psem both promise: one atomic counting semaphore. A call is
    invoked, takes effect in a single step, and returns. */
module Semaphore {

  datatype Proc = Idle | DownPending | DownDone | UpPending | UpDone

  datatype State = State(count: int, procs: seq<Proc>)

  predicate Init(s: State, count: int) {
    s.count == count && forall p | 0 <= p < |s.procs| :: s.procs[p] == Idle
  }

  /** Process p makes one move; a down takes effect only when the count is positive. */
  predicate Step(s: State, s': State, p: nat) {
    && p < |s.procs|
    && |s'.procs| == |s.procs|
    && s'.procs == s.procs[p := s'.procs[p]]
    && match (s.procs[p], s'.procs[p])
       case (Idle, DownPending) => s'.count == s.count
       case (Idle, UpPending) => s'.count == s.count
       case (DownPending, DownDone) => s.count > 0 && s'.count == s.count - 1
       case (UpPending, UpDone) => s'.count == s.count + 1
       case (DownDone, Idle) => s'.count == s.count
       case (UpDone, Idle) => s'.count == s.count
       case _ => false
  }

  ghost predicate StepOrPause(s: State, s': State) {
    s' == s || exists p :: Step(s, s', p)
  }

  ghost predicate IsRun(run: seq<State>, count: int) {
    && run != [] && Init(run[0], count)
    && forall i: nat | i < |run| - 1 :: StepOrPause(run[i], run[i + 1])
  }
}
