/**
 * Sequences of "/button-click" requests, each handled to completion before
 * the next (the AtomicInteger increment taken as one step), and what they
 * promise together: POSTs count up by one each, nothing else changes the
 * store, and the record keeps up with the counter while writes succeed.
 */
module ServiceRuns {
  import opened Wrappers
  import opened Http
  import Int32
  import Decimal
  import ButtonClick
  import opened CounterStore

  datatype Trace = Trace(state: State, answers: seq<ButtonClick.Answer>)

  /** Handle `reqs` in order from `s`: the final store and one answer per request. */
  function Serve(s: State, reqs: seq<Request>): (t: Trace)
    requires Int32.InRange(s.value)
    ensures Int32.InRange(t.state.value)
    ensures |t.answers| == |reqs|
    decreases |reqs|
  {
    if reqs == [] then Trace(s, [])
    else
      var o := ButtonClickStep(s, reqs[0]);
      var rest := Serve(o.state, reqs[1..]);
      Trace(rest.state, [o.answer] + rest.answers)
  }

  /** Every request of the run is a POST. */
  predicate AllPosts(reqs: seq<Request>)
    decreases |reqs|
  {
    reqs == [] || (reqs[0].requestMethod == "POST" && AllPosts(reqs[1..]))
  }

  /** The answers of k POSTs from counter v: the count after each increment, in order. */
  function Counts(v: int, k: nat): (cs: seq<ButtonClick.Answer>)
    requires Int32.InRange(v)
    ensures |cs| == k
    decreases k
  {
    if k == 0 then [] else [ButtonClick.Count(Int32.Inc(v))] + Counts(Int32.Inc(v), k - 1)
  }

  /** k POSTs from counter v answer `Counts(v, k)` and leave Inc applied k times. */
  lemma {:induction false} PostsIncrement(s: State, reqs: seq<Request>)
    requires Int32.InRange(s.value) && AllPosts(reqs)
    ensures Serve(s, reqs).state.value == Int32.IncN(s.value, |reqs|)
    ensures Serve(s, reqs).answers == Counts(s.value, |reqs|)
    decreases |reqs|
  {
    if reqs != [] {
      var t := ButtonClickStep(s, reqs[0]).state;
      PostsIncrement(t, reqs[1..]);
    }
  }

  /** The i-th of the counts after k increments from v is the wrap of v + i + 1. */
  lemma {:induction false} CountsWrap(v: int, k: nat)
    requires Int32.InRange(v)
    ensures forall i | 0 <= i < k :: Counts(v, k)[i] == ButtonClick.Count(Int32.Wrap(v + i + 1))
    decreases k
  {
    if k > 0 {
      var w := Int32.Inc(v);
      CountsWrap(w, k - 1);
      Int32.IncWraps(v);
      forall i | 0 < i < k
        ensures Counts(v, k)[i] == ButtonClick.Count(Int32.Wrap(v + i + 1))
      {
        assert Counts(v, k)[i] == Counts(w, k - 1)[i - 1];
        assert w + (i - 1) + 1 == Int32.Wrap(v + 1) + i;
        Int32.WrapThenAdd(v + 1, i);
        assert v + 1 + i == v + i + 1;
      }
    }
  }

  /** k POSTs from counter v answer v+1, v+2, ..., v+k (in 32-bit arithmetic) and leave v+k. */
  lemma PostsCountUp(s: State, reqs: seq<Request>)
    requires Int32.InRange(s.value) && AllPosts(reqs)
    ensures Serve(s, reqs).state.value == Int32.Wrap(s.value + |reqs|)
    ensures forall i | 0 <= i < |reqs| ::
      Serve(s, reqs).answers[i] == ButtonClick.Count(Int32.Wrap(s.value + i + 1))
  {
    PostsIncrement(s, reqs);
    Int32.IncNWraps(s.value, |reqs|);
    CountsWrap(s.value, |reqs|);
  }

  /** From a cold start, k POSTs (k up to MAX) answer 1, 2, ..., k: the first POST answers 1. */
  lemma ColdStartPosts(reqs: seq<Request>)
    requires AllPosts(reqs) && |reqs| <= Int32.MAX
    ensures forall i | 0 <= i < |reqs| ::
      Serve(StartState(None), reqs).answers[i] == ButtonClick.Count(i + 1)
  {
    PostsCountUp(StartState(None), reqs);
  }

  /** After a restart from a record written for n, k POSTs (short of MAX) answer n+1, ..., n+k. */
  lemma RestartPosts(n: int, reqs: seq<Request>)
    requires Int32.InRange(n) && AllPosts(reqs) && n + |reqs| <= Int32.MAX
    ensures forall i | 0 <= i < |reqs| ::
      Serve(StartState(Some(Decimal.ValueOf(n))), reqs).answers[i] == ButtonClick.Count(n + i + 1)
  {
    LoadSaved(n);
    PostsCountUp(StartState(Some(Decimal.ValueOf(n))), reqs);
  }

  /** OPTIONS and refused methods leave counter and record exactly as they were. */
  lemma {:induction false} OnlyPostsChangeStore(s: State, reqs: seq<Request>)
    requires Int32.InRange(s.value)
    requires forall i | 0 <= i < |reqs| :: reqs[i].requestMethod != "POST"
    ensures Serve(s, reqs).state == s
    ensures forall i | 0 <= i < |reqs| ::
      Serve(s, reqs).answers[i] ==
        if reqs[i].requestMethod == "OPTIONS" then ButtonClick.Preflight
        else ButtonClick.NotAllowed
    decreases |reqs|
  {
    if reqs != [] {
      OnlyPostsChangeStore(s, reqs[1..]);
    }
  }

  /**
   * While every write succeeds, the record stays the decimal text of the
   * counter, so a restart resumes from the last count answered.
   */
  lemma {:induction false} WritesKeepRecordCurrent(s: State, reqs: seq<Request>)
    requires Int32.InRange(s.value) && Persisted(s)
    requires forall i | 0 <= i < |reqs| :: reqs[i].write.Written?
    ensures Persisted(Serve(s, reqs).state)
    ensures StartState(Serve(s, reqs).state.record) == Serve(s, reqs).state
    decreases |reqs|
  {
    if reqs != [] {
      WritesKeepRecordCurrent(ButtonClickStep(s, reqs[0]).state, reqs[1..]);
    } else {
      LoadSaved(s.value);
    }
  }

  /**
   * However the write ends, the answer and the new count are the same; a
   * write that fails to open leaves the record exactly as it was.
   */
  lemma FailedWriteInvisible(s: State, requestMethod: string, write: WriteOutcome)
    requires Int32.InRange(s.value)
    ensures ButtonClickStep(s, Request(requestMethod, write)).answer ==
            ButtonClickStep(s, Request(requestMethod, Written)).answer
    ensures ButtonClickStep(s, Request(requestMethod, write)).state.value ==
            ButtonClickStep(s, Request(requestMethod, Written)).state.value
    ensures write.OpenFailed? ==> ButtonClickStep(s, Request(requestMethod, write)).state.record == s.record
  {
  }
}
