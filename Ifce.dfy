/** The transport capability the display driver talks through (sh1122/src/ifce.rs).
    A real transport writes bytes to a bus; here it is a recorder: every call is
    appended to `trace`, and the calls whose number (counting from 0 over the
    lifetime of the transport) is a key of `faults` fail with the stored error.
    Everything the driver promises is then a statement about the trace. */
module Ifce {

  /** One call on the transport: `write_cmd(op, payload)` or `write_data(bytes)`. */
  datatype Event = Cmd(op: bv8, payload: seq<bv8>) | Data(bytes: seq<bv8>)

  /** The error a failing transport call reports; its contents are opaque to the driver. */
  datatype TransportError = TransportError(code: int)

  /** `Result<()>`: the unit result, usable with `:-` like Rust's `?`. */
  datatype Outcome = Pass | Fail(error: TransportError) {
    predicate IsFailure() { Fail? }
    function PropagateFailure(): Outcome requires Fail? { this }
  }

  /** The calls of `script` actually issued when the first of them is call number
      `start`: everything up to and including the first failing call. */
  function Attempted(script: seq<Event>, faults: map<nat, TransportError>, start: nat): seq<Event>
    decreases |script|
  {
    if script == [] then []
    else [script[0]] + (if start in faults then [] else Attempted(script[1..], faults, start + 1))
  }

  /** What running `script` from call number `start` returns: the error of the first
      failing call, or Pass when none fails. */
  function Verdict(script: seq<Event>, faults: map<nat, TransportError>, start: nat): Outcome
    decreases |script|
  {
    if script == [] then Pass
    else if start in faults then Fail(faults[start])
    else Verdict(script[1..], faults, start + 1)
  }

  /** A single call is always issued; it fails exactly when its number is in `faults`. */
  lemma Single(e: Event, faults: map<nat, TransportError>, start: nat)
    ensures Attempted([e], faults, start) == [e]
    ensures Verdict([e], faults, start) == if start in faults then Fail(faults[start]) else Pass
  {
    assert [e][1..] == [];
  }

  /** No call numbered `start` .. `start + n - 1` is scheduled to fail. */
  ghost predicate FaultFree(faults: map<nat, TransportError>, start: nat, n: nat) {
    forall k :: start <= k < start + n ==> k !in faults
  }

  /** The calls issued are a prefix of the script. The script fails exactly when they stop
      short of its end or its last issued call is scheduled to fail, and then that last
      issued call is the one whose error is returned. */
  lemma {:induction false} AttemptedIsPrefix(script: seq<Event>, faults: map<nat, TransportError>, start: nat)
    ensures var tried := Attempted(script, faults, start);
      |tried| <= |script| && tried == script[..|tried|] &&
      (Verdict(script, faults, start).Fail? <==> tried != [] && start + |tried| - 1 in faults) &&
      (Verdict(script, faults, start).Fail? ==>
        Verdict(script, faults, start) == Fail(faults[start + |tried| - 1]))
    decreases |script|
  {
    if script != [] && start !in faults {
      var rest := Attempted(script[1..], faults, start + 1);
      AttemptedIsPrefix(script[1..], faults, start + 1);
      assert [script[0]] + script[1..][..|rest|] == script[..|rest| + 1];
    }
  }

  /** A script runs to the end and passes exactly when none of its calls fails. */
  lemma {:induction false} RunsToEnd(script: seq<Event>, faults: map<nat, TransportError>, start: nat)
    ensures Verdict(script, faults, start) == Pass <==> FaultFree(faults, start, |script|)
    ensures FaultFree(faults, start, |script|) ==> Attempted(script, faults, start) == script
    decreases |script|
  {
    if script != [] {
      RunsToEnd(script[1..], faults, start + 1);
      if start !in faults && !FaultFree(faults, start, |script|) {
        var k :| start <= k < start + |script| && k in faults;
        assert start + 1 <= k < start + 1 + |script[1..]|;
      }
    }
  }

  /** When call `start + k` is the first one of the script to fail, the calls after it are
      never issued and its error is what the script returns. */
  lemma {:induction false} StopsAtFirstFault(script: seq<Event>, faults: map<nat, TransportError>, start: nat, k: nat)
    requires k < |script| && start + k in faults && FaultFree(faults, start, k)
    ensures Attempted(script, faults, start) == script[..k + 1]
    ensures Verdict(script, faults, start) == Fail(faults[start + k])
    decreases k
  {
    if k > 0 {
      StopsAtFirstFault(script[1..], faults, start + 1, k - 1);
      assert [script[0]] + script[1..][..k] == script[..k + 1];
    }
  }

  /** Running two scripts one after the other, when the first passes: the second one
      follows it, numbered from where the first one ended. */
  lemma {:induction false} SequencePass(s1: seq<Event>, s2: seq<Event>, faults: map<nat, TransportError>, start: nat)
    requires Verdict(s1, faults, start) == Pass
    ensures Attempted(s1 + s2, faults, start) == s1 + Attempted(s2, faults, start + |s1|)
    ensures Verdict(s1 + s2, faults, start) == Verdict(s2, faults, start + |s1|)
    decreases |s1|
  {
    if s1 == [] {
      assert s1 + s2 == s2;
    } else {
      var t1 := s1[1..];
      SequencePass(t1, s2, faults, start + 1);
      ConsAppend(s1, s2);
      Regroup([s1[0]], t1, Attempted(s2, faults, start + |s1|));
    }
  }

  /** The head and tail of a concatenation whose left part is not empty. */
  lemma ConsAppend(s1: seq<Event>, s2: seq<Event>)
    requires s1 != []
    ensures s1 + s2 != [] && (s1 + s2)[0] == s1[0] && (s1 + s2)[1..] == s1[1..] + s2
    ensures [s1[0]] + s1[1..] == s1
  {
  }

  /** Running two scripts one after the other, when the first fails: nothing of the
      second one is issued and the first one's error is returned. */
  lemma {:induction false} SequenceFail(s1: seq<Event>, s2: seq<Event>, faults: map<nat, TransportError>, start: nat)
    requires Verdict(s1, faults, start).Fail?
    ensures Attempted(s1 + s2, faults, start) == Attempted(s1, faults, start)
    ensures Verdict(s1 + s2, faults, start) == Verdict(s1, faults, start)
    decreases |s1|
  {
    var s := s1 + s2;
    assert s[1..] == s1[1..] + s2;
    if start !in faults {
      assert Verdict(s1[1..], faults, start + 1).Fail?;
      SequenceFail(s1[1..], s2, faults, start + 1);
    }
  }

  // A multi-step operation (`flush`, `init_display`, `partial_flush`) issues the scripts
  // of its steps one after the other and returns at the first failing call, as Rust's `?`
  // does. Its whole script is `full` and the trace was `t0` when it started; before each
  // step the steps that passed issued `done` and `rest` is still to come; the step itself
  // issues `s` and leaves `tail`, so that `rest == s + tail`.

  /** Part way through a multi-step operation whose calls are `full`: the steps that
      passed issued `done`, so the trace is `t0 + done`, and `rest` is still to come. */
  ghost predicate Progress(t0: seq<Event>, full: seq<Event>, done: seq<Event>, rest: seq<Event>,
                           trace: seq<Event>, faults: map<nat, TransportError>)
  {
    trace == t0 + done && full == done + rest && Verdict(done, faults, |t0|) == Pass
  }

  /** Nothing has run yet. */
  lemma Begins(t0: seq<Event>, full: seq<Event>, faults: map<nat, TransportError>)
    ensures Progress(t0, full, [], full, t0, faults)
  {
    assert t0 + [] == t0;
    assert [] + full == full;
  }

  /** The step fails: the trace and the error are those of the whole operation, and
      nothing of `tail` is issued. */
  lemma Stops(t0: seq<Event>, full: seq<Event>, done: seq<Event>, rest: seq<Event>, s: seq<Event>, tail: seq<Event>,
              i: Interface, before: seq<Event>, r: Outcome)
    requires Progress(t0, full, done, rest, before, i.faults)
    requires rest == s + tail
    requires i.Performed(before, s, r) && r.Fail?
    ensures i.trace == t0 + Attempted(full, i.faults, |t0|)
    ensures r == Verdict(full, i.faults, |t0|)
  {
    var faults := i.faults;
    var here := |t0| + |done|;
    var tried := Attempted(s, faults, here);
    SequenceFail(s, tail, faults, here);
    SequencePass(done, s + tail, faults, |t0|);
    assert Attempted(full, faults, |t0|) == done + tried;
    Regroup(t0, done, tried);
  }

  /** The step passes: all of `s` was issued, and the steps that passed now issued
      `done + s`. */
  lemma Continues(t0: seq<Event>, full: seq<Event>, done: seq<Event>, rest: seq<Event>, s: seq<Event>, tail: seq<Event>,
                  i: Interface, before: seq<Event>, r: Outcome)
    requires Progress(t0, full, done, rest, before, i.faults)
    requires rest == s + tail
    requires i.Performed(before, s, r) && r == Pass
    ensures Progress(t0, full, done + s, tail, i.trace, i.faults)
  {
    var faults := i.faults;
    Issued(s, faults, |before|);
    Joined(done, s, faults, |t0|);
    Regroup(t0, done, s);
    Regroup(done, s, tail);
  }

  /** A script that passes was issued in full. */
  lemma Issued(s: seq<Event>, faults: map<nat, TransportError>, start: nat)
    requires Verdict(s, faults, start) == Pass
    ensures Attempted(s, faults, start) == s
  {
    RunsToEnd(s, faults, start);
  }

  /** Two scripts that pass one after the other pass together. */
  lemma Joined(s1: seq<Event>, s2: seq<Event>, faults: map<nat, TransportError>, start: nat)
    requires Verdict(s1, faults, start) == Pass && Verdict(s2, faults, start + |s1|) == Pass
    ensures Verdict(s1 + s2, faults, start) == Pass
  {
    SequencePass(s1, s2, faults, start);
  }

  /** Concatenation is associative. */
  lemma Regroup(a: seq<Event>, b: seq<Event>, c: seq<Event>)
    ensures (a + b) + c == a + (b + c)
  {
  }

  /** Every step passed: the whole script was issued. */
  lemma Completes(t0: seq<Event>, full: seq<Event>, done: seq<Event>, trace: seq<Event>,
                  faults: map<nat, TransportError>)
    requires Progress(t0, full, done, [], trace, faults)
    ensures trace == t0 + Attempted(full, faults, |t0|)
    ensures Verdict(full, faults, |t0|) == Pass
  {
    assert full == done;
    RunsToEnd(done, faults, |t0|);
  }

  /** The transport. `faults` is fixed when the transport is made: it is the schedule of
      bus failures the model is run against. */
  class Interface {
    var trace: seq<Event>
    const faults: map<nat, TransportError>

    constructor (faults: map<nat, TransportError>)
      ensures trace == [] && this.faults == faults
    {
      trace := [];
      this.faults := faults;
    }

    /** Since the trace was `before`, `script` has been run: its attempted calls were
        appended and `r` is its verdict. */
    ghost predicate Performed(before: seq<Event>, script: seq<Event>, r: Outcome)
      reads this
    {
      trace == before + Attempted(script, faults, |before|) &&
      r == Verdict(script, faults, |before|)
    }

    /** `write_cmd(cmd, data)`: one command transaction. */
    method WriteCmd(op: bv8, payload: seq<bv8>) returns (r: Outcome)
      modifies this
      ensures trace == old(trace) + [Cmd(op, payload)]
      ensures r == (if old(|trace|) in faults then Fail(faults[old(|trace|)]) else Pass)
      ensures Performed(old(trace), [Cmd(op, payload)], r)
    {
      Single(Cmd(op, payload), faults, |trace|);
      r := if |trace| in faults then Fail(faults[|trace|]) else Pass;
      trace := trace + [Cmd(op, payload)];
    }

    /** `write_data(data)`: one data transaction. */
    method WriteData(bytes: seq<bv8>) returns (r: Outcome)
      modifies this
      ensures trace == old(trace) + [Data(bytes)]
      ensures r == (if old(|trace|) in faults then Fail(faults[old(|trace|)]) else Pass)
      ensures Performed(old(trace), [Data(bytes)], r)
    {
      Single(Data(bytes), faults, |trace|);
      r := if |trace| in faults then Fail(faults[|trace|]) else Pass;
      trace := trace + [Data(bytes)];
    }
  }
}
