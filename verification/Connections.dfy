/** Which connections `conns` holds: exactly, over every run, and then under the disciplines that keep it right. */
module Connections {
  import opened Wrappers
  import opened Mesh
  import opened Registry
  import opened Protocol

  // ----- the exact history of an entry -----

  /** Step `i` enters its connection under `k`. */
  predicate Joins(run: seq<State>, steps: seq<Step>, i: nat, k: string)
    requires i < |steps| && i < |run|
  {
    && steps[i].Join? && steps[i].c in run[i].handlers
    && run[i].handlers[steps[i].c].phase.Stored? && run[i].handlers[steps[i].c].phase.p.publicKey == k
  }

  /** Step `m` closes a connection whose `publicKey` variable is `k`: the entry under `k` goes, whoever holds it. */
  predicate Deletes(run: seq<State>, steps: seq<Step>, m: nat, k: string)
    requires m < |steps| && m < |run|
  {
    steps[m].Close? && steps[m].c in run[m].handlers && run[m].handlers[steps[m].c].publicKey == k != ""
  }

  /** Step `i` enters `c` under `k`, and no later step before `j` enters a connection under `k` or deletes `k`. */
  ghost predicate EntryLive(run: seq<State>, steps: seq<Step>, i: int, j: nat, c: nat, k: string)
    requires |run| == |steps| + 1 && j <= |steps|
  {
    && 0 <= i < j && steps[i].c == c && Joins(run, steps, i, k)
    && forall m :: i < m < j ==> !Joins(run, steps, m, k) && !Deletes(run, steps, m, k)
  }

  predicate Holds(s: State, k: string, c: nat) {
    k in s.conns && s.conns[k] == c
  }

  lemma {:induction false} StepHolds(cidr: Cidr, run: seq<State>, steps: seq<Step>, n: nat, c: nat, k: string)
    requires cidr.ones <= 32 && IsRun(cidr, run, steps) && n < |steps|
    ensures Holds(run[n + 1], k, c)
       <==> if Joins(run, steps, n, k) then steps[n].c == c else Holds(run[n], k, c) && !Deletes(run, steps, n, k)
  {
    assert Takes(cidr, run, steps, n);
  }

  lemma {:induction false} HoldsLive(cidr: Cidr, run: seq<State>, steps: seq<Step>, j: nat, c: nat, k: string)
      returns (i: nat)
    requires cidr.ones <= 32 && IsRun(cidr, run, steps) && Initial(cidr, run[0]) && j <= |steps|
    requires Holds(run[j], k, c)
    ensures EntryLive(run, steps, i, j, c, k)
  {
    StepHolds(cidr, run, steps, j - 1, c, k);
    if Joins(run, steps, j - 1, k) {
      i := j - 1;
    } else {
      i := HoldsLive(cidr, run, steps, j - 1, c, k);
    }
  }

  lemma {:induction false} LiveHolds(cidr: Cidr, run: seq<State>, steps: seq<Step>, i: nat, j: nat, c: nat, k: string)
    requires cidr.ones <= 32 && IsRun(cidr, run, steps) && j <= |steps| && EntryLive(run, steps, i, j, c, k)
    ensures Holds(run[j], k, c)
  {
    StepHolds(cidr, run, steps, j - 1, c, k);
    if i < j - 1 {
      LiveHolds(cidr, run, steps, i, j - 1, c, k);
    }
  }

  /**
   * Over every run, whatever the agents do: `conns` leads from `k` to `c` exactly if some step entered `c` under
   * `k`, and since then nothing was entered under `k` and no connection whose last key is `k` was closed.
   */
  lemma {:induction false} ConnsExactly(cidr: Cidr, run: seq<State>, steps: seq<Step>, j: nat, c: nat, k: string)
    requires cidr.ones <= 32 && IsRun(cidr, run, steps) && Initial(cidr, run[0]) && j <= |steps|
    ensures Holds(run[j], k, c) <==> exists i :: EntryLive(run, steps, i, j, c, k)
  {
    if Holds(run[j], k, c) {
      var i := HoldsLive(cidr, run, steps, j, c, k);
    }
    if i: nat :| EntryLive(run, steps, i, j, c, k) {
      LiveHolds(cidr, run, steps, i, j, c, k);
    }
  }

  // ----- handlers over runs -----

  predicate Running(h: Handler) {
    h.phase != Closed
  }

  lemma {:induction false} StepHandlers(cidr: Cidr, s: State, step: Step, c: nat)
    requires cidr.ones <= 32 && Enabled(cidr, s, step) && c in s.handlers
    ensures var t := Apply(s, step);
            && c in t.handlers
            && (Running(t.handlers[c]) <==> Running(s.handlers[c]) && !(step.Close? && step.c == c))
            && (t.handlers[c].inserted <==> s.handlers[c].inserted || (step.Join? && step.c == c))
            && t.handlers[c].publicKey == if step.ReadRegister? && step.c == c then step.p.publicKey
               else s.handlers[c].publicKey
  {
  }

  lemma {:induction false} RunHandlers(cidr: Cidr, run: seq<State>, steps: seq<Step>, n: nat, c: nat)
    requires cidr.ones <= 32 && IsRun(cidr, run, steps) && n < |steps| && c in run[n].handlers
    ensures c in run[n + 1].handlers
    ensures var a, b, step := run[n].handlers[c], run[n + 1].handlers[c], steps[n];
            && (Running(b) <==> Running(a) && !(step.Close? && step.c == c))
            && (b.inserted <==> a.inserted || (step.Join? && step.c == c))
            && b.publicKey == if step.ReadRegister? && step.c == c then step.p.publicKey else a.publicKey
  {
    assert Takes(cidr, run, steps, n);
    StepHandlers(cidr, run[n], steps[n], c);
  }

  /** A closed connection was closed by some step, and stays closed. */
  lemma {:induction false} ClosedAt(cidr: Cidr, run: seq<State>, steps: seq<Step>, i: nat, j: nat, c: nat)
      returns (m: nat)
    requires cidr.ones <= 32 && IsRun(cidr, run, steps) && i <= j <= |steps|
    requires c in run[i].handlers && Running(run[i].handlers[c])
    requires c in run[j].handlers && !Running(run[j].handlers[c])
    ensures i <= m < j && steps[m].Close? && steps[m].c == c
  {
    StaysIn(cidr, run, steps, i, j - 1, c);
    RunHandlers(cidr, run, steps, j - 1, c);
    if Running(run[j - 1].handlers[c]) {
      m := j - 1;
    } else {
      m := ClosedAt(cidr, run, steps, i, j - 1, c);
    }
  }

  lemma {:induction false} StaysIn(cidr: Cidr, run: seq<State>, steps: seq<Step>, i: nat, j: nat, c: nat)
    requires cidr.ones <= 32 && IsRun(cidr, run, steps) && i <= j <= |steps| && c in run[i].handlers
    ensures c in run[j].handlers
    ensures !Running(run[i].handlers[c]) ==> !Running(run[j].handlers[c])
    decreases j
  {
    if i < j {
      StaysIn(cidr, run, steps, i, j - 1, c);
      RunHandlers(cidr, run, steps, j - 1, c);
    }
  }

  // ----- soundness, exactly -----

  /** Closing a connection that holds an entry under a key other than its last one, or under the empty key. */
  ghost predicate LeakingClose(run: seq<State>, steps: seq<Step>, m: int, k: string)
    requires |run| == |steps| + 1
  {
    0 <= m < |steps| && steps[m].Close? && Holds(run[m], k, steps[m].c) && !Deletes(run, steps, m, k)
  }

  /** ... with nothing entered under that key, and the key not deleted, since. */
  ghost predicate Leaked(run: seq<State>, steps: seq<Step>, m: int, j: nat, k: string)
    requires |run| == |steps| + 1 && j <= |steps|
  {
    LeakingClose(run, steps, m, k) && m < j
        && forall n :: m < n < j ==> !Joins(run, steps, n, k) && !Deletes(run, steps, n, k)
  }

  lemma {:induction false} LeakedHolds(cidr: Cidr, run: seq<State>, steps: seq<Step>, m: nat, j: nat, k: string)
    requires cidr.ones <= 32 && IsRun(cidr, run, steps) && j <= |steps| && Leaked(run, steps, m, j, k)
    ensures Holds(run[j], k, steps[m].c)
  {
    StepHolds(cidr, run, steps, j - 1, steps[m].c, k);
    if m < j - 1 {
      LeakedHolds(cidr, run, steps, m, j - 1, k);
    }
  }

  /** A closed connection's entry was there when it was closed, and nothing touched its key since. */
  lemma {:induction false} LeakFound(cidr: Cidr, run: seq<State>, steps: seq<Step>, j: nat, k: string, c: nat)
      returns (m: nat)
    requires cidr.ones <= 32 && IsRun(cidr, run, steps) && Initial(cidr, run[0]) && j <= |steps|
    requires Holds(run[j], k, c) && c in run[j].handlers && !Running(run[j].handlers[c])
    ensures Leaked(run, steps, m, j, k) && steps[m].c == c
  {
    var i := HoldsLive(cidr, run, steps, j, c, k);
    m := ClosedAt(cidr, run, steps, i, j, c);
    assert m != i;
    assert EntryLive(run, steps, i, m, c, k);
    LiveHolds(cidr, run, steps, i, m, c, k);
  }

  /**
   * Every entry under `k` belongs to a running handler, exactly unless some connection was closed while it held an
   * entry under `k` and its last key was not `k`, or `k` is empty, and nothing was entered or deleted under `k` since.
   */
  lemma {:induction false} SoundExactly(cidr: Cidr, run: seq<State>, steps: seq<Step>, j: nat, k: string)
    requires cidr.ones <= 32 && IsRun(cidr, run, steps) && Initial(cidr, run[0]) && j <= |steps|
    ensures (k in run[j].conns ==> run[j].conns[k] in run[j].handlers && Running(run[j].handlers[run[j].conns[k]]))
       <==> forall m :: !Leaked(run, steps, m, j, k)
  {
    if k in run[j].conns {
      var c := run[j].conns[k];
      var i := HoldsLive(cidr, run, steps, j, c, k);
      StaysIn(cidr, run, steps, i, j, c);
      if !Running(run[j].handlers[c]) {
        var m := LeakFound(cidr, run, steps, j, k, c);
      }
    }
    if m: nat :| Leaked(run, steps, m, j, k) {
      LeakedHolds(cidr, run, steps, m, j, k);
      var c := steps[m].c;
      assert Takes(cidr, run, steps, m);
      RunHandlers(cidr, run, steps, m, c);
      StaysIn(cidr, run, steps, m + 1, j, c);
    }
  }

  // ----- completeness, exactly -----

  /** Step `m`, another connection's, enters that connection under `k` or deletes `k`. */
  predicate Displaces(run: seq<State>, steps: seq<Step>, m: nat, c: nat, k: string)
    requires m < |steps| && m < |run|
  {
    steps[m].c != c && (Joins(run, steps, m, k) || Deletes(run, steps, m, k))
  }

  ghost predicate Undisplaced(run: seq<State>, steps: seq<Step>, i: int, j: nat, c: nat, k: string)
    requires |run| == |steps| + 1 && j <= |steps|
  {
    && 0 <= i < j && steps[i].c == c && Joins(run, steps, i, k)
    && forall m :: i < m < j ==> !Displaces(run, steps, m, c, k)
  }

  /** A running connection that joined and was not displaced is live from its last join. */
  lemma {:induction false} LastJoin(cidr: Cidr, run: seq<State>, steps: seq<Step>, i: nat, j: nat, c: nat, k: string)
    requires cidr.ones <= 32 && IsRun(cidr, run, steps) && j <= |steps| && Undisplaced(run, steps, i, j, c, k)
    requires c in run[j].handlers && Running(run[j].handlers[c])
    ensures Holds(run[j], k, c)
  {
    StepHolds(cidr, run, steps, j - 1, c, k);
    if i < j - 1 {
      StaysIn(cidr, run, steps, i, j - 1, c);
      RunHandlers(cidr, run, steps, j - 1, c);
      LastJoin(cidr, run, steps, i, j - 1, c, k);
      assert !Displaces(run, steps, j - 1, c, k);
    }
  }

  /**
   * A running connection is found under `k`, its own key or any other, exactly if it was entered under `k` and since
   * then no other connection was entered under `k` and no other connection with last key `k` was closed.
   */
  lemma {:induction false} CompleteExactly(cidr: Cidr, run: seq<State>, steps: seq<Step>, j: nat, c: nat, k: string)
    requires cidr.ones <= 32 && IsRun(cidr, run, steps) && Initial(cidr, run[0]) && j <= |steps|
    requires c in run[j].handlers && Running(run[j].handlers[c])
    ensures Holds(run[j], k, c) <==> exists i :: Undisplaced(run, steps, i, j, c, k)
  {
    if Holds(run[j], k, c) {
      var i := HoldsLive(cidr, run, steps, j, c, k);
      assert Undisplaced(run, steps, i, j, c, k);
    }
    if i: nat :| Undisplaced(run, steps, i, j, c, k) {
      LastJoin(cidr, run, steps, i, j, c, k);
    }
  }

  // ----- disciplines -----

  /** The connection registers at most one key, and not the empty one. */
  ghost predicate OneKey(s: State, step: Step) {
    step.ReadRegister? && step.c in s.handlers ==>
      step.p.publicKey != "" && s.handlers[step.c].publicKey in {"", step.p.publicKey}
  }

  /** Connections that use the same key do not overlap. */
  ghost predicate Alone(s: State, step: Step) {
    step.ReadRegister? ==>
      forall c :: c in s.handlers && c != step.c && s.handlers[c].phase != Closed ==>
        s.handlers[c].publicKey != step.p.publicKey
  }

  /** The key a registration in progress works for is the handler's own. */
  ghost predicate PhaseKeys(s: State) {
    forall c :: c in s.handlers ==> HandlerKeys(s.handlers[c])
  }

  predicate HandlerKeys(h: Handler) {
    && (h.phase.Registering? || h.phase.Allocated? || h.phase.Stored? || h.phase.Joined? || h.phase.Replying? ==>
          h.phase.p.publicKey == h.publicKey != "")
    && (h.inserted ==> h.publicKey != "")
  }

  /** Every entry of `conns` belongs to a handler that still runs and registered that key. */
  ghost predicate ConnsSound(s: State) {
    forall k :: k in s.conns ==>
      k != "" && s.conns[k] in s.handlers && Running(s.handlers[s.conns[k]]) && s.handlers[s.conns[k]].publicKey == k
  }

  /** No two running handlers share a key. */
  ghost predicate KeysApart(s: State) {
    forall c, d :: c in s.handlers && d in s.handlers && c != d && Running(s.handlers[c]) && Running(s.handlers[d]) ==>
      s.handlers[c].publicKey != s.handlers[d].publicKey || s.handlers[c].publicKey == ""
  }

  /** Every running handler that reached the insertion is in `conns`. */
  ghost predicate ConnsComplete(s: State) {
    forall c :: c in s.handlers && Running(s.handlers[c]) && s.handlers[c].inserted ==>
      s.handlers[c].publicKey in s.conns && s.conns[s.handlers[c].publicKey] == c
  }

  ghost predicate OneKeyUntil(run: seq<State>, steps: seq<Step>, j: nat)
    requires j <= |steps| && j <= |run|
  {
    forall i :: 0 <= i < j ==> OneKey(run[i], steps[i])
  }

  ghost predicate AloneUntil(run: seq<State>, steps: seq<Step>, j: nat)
    requires j <= |steps| && j <= |run|
  {
    forall i :: 0 <= i < j ==> Alone(run[i], steps[i])
  }

  /** The same of one connection alone, whatever the others do. */
  ghost predicate OneKeyOf(run: seq<State>, steps: seq<Step>, j: nat, c: nat)
    requires j <= |steps| && j <= |run|
  {
    forall i :: 0 <= i < j && steps[i].c == c ==> OneKey(run[i], steps[i])
  }

  /** The entries of `conns` that lead to this connection are under its own key. */
  ghost predicate OwnEntries(s: State, c: nat) {
    && (c in s.handlers ==> HandlerKeys(s.handlers[c]))
    && forall k :: Holds(s, k, c) ==> c in s.handlers && k == s.handlers[c].publicKey != ""
  }

  lemma {:induction false} StepKeepsOwn(cidr: Cidr, s: State, step: Step, c: nat)
    requires cidr.ones <= 32 && Enabled(cidr, s, step) && (step.c == c ==> OneKey(s, step)) && OwnEntries(s, c)
    ensures OwnEntries(Apply(s, step), c)
  {
    var t := Apply(s, step);
    if c in s.handlers {
      assert HandlerKeys(s.handlers[c]);
      StepHandlers(cidr, s, step, c);
    }
    forall k | Holds(t, k, c)
      ensures c in t.handlers && k == t.handlers[c].publicKey != ""
    {
      if !Holds(s, k, c) {
        assert step.Join? && step.c == c;
      }
    }
  }

  /** Over every run: a connection that registers one non-empty key is entered under no other. */
  lemma {:induction false} OwnAlong(cidr: Cidr, run: seq<State>, steps: seq<Step>, j: nat, c: nat)
    requires cidr.ones <= 32 && IsRun(cidr, run, steps) && Initial(cidr, run[0]) && j <= |steps|
    requires OneKeyOf(run, steps, j, c)
    ensures OwnEntries(run[j], c)
  {
    if j > 0 {
      OwnAlong(cidr, run, steps, j - 1, c);
      assert Takes(cidr, run, steps, j - 1);
      StepKeepsOwn(cidr, run[j - 1], steps[j - 1], c);
    }
  }

  lemma {:induction false} StepKeepsKeysApart(cidr: Cidr, s: State, step: Step)
    requires cidr.ones <= 32 && Enabled(cidr, s, step) && Alone(s, step) && KeysApart(s)
    ensures KeysApart(Apply(s, step))
  {
    var t := Apply(s, step);
    if step.Connect? {
      assert t.handlers == s.handlers[step.c := Handler(step.remoteHost, "", Reading, false)];
    } else {
      StepHandlers(cidr, s, step, step.c);
      assert t.handlers == s.handlers[step.c := t.handlers[step.c]];
    }
  }

  lemma {:induction false} KeysApartAlong(cidr: Cidr, run: seq<State>, steps: seq<Step>, j: nat)
    requires cidr.ones <= 32 && IsRun(cidr, run, steps) && Initial(cidr, run[0]) && j <= |steps|
    requires AloneUntil(run, steps, j)
    ensures KeysApart(run[j])
  {
    if j > 0 {
      KeysApartAlong(cidr, run, steps, j - 1);
      assert Takes(cidr, run, steps, j - 1);
      StepKeepsKeysApart(cidr, run[j - 1], steps[j - 1]);
    }
  }

  /** A key, once registered, stays the connection's. */
  lemma {:induction false} KeyStays(cidr: Cidr, run: seq<State>, steps: seq<Step>, i: nat, j: nat, c: nat)
    requires cidr.ones <= 32 && IsRun(cidr, run, steps) && i <= j <= |steps| && OneKeyOf(run, steps, j, c)
    requires c in run[i].handlers && run[i].handlers[c].publicKey != ""
    ensures c in run[j].handlers && run[j].handlers[c].publicKey == run[i].handlers[c].publicKey
    decreases j
  {
    if i < j {
      KeyStays(cidr, run, steps, i, j - 1, c);
      RunHandlers(cidr, run, steps, j - 1, c);
      assert steps[j - 1].c == c ==> OneKey(run[j - 1], steps[j - 1]);
    }
  }

  /** With one key per connection no close leaks, so every entry is sound. */
  lemma {:induction false} EntrySound(cidr: Cidr, run: seq<State>, steps: seq<Step>, j: nat, k: string)
    requires cidr.ones <= 32 && IsRun(cidr, run, steps) && Initial(cidr, run[0]) && j <= |steps|
    requires k in run[j].conns && OneKeyOf(run, steps, j, run[j].conns[k])
    ensures var c := run[j].conns[k];
            k != "" && c in run[j].handlers && Running(run[j].handlers[c]) && run[j].handlers[c].publicKey == k
  {
    var c := run[j].conns[k];
    OwnAlong(cidr, run, steps, j, c);
    assert Holds(run[j], k, c);
    if !Running(run[j].handlers[c]) {
      var m := LeakFound(cidr, run, steps, j, k, c);
      var from := HoldsLive(cidr, run, steps, m, c, k);
      LiveHolds(cidr, run, steps, from, m, c, k);
      OwnAlong(cidr, run, steps, m, c);
      assert false;
    }
  }

  /** An inserted connection was inserted by some step. */
  lemma {:induction false} InsertedAt(cidr: Cidr, run: seq<State>, steps: seq<Step>, j: nat, c: nat) returns (i: nat)
    requires cidr.ones <= 32 && IsRun(cidr, run, steps) && Initial(cidr, run[0]) && j <= |steps|
    requires c in run[j].handlers && run[j].handlers[c].inserted
    ensures i < j && Takes(cidr, run, steps, i) && steps[i].Join? && steps[i].c == c
  {
    assert Takes(cidr, run, steps, j - 1);
    assert c in run[j - 1].handlers;
    RunHandlers(cidr, run, steps, j - 1, c);
    if run[j - 1].handlers[c].inserted {
      i := InsertedAt(cidr, run, steps, j - 1, c);
    } else {
      i := j - 1;
    }
  }

  /** While connections with one key do not overlap, nothing displaces a running one. */
  lemma {:induction false} NotDisplaced(cidr: Cidr, run: seq<State>, steps: seq<Step>, m: nat, j: nat, c: nat,
                                        k: string)
    requires cidr.ones <= 32 && IsRun(cidr, run, steps) && Initial(cidr, run[0]) && m < j <= |steps|
    requires OneKeyUntil(run, steps, j) && AloneUntil(run, steps, j)
    requires c in run[m].handlers && run[m].handlers[c].publicKey == k != "" && c in run[j].handlers
    requires Running(run[j].handlers[c])
    ensures !Displaces(run, steps, m, c, k)
  {
    StaysIn(cidr, run, steps, m, j, c);
    KeysApartAlong(cidr, run, steps, m);
    assert Takes(cidr, run, steps, m);
    OwnAlong(cidr, run, steps, m, steps[m].c);
  }

  lemma {:induction false} EntryComplete(cidr: Cidr, run: seq<State>, steps: seq<Step>, j: nat, c: nat)
    requires cidr.ones <= 32 && IsRun(cidr, run, steps) && Initial(cidr, run[0]) && j <= |steps|
    requires OneKeyUntil(run, steps, j) && AloneUntil(run, steps, j)
    requires c in run[j].handlers && Running(run[j].handlers[c]) && run[j].handlers[c].inserted
    ensures Holds(run[j], run[j].handlers[c].publicKey, c)
  {
    var i := InsertedAt(cidr, run, steps, j, c);
    OwnAlong(cidr, run, steps, i, c);
    KeyStays(cidr, run, steps, i, j, c);
    var k := run[j].handlers[c].publicKey;
    forall m | i < m < j
      ensures !Displaces(run, steps, m, c, k)
    {
      KeyStays(cidr, run, steps, i, m, c);
      NotDisplaced(cidr, run, steps, m, j, c, k);
    }
    assert Undisplaced(run, steps, i, j, c, k);
    CompleteExactly(cidr, run, steps, j, c, k);
  }

  /** Over every run in which each connection registers one non-empty key. */
  lemma {:induction false} ConnectionMap(cidr: Cidr, run: seq<State>, steps: seq<Step>, j: nat)
    requires cidr.ones <= 32 && IsRun(cidr, run, steps) && Initial(cidr, run[0]) && j <= |steps|
    requires OneKeyUntil(run, steps, j)
    ensures PhaseKeys(run[j]) && ConnsSound(run[j])
    ensures AloneUntil(run, steps, j) ==> ConnsComplete(run[j]) && KeysApart(run[j])
  {
    forall c | c in run[j].handlers
      ensures HandlerKeys(run[j].handlers[c])
    {
      OwnAlong(cidr, run, steps, j, c);
    }
    forall k | k in run[j].conns
      ensures k != "" && run[j].conns[k] in run[j].handlers
      ensures Running(run[j].handlers[run[j].conns[k]]) && run[j].handlers[run[j].conns[k]].publicKey == k
    {
      EntrySound(cidr, run, steps, j, k);
    }
    if AloneUntil(run, steps, j) {
      KeysApartAlong(cidr, run, steps, j);
      forall c | c in run[j].handlers && Running(run[j].handlers[c]) && run[j].handlers[c].inserted
        ensures Holds(run[j], run[j].handlers[c].publicKey, c)
      {
        EntryComplete(cidr, run, steps, j, c);
      }
    }
  }
}
