/** Every run of create, open, expand and close over the table: the state machine that the
    operations on a volume step through (see Sessions). */
module Heap {
  import opened Chains

  /** One file: its chain, and while it is open the handle's cluster index and cluster_change. */
  datatype Session = Session(chain: Chain, pos: nat, change: int, open: bool)

  /** The table, the files, and the free count kept in the FSInfo sector. */
  datatype State = State(t: Table, files: seq<Session>, info: int)

  datatype Step =
    | Create            // FileCreate
    | Open(f: nat)      // FileOpen of a file nobody holds open
    | Advance(f: nat)   // FileNextSectorExpand across a cluster boundary
    | Close(f: nat)     // FileWriteEnd

  predicate Enabled(g: Shape, s: State, step: Step)
    requires g.Valid() && g.clusterLimit <= |s.t|
  {
    match step
    case Create => HasFree(g, s.t)
    case Open(f) => f < |s.files| && !s.files[f].open
    case Advance(f) =>
      && f < |s.files| && s.files[f].open && s.files[f].pos < |s.files[f].chain|
      && (s.files[f].pos + 1 == |s.files[f].chain| ==> HasFree(g, s.t))
    case Close(f) => f < |s.files| && s.files[f].open && s.files[f].pos < |s.files[f].chain|
  }

  /** Handles follow links of the table, so every cluster of a file is one of its entries. */
  ghost predicate InTable(s: State) {
    forall f :: 0 <= f < |s.files| ==> forall k :: 0 <= k < |s.files[f].chain| ==> s.files[f].chain[k] < |s.t|
  }

  ghost function Apply(g: Shape, s: State, step: Step): (r: State)
    requires g.Valid() && g.clusterLimit <= |s.t| && Enabled(g, s, step) && InTable(s)
  {
    match step
    case Create =>
      var n := LowestFree(s.t, 2);
      s.(t := Allocate(g, s.t, n), files := s.files + [Session([n], 0, 1, true)])
    case Open(f) =>
      s.(files := s.files[f := s.files[f].(pos := 0, change := 0, open := true)])
    case Advance(f) =>
      var h := s.files[f];
      if h.pos + 1 < |h.chain| then
        s.(files := s.files[f := h.(pos := h.pos + 1)])
      else
        var n := LowestFree(s.t, 2);
        s.(t := AppendTable(g, s.t, h.chain[|h.chain| - 1], n),
           files := s.files[f := Session(h.chain + [n], h.pos + 1, h.change + 1, true)])
    case Close(f) =>
      var h := s.files[f];
      var change := h.change - (|h.chain| - h.pos - 1);
      State(CutTable(g, s.t, h.chain, h.pos),
            s.files[f := Session(h.chain[..h.pos + 1], 0, 0, false)],
            s.info - change)
  }

  /** Clusters taken by open handles and not yet reported to the FSInfo sector. */
  function Pending(files: seq<Session>): int {
    if |files| == 0 then 0
    else Pending(files[..|files| - 1]) + if files[|files| - 1].open then files[|files| - 1].change else 0
  }

  /** Chains are EOC-terminated and pairwise disjoint, open handles stand on their chain, and the
      free count plus what is still pending is the number reported to FSInfo. */
  ghost predicate Ok(g: Shape, s: State) {
    && g.Valid() && g.clusterLimit <= |s.t|
    && (forall f :: 0 <= f < |s.files| ==> IsChain(g, s.t, s.files[f].chain))
    && (forall e, f :: 0 <= e < f < |s.files| ==> Disjoint(s.files[e].chain, s.files[f].chain))
    && (forall f :: 0 <= f < |s.files| && s.files[f].open ==> s.files[f].pos < |s.files[f].chain|)
    && s.info == FreeCount(s.t, g.clusterLimit) + Pending(s.files)
  }

  lemma {:induction false} PendingUpdate(files: seq<Session>, f: nat, h: Session)
    requires f < |files|
    ensures Pending(files[f := h]) == Pending(files)
            - (if files[f].open then files[f].change else 0) + (if h.open then h.change else 0)
  {
    var last := |files| - 1;
    if f == last {
      assert files[f := h][..last] == files[..last];
    } else {
      assert files[f := h][..last] == files[..last][f := h];
      PendingUpdate(files[..last], f, h);
    }
  }

  lemma CreateKeepsOk(g: Shape, s: State)
    requires Ok(g, s) && Enabled(g, s, Create)
    ensures Ok(g, Apply(g, s, Create))
  {
    var n := LowestFree(s.t, 2);
    var r := Apply(g, s, Create);
    AllocateMakesChain(g, s.t, n);
    forall f | 0 <= f < |s.files|
      ensures IsChain(g, r.t, s.files[f].chain) && Disjoint(s.files[f].chain, [n])
    {
      FreshIsUnowned(g, s.t, s.files[f].chain, n);
      ChainFrame(g, s.t, r.t, s.files[f].chain);
    }
    FreeCountUpdate(s.t, g.clusterLimit, n, g.Eoc());
    assert r.files[..|s.files|] == s.files;
  }

  lemma AppendKeepsOk(g: Shape, s: State, f: nat)
    requires Ok(g, s) && Enabled(g, s, Advance(f)) && s.files[f].pos + 1 == |s.files[f].chain|
    ensures Ok(g, Apply(g, s, Advance(f)))
  {
    var h, n := s.files[f], LowestFree(s.t, 2);
    var last := h.chain[|h.chain| - 1];
    var r := Apply(g, s, Advance(f));
    AppendExtendsChain(g, s.t, h.chain, n);
    assert last in h.chain;
    forall e | 0 <= e < |s.files| && e != f
      ensures IsChain(g, r.t, s.files[e].chain)
      ensures Disjoint(s.files[e].chain, r.files[f].chain) && Disjoint(r.files[f].chain, s.files[e].chain)
    {
      FreshIsUnowned(g, s.t, s.files[e].chain, n);
      assert last !in s.files[e].chain;
      ChainFrame(g, s.t, r.t, s.files[e].chain);
    }
    FreeCountUpdate(s.t, g.clusterLimit, n, g.Eoc());
    ChainEntriesUsed(g, s.t, h.chain, last);
    FreeCountUpdate(Allocate(g, s.t, n), g.clusterLimit, last, n);
    PendingUpdate(s.files, f, r.files[f]);
  }

  lemma CloseKeepsOk(g: Shape, s: State, f: nat)
    requires Ok(g, s) && Enabled(g, s, Close(f))
    ensures Ok(g, Apply(g, s, Close(f)))
  {
    var h := s.files[f];
    var r := Apply(g, s, Close(f));
    CutShortensChain(g, s.t, h.chain, h.pos);
    forall x | x in r.files[f].chain
      ensures x in h.chain
    {
    }
    forall e | 0 <= e < |s.files| && e != f
      ensures IsChain(g, r.t, s.files[e].chain)
      ensures Disjoint(s.files[e].chain, r.files[f].chain) && Disjoint(r.files[f].chain, s.files[e].chain)
    {
      assert Disjoint(s.files[e].chain, h.chain);
      ChainFrame(g, s.t, r.t, s.files[e].chain);
    }
    CutFrees(g, s.t, h.chain, h.pos);
    PendingUpdate(s.files, f, r.files[f]);
  }

  lemma StepKeepsOk(g: Shape, s: State, step: Step)
    requires Ok(g, s) && Enabled(g, s, step)
    ensures Ok(g, Apply(g, s, step))
    ensures |s.files| <= |Apply(g, s, step).files|
    ensures forall f :: 0 <= f < |s.files| && (step.Create? || step.f != f) ==>
              Apply(g, s, step).files[f] == s.files[f]
  {
    match step
    case Create => CreateKeepsOk(g, s);
    case Open(f) => PendingUpdate(s.files, f, Apply(g, s, step).files[f]);
    case Advance(f) =>
      if s.files[f].pos + 1 < |s.files[f].chain| {
        PendingUpdate(s.files, f, Apply(g, s, step).files[f]);
      } else {
        AppendKeepsOk(g, s, f);
      }
    case Close(f) => CloseKeepsOk(g, s, f);
  }

  /** The states reached by a run, with every step enabled where it is taken. */
  ghost predicate IsRun(g: Shape, states: seq<State>, steps: seq<Step>) {
    && |states| == |steps| + 1
    && forall i :: 0 <= i < |steps| ==> StepsTo(g, states[i], steps[i], states[i + 1])
  }

  ghost predicate StepsTo(g: Shape, s: State, step: Step, r: State) {
    && g.Valid() && g.clusterLimit <= |s.t|
    && InTable(s) && Enabled(g, s, step) && r == Apply(g, s, step)
  }

  /** Safety over whole runs: acyclic, disjoint, EOC-terminated chains and a conserved free count. */
  lemma {:induction false} RunKeepsOk(g: Shape, states: seq<State>, steps: seq<Step>)
    requires IsRun(g, states, steps) && Ok(g, states[0])
    ensures forall i :: 0 <= i < |states| ==> Ok(g, states[i])
    decreases |steps|
  {
    if |steps| > 0 {
      var k := |steps| - 1;
      forall i | 0 <= i < k
        ensures StepsTo(g, states[..k + 1][i], steps[..k][i], states[..k + 1][i + 1])
      {
        assert StepsTo(g, states[i], steps[i], states[i + 1]);
      }
      RunKeepsOk(g, states[..k + 1], steps[..k]);
      assert Ok(g, states[k]) by { assert states[..k + 1][k] == states[k]; }
      assert StepsTo(g, states[k], steps[k], states[k + 1]);
      StepKeepsOk(g, states[k], steps[k]);
      forall i | 0 <= i < |states|
        ensures Ok(g, states[i])
      {
        if i <= k { assert states[..k + 1][i] == states[i]; }
      }
    }
  }

  /** Once every handle is closed the FSInfo sector holds the true free count again. */
  lemma {:induction false} ClosedMeansNothingPending(files: seq<Session>)
    requires forall f :: 0 <= f < |files| ==> !files[f].open
    ensures Pending(files) == 0
  {
    if |files| > 0 { ClosedMeansNothingPending(files[..|files| - 1]); }
  }

  lemma RunRestoresFreeCount(g: Shape, states: seq<State>, steps: seq<Step>)
    requires IsRun(g, states, steps) && Ok(g, states[0])
    requires forall f :: 0 <= f < |states[|steps|].files| ==> !states[|steps|].files[f].open
    ensures Ok(g, states[|steps|])
    ensures states[|steps|].info == FreeCount(states[|steps|].t, g.clusterLimit)
  {
    RunKeepsOk(g, states, steps);
    ClosedMeansNothingPending(states[|steps|].files);
  }
}
