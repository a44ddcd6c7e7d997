/** Module loads seen by the LoadLibrary wrappers, and the patch body that must run at most once. */
module LoadOnce {
  import opened Words

  /** One call of a hooked LoadLibrary function: the handle it got, whether that handle's file is TerSafe.dll,
      and the loads that the real function made, through the hooks, while it ran. */
  datatype Load = Load(handle: Word, named: bool, nested: seq<Load>)

  /** Some load in the run returns a real handle of TerSafe. */
  predicate SeesTerSafe(ls: seq<Load>)
    decreases ls
  {
    ls != [] && (SeesTerSafe(ls[0].nested) || (ls[0].handle != 0 && ls[0].named) || SeesTerSafe(ls[1..]))
  }

  /** `l` is one of the loads, or is made while one of them is at work. */
  predicate Within(l: Load, ls: seq<Load>)
    decreases ls
  {
    exists i :: 0 <= i < |ls| && (l == ls[i] || Within(l, ls[i].nested))
  }

  /** TerSafe is seen if and only if some load, at any depth, returns a real handle of it. */
  lemma {:induction false} SeenExactlyWhen(ls: seq<Load>)
    ensures SeesTerSafe(ls) <==> exists l :: Within(l, ls) && l.handle != 0 && l.named
    decreases ls
  {
    if ls != [] {
      SeenExactlyWhen(ls[0].nested);
      SeenExactlyWhen(ls[1..]);
      forall l ensures Within(l, ls) <==> l == ls[0] || Within(l, ls[0].nested) || Within(l, ls[1..]) {
        WithinSplit(l, ls);
      }
    }
  }

  lemma WithinSplit(l: Load, ls: seq<Load>)
    requires ls != []
    ensures Within(l, ls) <==> l == ls[0] || Within(l, ls[0].nested) || Within(l, ls[1..])
  {
    if i :| 0 <= i < |ls| && (l == ls[i] || Within(l, ls[i].nested)) && i > 0 {
      assert ls[1..][i - 1] == ls[i];
    }
    if i :| 0 <= i < |ls[1..]| && (l == ls[1..][i] || Within(l, ls[1..][i].nested)) {
      assert ls[i + 1] == ls[1..][i];
    }
  }

  /** The number of loads, nested ones included. */
  function Weight(ls: seq<Load>): nat
    decreases ls
  {
    if ls == [] then 0 else 1 + Weight(ls[0].nested) + Weight(ls[1..])
  }

  class Wrappers {
    /** The loads that the patch body itself makes (it calls CreateObj, which is TerSafe's code). */
    const body: seq<Load>
    /** std::once_flag: the body has finished, or is at work */
    var done: bool
    var running: bool
    /** How often the patch body has been entered. */
    var runs: nat

    constructor (body: seq<Load>)
      ensures this.body == body && !done && !running && runs == 0
    {
      this.body := body;
      done, running, runs := false, false, 0;
    }

    function Budget(): nat
      reads this
    {
      if done || running then 0 else 1
    }

    /** `stuck` when call_once is entered again from inside its own body, and so never returns. */
    method OnModuleLoaded(handle: Word, named: bool) returns (stuck: bool)
      modifies this
      ensures var sees := handle != 0 && named;
              && (stuck <==> !old(done) && sees && (old(running) || SeesTerSafe(body)))
              && (!stuck ==> running == old(running) && done == (old(done) || sees))
              && runs == old(runs) + if !old(done) && !old(running) && sees then 1 else 0
      decreases Budget(), 0, 0
    {
      if handle == 0 || !named || done { return false; }
      if running { return true; }
      running, runs := true, runs + 1;
      stuck := LoadAll(body);
      if !stuck {
        running, done := false, true;
      }
    }

    /** Any of the four wrappers: the real function first, then the check of what it returned. */
    method LoadLibrary(l: Load) returns (stuck: bool)
      modifies this
      ensures stuck <==> !old(done) && SeesTerSafe([l]) && (old(running) || SeesTerSafe(body))
      ensures !stuck ==> running == old(running) && done == (old(done) || SeesTerSafe([l]))
      ensures runs == old(runs) + if !old(done) && !old(running) && SeesTerSafe([l]) then 1 else 0
      decreases Budget(), 1 + Weight(l.nested), 0
    {
      assert [l][1..] == [];
      stuck := LoadAll(l.nested);
      if !stuck {
        stuck := OnModuleLoaded(l.handle, l.named);
      }
    }

    method LoadAll(ls: seq<Load>) returns (stuck: bool)
      modifies this
      ensures stuck <==> !old(done) && SeesTerSafe(ls) && (old(running) || SeesTerSafe(body))
      ensures !stuck ==> running == old(running) && done == (old(done) || SeesTerSafe(ls))
      ensures runs == old(runs) + if !old(done) && !old(running) && SeesTerSafe(ls) then 1 else 0
      decreases Budget(), Weight(ls), 1
    {
      if ls == [] { return false; }
      assert [ls[0]][1..] == [];
      stuck := LoadLibrary(ls[0]);
      if !stuck {
        stuck := LoadAll(ls[1..]);
      }
    }
  }

  /** Over any sequence of top-level loads the body is entered once if TerSafe is ever loaded, else never; and the
      process hangs if and only if the body then loads TerSafe itself. */
  method RunLoads(loads: seq<Load>, body: seq<Load>) returns (runs: nat, stuck: bool)
    ensures runs == if SeesTerSafe(loads) then 1 else 0
    ensures stuck <==> SeesTerSafe(loads) && SeesTerSafe(body)
  {
    var w := new Wrappers(body);
    stuck := w.LoadAll(loads);
    runs := w.runs;
  }
}
