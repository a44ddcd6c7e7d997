/** Walking a command's subscriber list and reporting what changed since the command's last dispatch. */
module SubscriberDiff {
  import opened Words
  import opened Machine
  import opened Resolver
  import opened TreeSearch

  const SLOTS := 64
  const MAX_NODES := 16

  // --- the walk ---

  /** The nodes met from `node` on, at most `room` of them; an unreadable link ends the list. */
  ghost function NodesFrom(v: View, head: Word, node: Word, room: nat): (s: seq<Word>)
    ensures |s| <= room
    decreases room
  {
    if node == head || room == 0 then []
    else
      var next := Field(v, node, 0);
      [node] + if next.Some? then NodesFrom(v, head, next.value, room - 1) else []
  }

  /** `l` is the circular intrusive list from `p` back to `head`. */
  ghost predicate Circular(v: View, head: Word, p: Word, l: seq<Word>)
    decreases |l|
  {
    if l == [] then p == head
    else p == l[0] && p != head && Field(v, p, 0).Some? && Circular(v, head, Field(v, p, 0).value, l[1..])
  }

  function Shorter(n: nat, m: nat): nat {
    if n < m then n else m
  }

  /** On a well-formed list the walk yields the first sixteen nodes, in order. */
  lemma {:induction false} WalkOfCircular(v: View, head: Word, p: Word, l: seq<Word>, room: nat)
    requires Circular(v, head, p, l)
    ensures NodesFrom(v, head, p, room) == l[..Shorter(|l|, room)]
    decreases room
  {
    hide Field;
    if l != [] && room > 0 {
      var next := Field(v, p, 0).value;
      WalkOfCircular(v, head, next, l[1..], room - 1);
      assert NodesFrom(v, head, p, room) == [p] + NodesFrom(v, head, next, room - 1);
      assert [l[0]] + l[1..][..Shorter(|l| - 1, room - 1)] == l[..Shorter(|l|, room)];
    }
  }

  /** The walk of the source: None when the head itself cannot be read. */
  method Walk(mem: Memory, ghost v: View, readable: set<Word>, head: Word) returns (ok: bool, nodes: seq<Word>)
    requires v == View(mem, iset a: Word | a in readable)
    ensures ok <==> Field(v, head, 0).Some?
    ensures ok ==> nodes == NodesFrom(v, head, Field(v, head, 0).value, 16)
    ensures |nodes| <= 16
  {
    hide Field, NodesFrom;
    nodes := [];
    var first;
    ok, first := TryField(mem, v, readable, head, 0);
    if !ok { return; }
    ghost var all := NodesFrom(v, head, first, MAX_NODES);
    var node := first;
    while node != head && |nodes| < MAX_NODES
      invariant |nodes| <= MAX_NODES
      invariant all == nodes + NodesFrom(v, head, node, MAX_NODES - |nodes|)
      decreases MAX_NODES - |nodes|
    {
      WalkStep(v, head, node, nodes, all);
      nodes := nodes + [node];
      var more, next := TryField(mem, v, readable, node, 0);
      if !more { return; }
      node := next;
    }
    WalkEnd(v, head, node, MAX_NODES - |nodes|);
  }

  lemma WalkStep(v: View, head: Word, node: Word, seen: seq<Word>, all: seq<Word>)
    requires node != head && |seen| < MAX_NODES
    requires all == seen + NodesFrom(v, head, node, MAX_NODES - |seen|)
    ensures Field(v, node, 0).None? ==> all == seen + [node]
    ensures Field(v, node, 0).Some? ==>
              all == seen + [node] + NodesFrom(v, head, Field(v, node, 0).value, MAX_NODES - |seen + [node]|)
  {
    hide Field, NodesFrom;
    NodesStep(v, head, node, MAX_NODES - |seen|);
  }

  lemma NodesStep(v: View, head: Word, node: Word, room: nat)
    requires node != head && room > 0
    ensures var next := Field(v, node, 0);
            NodesFrom(v, head, node, room) == [node] + if next.Some? then NodesFrom(v, head, next.value, room - 1) else []
  {
    hide Field;
  }

  lemma WalkEnd(v: View, head: Word, node: Word, room: nat)
    requires node == head || room == 0
    ensures NodesFrom(v, head, node, room) == []
  {
  }

  /** What a walk yields on any memory: the nodes as the links lead, none of them the head, up to the head, a link that
      cannot be read, or `room` nodes. */
  lemma {:induction false} WalkFollowsLinks(v: View, head: Word, node: Word, room: nat)
    ensures var s := NodesFrom(v, head, node, room);
            && (s == [] <==> node == head || room == 0) && (s != [] ==> s[0] == node)
            && (forall i :: 0 <= i < |s| ==> s[i] != head)
            && (forall i :: 0 <= i < |s| - 1 ==> Field(v, s[i], 0) == Some(s[i + 1]))
            && |s| <= room && (0 < |s| < room ==> Field(v, s[|s| - 1], 0) in {None, Some(head)})
    decreases room
  {
    hide Field;
    if node != head && room > 0 {
      var next := Field(v, node, 0);
      if next.Some? {
        WalkFollowsLinks(v, head, next.value, room - 1);
        var rest := NodesFrom(v, head, next.value, room - 1);
        assert NodesFrom(v, head, node, room) == [node] + rest;
      } else {
        assert NodesFrom(v, head, node, room) == [node];
      }
    }
  }

  // --- the events ---

  datatype Event = Reg(cmd: Word, node: Word) | Unreg(cmd: Word, node: Word)

  /** The nodes of `a` that are not in `b`, in order, as events. */
  function Appeared(cmd: Word, a: seq<Word>, b: seq<Word>): seq<Event> {
    if a == [] then [] else
    Appeared(cmd, a[..|a| - 1], b) + if a[|a| - 1] in b then [] else [Reg(cmd, a[|a| - 1])]
  }

  function Vanished(cmd: Word, a: seq<Word>, b: seq<Word>): seq<Event> {
    if a == [] then [] else
    Vanished(cmd, a[..|a| - 1], b) + if a[|a| - 1] in b then [] else [Unreg(cmd, a[|a| - 1])]
  }

  function Diff(cmd: Word, was: seq<Word>, now: seq<Word>): seq<Event> {
    Appeared(cmd, now, was) + Vanished(cmd, was, now)
  }

  /** What a reader of the log believes after the events of one command. */
  function Replay(cmd: Word, es: seq<Event>, start: set<Word>): set<Word> {
    if es == [] then start else
    var s := Replay(cmd, es[..|es| - 1], start);
    var e := es[|es| - 1];
    if e.cmd != cmd then s else if e.Reg? then s + {e.node} else s - {e.node}
  }

  function NodeSet(s: seq<Word>): set<Word> {
    set x | x in s
  }

  lemma {:induction false} ReplayAppend(cmd: Word, a: seq<Event>, b: seq<Event>, start: set<Word>)
    ensures Replay(cmd, a + b, start) == Replay(cmd, b, Replay(cmd, a, start))
    decreases |b|
  {
    if b == [] {
      assert a + b == a;
    } else {
      ReplayAppend(cmd, a, b[..|b| - 1], start);
      assert (a + b)[..|a + b| - 1] == a + b[..|b| - 1];
    }
  }

  lemma {:induction false} ReplayAppeared(cmd: Word, a: seq<Word>, b: seq<Word>, start: set<Word>)
    ensures Replay(cmd, Appeared(cmd, a, b), start) == start + (NodeSet(a) - NodeSet(b))
    decreases |a|
  {
    if a != [] {
      var front, x := a[..|a| - 1], a[|a| - 1];
      ReplayAppeared(cmd, front, b, start);
      assert NodeSet(a) == NodeSet(front) + {x} by { assert a == front + [x]; }
      if x in b {
        assert Appeared(cmd, a, b) == Appeared(cmd, front, b);
      } else {
        ReplayAppend(cmd, Appeared(cmd, front, b), [Reg(cmd, x)], start);
        ReplayOne(cmd, Reg(cmd, x), start + (NodeSet(front) - NodeSet(b)));
      }
    }
  }

  lemma {:induction false} ReplayVanished(cmd: Word, a: seq<Word>, b: seq<Word>, start: set<Word>)
    ensures Replay(cmd, Vanished(cmd, a, b), start) == start - (NodeSet(a) - NodeSet(b))
    decreases |a|
  {
    if a != [] {
      var front, x := a[..|a| - 1], a[|a| - 1];
      ReplayVanished(cmd, front, b, start);
      assert NodeSet(a) == NodeSet(front) + {x} by { assert a == front + [x]; }
      if x in b {
        assert Vanished(cmd, a, b) == Vanished(cmd, front, b);
      } else {
        ReplayAppend(cmd, Vanished(cmd, front, b), [Unreg(cmd, x)], start);
        ReplayOne(cmd, Unreg(cmd, x), start - (NodeSet(front) - NodeSet(b)));
      }
    }
  }

  lemma ReplayOne(cmd: Word, e: Event, s: set<Word>)
    requires e.cmd == cmd
    ensures Replay(cmd, [e], s) == if e.Reg? then s + {e.node} else s - {e.node}
  {
    assert [e][..0] == [];
  }

  /** Replaying a diff over the old set gives exactly the new one, duplicates or not. */
  lemma ReplayDiff(cmd: Word, was: seq<Word>, now: seq<Word>)
    ensures Replay(cmd, Diff(cmd, was, now), NodeSet(was)) == NodeSet(now)
  {
    ReplayAppend(cmd, Appeared(cmd, now, was), Vanished(cmd, was, now), NodeSet(was));
    ReplayAppeared(cmd, now, was, NodeSet(was));
    ReplayVanished(cmd, was, now, NodeSet(was) + (NodeSet(now) - NodeSet(was)));
  }

  lemma {:induction false} OtherCommands(cmd: Word, other: Word, a: seq<Word>, b: seq<Word>, s: set<Word>)
    requires other != cmd
    ensures Replay(other, Appeared(cmd, a, b), s) == s && Replay(other, Vanished(cmd, a, b), s) == s
    decreases |a|
  {
    if a != [] {
      var front, x := a[..|a| - 1], a[|a| - 1];
      OtherCommands(cmd, other, front, b, s);
      ReplayAppend(other, Appeared(cmd, front, b), [Reg(cmd, x)], s);
      ReplayAppend(other, Vanished(cmd, front, b), [Unreg(cmd, x)], s);
      assert Appeared(cmd, front, b) + [] == Appeared(cmd, front, b) && Vanished(cmd, front, b) + [] == Vanished(cmd, front, b);
      assert [Reg(cmd, x)][..0] == [] && [Unreg(cmd, x)][..0] == [];
    }
  }

  /** Nothing is reported when nothing changed, and only then. */
  lemma {:induction false} QuietExactlyWhenSame(cmd: Word, was: seq<Word>, now: seq<Word>)
    ensures Diff(cmd, was, now) == [] <==> NodeSet(was) == NodeSet(now)
  {
    NoneMissing(cmd, was, now);
    NoneMissing(cmd, now, was);
  }

  lemma {:induction false} NoneMissing(cmd: Word, a: seq<Word>, b: seq<Word>)
    ensures Appeared(cmd, a, b) == [] <==> NodeSet(a) <= NodeSet(b)
    ensures Vanished(cmd, a, b) == [] <==> NodeSet(a) <= NodeSet(b)
    decreases |a|
  {
    if a != [] {
      var front, x := a[..|a| - 1], a[|a| - 1];
      NoneMissing(cmd, front, b);
      assert NodeSet(a) == NodeSet(front) + {x} by { assert a == front + [x]; }
    }
  }

  /** The positions of a list, in rising order, whose nodes are not in the other list. */
  predicate Missing(at: seq<nat>, a: seq<Word>, b: seq<Word>) {
    && (forall i :: 0 <= i < |at| ==> at[i] < |a| && a[at[i]] !in b)
    && (forall i, j :: 0 <= i < j < |at| ==> at[i] < at[j])
    && (forall p: nat :: p < |a| && a[p] !in b ==> p in at)
  }

  function EventOf(reg: bool, cmd: Word, node: Word): Event {
    if reg then Reg(cmd, node) else Unreg(cmd, node)
  }

  /** One event for the node at each of these positions. */
  predicate Told(es: seq<Event>, reg: bool, cmd: Word, a: seq<Word>, at: seq<nat>) {
    |es| == |at| && forall i :: 0 <= i < |at| ==> at[i] < |a| && es[i] == EventOf(reg, cmd, a[at[i]])
  }

  lemma MissingNone(reg: bool, cmd: Word, b: seq<Word>)
    ensures Missing([], [], b) && Told([], reg, cmd, [], [])
  {
  }

  lemma MissingGrows(at: seq<nat>, a: seq<Word>, b: seq<Word>, n: nat)
    requires |a| == n + 1 && Missing(at, a[..n], b)
    ensures Missing(if a[n] in b then at else at + [n], a, b)
  {
    assert forall p: nat :: p < n ==> a[..n][p] == a[p];
    if a[n] !in b {
      var more := at + [n];
      assert more[|at|] == n && forall i :: 0 <= i < |at| ==> more[i] == at[i];
    }
  }

  lemma ToldGrows(es: seq<Event>, reg: bool, cmd: Word, a: seq<Word>, at: seq<nat>, n: nat)
    requires |a| == n + 1 && Told(es, reg, cmd, a[..n], at)
    ensures Told(es, reg, cmd, a, at) && Told(es + [EventOf(reg, cmd, a[n])], reg, cmd, a, at + [n])
  {
    assert forall p: nat :: p < n ==> a[..n][p] == a[p];
  }

  lemma {:induction false} MissingTold(cmd: Word, a: seq<Word>, b: seq<Word>) returns (at: seq<nat>)
    ensures Missing(at, a, b)
    ensures Told(Appeared(cmd, a, b), true, cmd, a, at) && Told(Vanished(cmd, a, b), false, cmd, a, at)
    decreases |a|
  {
    hide Missing, Told;
    if a == [] {
      at := [];
      MissingNone(true, cmd, b);
      MissingNone(false, cmd, b);
    } else {
      var n := |a| - 1;
      at := MissingTold(cmd, a[..n], b);
      MissingGrows(at, a, b, n);
      ToldGrows(Appeared(cmd, a[..n], b), true, cmd, a, at, n);
      ToldGrows(Vanished(cmd, a[..n], b), false, cmd, a, at, n);
      if a[n] !in b {
        at := at + [n];
      } else {
        assert Appeared(cmd, a, b) == Appeared(cmd, a[..n], b) && Vanished(cmd, a, b) == Vanished(cmd, a[..n], b);
      }
    }
  }

  /** The report, in full: one Reg for every place of the new list whose node is not in the old one, in list order, and
      then one Unreg for every place of the old list whose node is not in the new one, in list order. */
  lemma DiffReports(cmd: Word, was: seq<Word>, now: seq<Word>) returns (came: seq<nat>, gone: seq<nat>)
    ensures Missing(came, now, was) && Missing(gone, was, now)
    ensures |Diff(cmd, was, now)| == |came| + |gone|
    ensures forall i :: 0 <= i < |came| ==> Diff(cmd, was, now)[i] == Reg(cmd, now[came[i]])
    ensures forall i :: 0 <= i < |gone| ==> Diff(cmd, was, now)[|came| + i] == Unreg(cmd, was[gone[i]])
  {
    hide Appeared, Vanished;
    came := MissingTold(cmd, now, was);
    gone := MissingTold(cmd, was, now);
    assert Diff(cmd, was, now) == Appeared(cmd, now, was) + Vanished(cmd, was, now);
  }

  /** An event is reported if and only if it is this command's Reg of a node that is new, or its Unreg of a node that is
      gone. */
  lemma ReportedExactlyWhen(cmd: Word, was: seq<Word>, now: seq<Word>, e: Event)
    ensures e in Diff(cmd, was, now) <==>
              e.cmd == cmd && if e.Reg? then e.node in now && e.node !in was else e.node in was && e.node !in now
  {
    var came, gone := DiffReports(cmd, was, now);
    hide Diff;
    var d := Diff(cmd, was, now);
    if e.cmd == cmd && e.Reg? && e.node in now && e.node !in was {
      var p: nat :| p < |now| && now[p] == e.node;
      var i :| 0 <= i < |came| && came[i] == p;
      assert d[i] == e;
    }
    if e.cmd == cmd && e.Unreg? && e.node in was && e.node !in now {
      var p: nat :| p < |was| && was[p] == e.node;
      var i :| 0 <= i < |gone| && gone[i] == p;
      assert d[|came| + i] == e;
    }
    if e in d {
      var i :| 0 <= i < |d| && d[i] == e;
      if i >= |came| {
        assert d[|came| + (i - |came|)] == Unreg(cmd, was[gone[i - |came|]]);
      }
    }
  }

  // --- the per-command cache ---

  /** cmd 0 marks an empty slot. */
  datatype CmdState = CmdState(cmd: Word, nodes: seq<Word>)

  ghost predicate CacheValid(s: seq<CmdState>) {
    && |s| == SLOTS
    && (forall i :: 0 <= i < SLOTS ==> |s[i].nodes| <= MAX_NODES)
    && (forall i, j :: 0 <= i < j < SLOTS && s[i].cmd != 0 ==> s[i].cmd != s[j].cmd)
  }

  ghost predicate Cached(s: seq<CmdState>, cmd: Word) {
    exists i :: 0 <= i < |s| && s[i].cmd == cmd
  }

  ghost function NodesOf(s: seq<CmdState>, cmd: Word): seq<Word> {
    if Cached(s, cmd) then var i :| 0 <= i < |s| && s[i].cmd == cmd; s[i].nodes else []
  }

  lemma NodesAt(s: seq<CmdState>, i: nat)
    requires CacheValid(s) && i < SLOTS && s[i].cmd != 0
    ensures Cached(s, s[i].cmd) && NodesOf(s, s[i].cmd) == s[i].nodes
  {
  }

  /** Writing one slot changes what is known of its command and of no other. */
  lemma SlotWritten(s: seq<CmdState>, i: nat, cmd: Word, nodes: seq<Word>)
    requires CacheValid(s) && i < SLOTS && cmd != 0 && |nodes| <= MAX_NODES
    requires s[i].cmd == cmd || (s[i].cmd == 0 && !Cached(s, cmd))
    ensures var s' := s[i := CmdState(cmd, nodes)];
            && CacheValid(s') && Cached(s', cmd) && NodesOf(s', cmd) == nodes
            && forall c :: c != 0 && c != cmd ==> (Cached(s', c) <==> Cached(s, c)) && NodesOf(s', c) == NodesOf(s, c)
  {
    var s' := s[i := CmdState(cmd, nodes)];
    NodesAt(s', i);
    forall c | c != 0 && c != cmd ensures (Cached(s', c) <==> Cached(s, c)) && NodesOf(s', c) == NodesOf(s, c) {
      assert forall j :: 0 <= j < SLOTS && j != i ==> s'[j] == s[j];
      assert s'[i].cmd != c && s[i].cmd != c;
      if Cached(s, c) {
        var j :| 0 <= j < SLOTS && s[j].cmd == c;
        NodesAt(s, j);
        NodesAt(s', j);
      }
    }
  }

  class DiffCache {
    const slots: array<CmdState>

    ghost predicate Valid()
      reads this, slots
    {
      slots.Length == SLOTS && CacheValid(slots[..])
    }

    constructor ()
      ensures Valid() && fresh(slots) && slots.Length == 64 && forall c :: c != 0 ==> !Cached(slots[..], c)
    {
      slots := new CmdState[SLOTS](i => CmdState(0, []));
    }

    /** path_b_diff_slot: the command's slot, else the first empty one, else -1. */
    method Slot(cmd: Word) returns (slot: int)
      requires Valid() && cmd != 0
      modifies slots
      ensures Valid() && -1 <= slot < SLOTS
      ensures slot == -1 <==> !old(Cached(slots[..], cmd)) && !old(Cached(slots[..], 0))
      ensures slot == -1 ==> slots[..] == old(slots[..])
      ensures slot >= 0 ==> slots[slot].cmd == cmd && slots[slot].nodes == old(NodesOf(slots[..], cmd))
      ensures slot >= 0 ==> slots[..] == old(slots[..])[slot := slots[slot]]
      ensures slot >= 0 && old(slots[slot].cmd) != cmd ==> forall j :: 0 <= j < slot ==> old(slots[j].cmd) != 0
      ensures slot >= 0 ==> old(slots[slot].cmd) == cmd || (old(slots[slot].cmd) == 0 && !old(Cached(slots[..], cmd)))
    {
      hide CacheValid, NodesOf;
      var free := -1;
      var i := 0;
      while i < SLOTS
        invariant 0 <= i <= SLOTS && Valid() && slots[..] == old(slots[..])
        invariant forall j :: 0 <= j < i ==> slots[..][j].cmd != cmd
        invariant free == -1 ==> forall j :: 0 <= j < i ==> slots[..][j].cmd != 0
        invariant free != -1 ==> 0 <= free < i && slots[free].cmd == 0 && forall j :: 0 <= j < free ==> slots[..][j].cmd != 0
      {
        if slots[i].cmd == cmd {
          NodesAt(slots[..], i);
          return i;
        }
        if slots[i].cmd == 0 && free == -1 { free := i; }
        i := i + 1;
      }
      if free >= 0 {
        EmptySlotTaken(slots[..], free, cmd);
        slots[free] := CmdState(cmd, []);
        assert slots[..] == old(slots[..])[free := CmdState(cmd, [])];
        return free;
      }
      return -1;
    }

    /** Membership by scanning, as in both inner loops. */
    method Contains(s: seq<Word>, x: Word) returns (found: bool)
      ensures found <==> x in s
    {
      var j := 0;
      while j < |s|
        invariant 0 <= j <= |s| && x !in s[..j]
      {
        if s[j] == x { return true; }
        j := j + 1;
      }
      return false;
    }

    /** path_b_diff_update: report, then remember at most sixteen nodes. */
    method Update(cmd: Word, nodes: seq<Word>) returns (events: seq<Event>)
      requires Valid() && cmd != 0
      modifies slots
      ensures Valid()
      ensures var known := old(Cached(slots[..], cmd)) || old(Cached(slots[..], 0));
              if known then
                && events == Diff(cmd, old(NodesOf(slots[..], cmd)), nodes)
                && Cached(slots[..], cmd) && NodesOf(slots[..], cmd) == (if |nodes| <= 16 then nodes else nodes[..16])
                && forall c :: c != 0 && c != cmd ==>
                     (Cached(slots[..], c) <==> old(Cached(slots[..], c))) && NodesOf(slots[..], c) == old(NodesOf(slots[..], c))
              else events == [] && slots[..] == old(slots[..])
    {
      hide CacheValid, NodesOf, Cached, Appeared, Vanished;
      events := [];
      ghost var before := slots[..];
      var slot := Slot(cmd);
      if slot == -1 { return; }
      var was := slots[slot].nodes;
      events := Report(cmd, was, nodes);
      var kept := nodes[..Shorter(|nodes|, MAX_NODES)];
      SlotWritten(before, slot, cmd, kept);
      slots[slot] := CmdState(cmd, kept);
      assert slots[..] == before[slot := CmdState(cmd, kept)];
    }

    /** Both report loops. */
    method Report(cmd: Word, was: seq<Word>, nodes: seq<Word>) returns (events: seq<Event>)
      ensures events == Diff(cmd, was, nodes)
    {
      events := [];
      var i := 0;
      while i < |nodes|
        invariant 0 <= i <= |nodes| && events == Appeared(cmd, nodes[..i], was)
      {
        var wasThere := Contains(was, nodes[i]);
        if !wasThere { events := events + [Reg(cmd, nodes[i])]; }
        assert nodes[..i + 1][..i] == nodes[..i];
        i := i + 1;
      }
      assert nodes[..i] == nodes;
      ghost var appeared := events;
      var j := 0;
      while j < |was|
        invariant 0 <= j <= |was| && events == appeared + Vanished(cmd, was[..j], nodes)
      {
        var stillThere := Contains(nodes, was[j]);
        if !stillThere { events := events + [Unreg(cmd, was[j])]; }
        assert was[..j + 1][..j] == was[..j];
        j := j + 1;
      }
      assert was[..j] == was;
    }

    /** path_b_walk_and_diff; an unreadable head changes and reports nothing. */
    method WalkAndDiff(d: Dispatch) returns (events: seq<Event>)
      requires Valid() && d.cmd != 0
      modifies slots
      ensures Valid()
      ensures var known := old(Cached(slots[..], d.cmd)) || old(Cached(slots[..], 0));
              if known && d.Walked().Some? then
                && events == Diff(d.cmd, old(NodesOf(slots[..], d.cmd)), d.Walked().value)
                && Cached(slots[..], d.cmd) && NodesOf(slots[..], d.cmd) == d.Walked().value
                && forall c :: c != 0 && c != d.cmd ==>
                     (Cached(slots[..], c) <==> old(Cached(slots[..], c))) && NodesOf(slots[..], c) == old(NodesOf(slots[..], c))
              else events == [] && slots[..] == old(slots[..])
    {
      hide CacheValid, NodesOf, Cached, Diff, NodesFrom, Field;
      var ok, nodes := Walk(d.mem, d.View(), d.readable, d.head);
      if !ok { return []; }
      events := Update(d.cmd, nodes);
      assert nodes[..Shorter(|nodes|, MAX_NODES)] == nodes;
    }
  }

  lemma EmptySlotTaken(s: seq<CmdState>, i: nat, cmd: Word)
    requires CacheValid(s) && i < SLOTS && s[i].cmd == 0 && cmd != 0 && !Cached(s, cmd)
    ensures CacheValid(s[i := CmdState(cmd, [])]) && NodesOf(s, cmd) == []
  {
    SlotWritten(s, i, cmd, []);
  }

  // --- whole runs ---

  /** One dispatch of a command: what memory then holds, what of it can be read, and the head of the list. */
  datatype Dispatch = Dispatch(cmd: Word, mem: Memory, readable: set<Word>, head: Word)
  {
    ghost function View(): View {
      Resolver.View(mem, iset a: Word | a in readable)
    }

    /** The nodes met; None when the head cannot be read. */
    ghost function Walked(): Option<seq<Word>> {
      var first := Field(View(), head, 0);
      if first.None? then None else Some(NodesFrom(View(), head, first.value, MAX_NODES))
    }
  }

  /** The last walk of a command in a run. */
  ghost function LastWalk(ds: seq<Dispatch>, cmd: Word): seq<Word> {
    if ds == [] then []
    else
      var d := ds[|ds| - 1];
      if d.cmd == cmd && d.Walked().Some? then d.Walked().value else LastWalk(ds[..|ds| - 1], cmd)
  }

  /** Over any run, replaying a cached command's events from nothing gives the nodes of its last walk;
      a command that never got a slot has no events. */
  method RunDispatches(ds: seq<Dispatch>) returns (cache: DiffCache, log: seq<Event>)
    requires forall i :: 0 <= i < |ds| ==> ds[i].cmd != 0
    ensures cache.Valid()
    ensures forall c :: c != 0 && Cached(cache.slots[..], c) ==>
              NodesOf(cache.slots[..], c) == LastWalk(ds, c) && Replay(c, log, {}) == NodeSet(LastWalk(ds, c))
    ensures forall c :: c != 0 && !Cached(cache.slots[..], c) ==> Replay(c, log, {}) == {}
  {
    hide CacheValid, NodesOf, Cached, Replay, Diff, LastWalk, NodeSet, Dispatch.Walked;
    cache := new DiffCache();
    log := [];
    var i := 0;
    NothingLogged();
    while i < |ds|
      invariant 0 <= i <= |ds| && fresh(cache) && fresh(cache.slots) && cache.Valid()
      invariant Consistent(cache.slots[..], log, ds[..i])
    {
      ghost var before := cache.slots[..];
      var events := cache.WalkAndDiff(ds[i]);
      if (Cached(before, ds[i].cmd) || Cached(before, 0)) && ds[i].Walked().Some? {
        StaysConsistent(before, cache.slots[..], log, ds, i);
      } else {
        NothingSeen(before, log, ds, i);
        assert log + events == log;
      }
      log := log + events;
      i := i + 1;
    }
    assert ds[..i] == ds;
  }

  ghost predicate Consistent(s: seq<CmdState>, log: seq<Event>, ds: seq<Dispatch>) {
    forall c :: c != 0 ==>
      if Cached(s, c) then NodesOf(s, c) == LastWalk(ds, c) && Replay(c, log, {}) == NodeSet(LastWalk(ds, c))
      else Replay(c, log, {}) == {}
  }

  lemma NothingLogged()
    ensures forall c :: Replay(c, [], {}) == {}
  {
  }

  lemma StaysConsistent(s: seq<CmdState>, s': seq<CmdState>, log: seq<Event>, ds: seq<Dispatch>, i: nat)
    requires i < |ds| && ds[i].cmd != 0 && Consistent(s, log, ds[..i]) && ds[i].Walked().Some?
    requires Cached(s', ds[i].cmd) && NodesOf(s', ds[i].cmd) == ds[i].Walked().value
    requires forall c :: c != 0 && c != ds[i].cmd ==> (Cached(s', c) <==> Cached(s, c)) && NodesOf(s', c) == NodesOf(s, c)
    ensures Consistent(s', log + Diff(ds[i].cmd, NodesOf(s, ds[i].cmd), ds[i].Walked().value), ds[..i + 1])
  {
    hide CacheValid, Cached, Appeared, Vanished, Replay, Dispatch.Walked;
    var cmd, was, now := ds[i].cmd, NodesOf(s, ds[i].cmd), ds[i].Walked().value;
    var events := Diff(cmd, was, now);
    assert ds[..i + 1][..i] == ds[..i];
    forall c | c != 0
      ensures if Cached(s', c) then NodesOf(s', c) == LastWalk(ds[..i + 1], c) && Replay(c, log + events, {}) == NodeSet(LastWalk(ds[..i + 1], c))
              else Replay(c, log + events, {}) == {}
    {
      ReplayAppend(c, log, events, {});
      if c == cmd {
        assert Replay(c, log, {}) == NodeSet(was);
        ReplayDiff(cmd, was, now);
      } else {
        var r := Replay(c, log, {});
        ReplayAppend(c, Appeared(cmd, now, was), Vanished(cmd, was, now), r);
        OtherCommands(cmd, c, now, was, r);
        OtherCommands(cmd, c, was, now, r);
      }
    }
  }

  /** A dispatch without a slot or without a readable head changes nothing that is known. */
  lemma NothingSeen(s: seq<CmdState>, log: seq<Event>, ds: seq<Dispatch>, i: nat)
    requires i < |ds| && Consistent(s, log, ds[..i])
    requires ds[i].Walked().None? || !Cached(s, ds[i].cmd)
    ensures Consistent(s, log, ds[..i + 1])
  {
    hide Cached, Replay, Dispatch.Walked;
    assert ds[..i + 1][..i] == ds[..i];
  }
}
