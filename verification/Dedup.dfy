/** The lock-free table that lets each (function, return address) pair through once. */
module Dedup {
  import opened Words

  const CELLS := 256

  /** (uint64_t)func << 32 | ret */
  function Key(func: Word, ret: Word): int {
    func * SIZE + ret
  }

  lemma KeyInjective(f: Word, r: Word, f': Word, r': Word)
    ensures Key(f, r) == Key(f', r') <==> f == f' && r == r'
  {
    assert Key(f, r) / SIZE == f && Key(f', r') / SIZE == f';
  }

  // --- one call at a time: the method, and what it computes ---

  datatype Answer = New | Duplicate | Full

  /** The answer to a call for `key` when `keys` were announced before and nobody else is at work. */
  function AloneAnswer(keys: seq<int>, key: int): Answer {
    if key in keys then Duplicate else if |keys| < CELLS then New else Full
  }

  function Noted(keys: seq<int>, key: int): seq<int> {
    if AloneAnswer(keys, key) == New then keys + [key] else keys
  }

  class Table {
    const seen: array<int>
    var seenCount: nat

    ghost predicate Valid()
      reads this, seen
    {
      seen.Length == CELLS && seenCount <= CELLS
    }

    constructor ()
      ensures Valid() && seenCount == 0
    {
      seen := new int[CELLS](_ => 0);
      seenCount := 0;
    }

    method NoteCallerPairNew(func: Word, ret: Word) returns (isNew: bool)
      requires Valid()
      modifies this, seen
      ensures Valid()
      ensures seen[..seenCount] == Noted(old(seen[..seenCount]), Key(func, ret))
      ensures isNew <==> AloneAnswer(old(seen[..seenCount]), Key(func, ret)) == New
      ensures isNew <==> func * 0x1_0000_0000 + ret !in old(seen[..seenCount]) && old(seenCount) < 256
      ensures seen[..seenCount] == old(seen[..seenCount]) + if isNew then [func * 0x1_0000_0000 + ret] else []
    {
      var key, n := Key(func, ret), seenCount;
      var i := 0;
      while i < n
        invariant i <= n && key !in seen[..i]
      {
        if seen[i] == key {
          assert key in seen[..n];
          return false;
        }
        i := i + 1;
      }
      if n >= CELLS {
        return false;
      }
      seen[n] := key;
      seenCount := n + 1;
      return true;
    }
  }

  // --- any number of threads, one shared access per step ---

  /** Where a thread stands: outside, about to read cell `i` below the count `n` it loaded, about to store the count. */
  datatype Thread = Idle | Scanning(key: int, n: nat, i: nat) | Publishing(key: int, n: nat)

  datatype Event = Stored(tid: nat, key: int, cell: nat) | Answered(tid: nat, key: int, answer: Answer)

  datatype State = State(seen: seq<int>, count: nat, threads: seq<Thread>, log: seq<Event>)

  /** A turn of one thread; `key` is what it calls with when it is outside. */
  datatype Move = Move(tid: nat, key: int)

  predicate Shape(s: State) {
    && |s.seen| == CELLS && s.count <= CELLS
    && forall t :: 0 <= t < |s.threads| ==>
         match s.threads[t]
         case Idle => true
         case Scanning(_, n, i) => i <= n <= CELLS
         case Publishing(_, n) => n < CELLS
  }

  function Finish(s: State, t: nat, key: int, answer: Answer): State
    requires t < |s.threads|
  {
    s.(threads := s.threads[t := Idle], log := s.log + [Answered(t, key, answer)])
  }

  function Next(s: State, mv: Move): (s': State)
    requires Shape(s)
    ensures Shape(s')
  {
    var t := mv.tid;
    if t >= |s.threads| then s
    else match s.threads[t]
    case Idle => s.(threads := s.threads[t := Scanning(mv.key, s.count, 0)])
    case Scanning(key, n, i) =>
      if i < n then
        if s.seen[i] == key then Finish(s, t, key, Duplicate)
        else s.(threads := s.threads[t := Scanning(key, n, i + 1)])
      else if n >= CELLS then Finish(s, t, key, Full)
      else s.(seen := s.seen[n := key], threads := s.threads[t := Publishing(key, n)], log := s.log + [Stored(t, key, n)])
    case Publishing(key, n) => Finish(s.(count := n + 1), t, key, New)
  }

  function Run(s: State, moves: seq<Move>): (s': State)
    requires Shape(s)
    ensures Shape(s')
    decreases |moves|
  {
    if moves == [] then s else Run(Next(s, moves[0]), moves[1..])
  }

  function AllIdle(n: nat): (s: seq<Thread>)
    ensures |s| == n && forall i :: 0 <= i < n ==> s[i] == Idle
  {
    seq(n, _ => Idle)
  }

  function Initial(threads: nat): (s: State)
    ensures Shape(s)
  {
    State(Zeros(CELLS), 0, AllIdle(threads), [])
  }

  // --- what every interleaving keeps ---

  /** What the cell holds was put there by a claim. */
  ghost predicate Written(s: State, cell: nat)
    requires |s.seen| == CELLS
  {
    cell < CELLS && exists d :: 0 <= d < |s.log| && s.log[d].Stored? && s.log[d].cell == cell && s.log[d].key == s.seen[cell]
  }

  ghost predicate WrittenBelow(s: State, n: nat)
    requires |s.seen| == CELLS
  {
    forall cell :: 0 <= cell < n ==> Written(s, cell)
  }

  /** The claim recorded at `d` has been answered New, or its thread is about to answer New. */
  ghost predicate Kept(s: State, d: nat)
    requires d < |s.log| && s.log[d].Stored?
  {
    var e := s.log[d];
    || (e.tid < |s.threads| && s.threads[e.tid] == Publishing(e.key, e.cell))
    || exists a :: d < a < |s.log| && s.log[a] == Answered(e.tid, e.key, New)
  }

  ghost predicate StoredBefore(log: seq<Event>, e: nat, key: int) {
    exists d :: 0 <= d < e && d < |log| && log[d].Stored? && log[d].key == key
  }

  ghost predicate CellStoredBefore(log: seq<Event>, e: nat, cell: nat) {
    exists d :: 0 <= d < e && d < |log| && log[d].Stored? && log[d].cell == cell
  }

  /** A call is muted only for a claimed key or a full table. */
  ghost predicate MutedFairly(log: seq<Event>) {
    forall e :: 0 <= e < |log| && log[e].Answered? ==>
      && (log[e].answer == Duplicate ==> StoredBefore(log, e, log[e].key))
      && (log[e].answer == Full ==> forall cell :: 0 <= cell < CELLS ==> CellStoredBefore(log, e, cell))
  }

  ghost predicate ThreadsScanWritten(s: State)
    requires |s.seen| == CELLS
  {
    forall t :: 0 <= t < |s.threads| ==>
      match s.threads[t]
      case Idle => true
      case Scanning(_, n, _) => WrittenBelow(s, n)
      case Publishing(_, n) => WrittenBelow(s, n + 1)
  }

  ghost predicate ClaimsKept(s: State) {
    forall d :: 0 <= d < |s.log| && s.log[d].Stored? ==> Kept(s, d)
  }

  ghost predicate Inv(s: State) {
    Shape(s) && WrittenBelow(s, s.count) && ThreadsScanWritten(s) && ClaimsKept(s) && MutedFairly(s.log)
  }

  lemma StaysWritten(s: State, mv: Move)
    requires Shape(s)
    ensures var s' := Next(s, mv);
            && s.log <= s'.log
            && (forall cell: nat :: Written(s, cell) ==> Written(s', cell))
            && (forall n: nat :: WrittenBelow(s, n) ==> WrittenBelow(s', n))
            && (|s'.log| > |s.log| && s'.log[|s.log|].Stored? ==> Written(s', s'.log[|s.log|].cell))
  {
    var s' := Next(s, mv);
    if |s'.log| > |s.log| && s'.log[|s.log|].Stored? {
      assert Written(s', s'.log[|s.log|].cell) by { assert s'.log[|s.log|].key == s'.seen[s'.log[|s.log|].cell]; }
    }
    forall cell: nat | Written(s, cell) ensures Written(s', cell) {
      if s'.seen[cell] == s.seen[cell] {
        var d :| 0 <= d < |s.log| && s.log[d].Stored? && s.log[d].cell == cell && s.log[d].key == s.seen[cell];
        assert s'.log[d] == s.log[d];
      } else {
        assert s'.log[|s.log|] == Stored(mv.tid, s'.seen[cell], cell);
      }
    }
  }

  lemma ClaimsStayKept(s: State, mv: Move)
    requires Shape(s) && ClaimsKept(s)
    ensures ClaimsKept(Next(s, mv))
  {
    var s' := Next(s, mv);
    forall d | 0 <= d < |s'.log| && s'.log[d].Stored? ensures Kept(s', d) {
      if d < |s.log| {
        var e := s.log[d];
        assert s'.log[d] == e && Kept(s, d);
        if a :| d < a < |s.log| && s.log[a] == Answered(e.tid, e.key, New) {
          assert s'.log[a] == s.log[a];
        } else if mv.tid == e.tid {
          assert s'.log[|s.log|] == Answered(e.tid, e.key, New);
        }
      }
    }
  }

  lemma StaysFair(s: State, mv: Move)
    requires Inv(s)
    ensures MutedFairly(Next(s, mv).log)
  {
    var s' := Next(s, mv);
    forall e | 0 <= e < |s'.log| && s'.log[e].Answered?
      ensures s'.log[e].answer == Duplicate ==> StoredBefore(s'.log, e, s'.log[e].key)
      ensures s'.log[e].answer == Full ==> forall cell :: 0 <= cell < CELLS ==> CellStoredBefore(s'.log, e, cell)
    {
      if e < |s.log| {
        EarlierKept(s.log, s'.log, e);
      } else if s'.log[e].answer != New {
        var th := s.threads[mv.tid];
        assert th.Scanning? && WrittenBelow(s, th.n);
        if s'.log[e].answer == Duplicate {
          assert Written(s, th.i);
          var d :| 0 <= d < |s.log| && s.log[d].Stored? && s.log[d].cell == th.i && s.log[d].key == s.seen[th.i];
          assert s'.log[d] == s.log[d];
        } else {
          forall cell | 0 <= cell < CELLS ensures CellStoredBefore(s'.log, e, cell) {
            assert Written(s, cell);
            var d :| 0 <= d < |s.log| && s.log[d].Stored? && s.log[d].cell == cell && s.log[d].key == s.seen[cell];
            assert s'.log[d] == s.log[d];
          }
        }
      }
    }
  }

  lemma EarlierKept(log: seq<Event>, log': seq<Event>, e: nat)
    requires log <= log' && e < |log| && MutedFairly(log) && log[e].Answered?
    ensures log[e].answer == Duplicate ==> StoredBefore(log', e, log[e].key)
    ensures log[e].answer == Full ==> forall cell :: 0 <= cell < CELLS ==> CellStoredBefore(log', e, cell)
  {
    assert forall d :: 0 <= d < |log| ==> log'[d] == log[d];
    if log[e].answer == Full {
      forall cell | 0 <= cell < CELLS ensures CellStoredBefore(log', e, cell) {
        assert CellStoredBefore(log, e, cell);
      }
    }
  }

  lemma ThreadsStay(s: State, mv: Move)
    requires Inv(s)
    ensures ThreadsScanWritten(Next(s, mv)) && WrittenBelow(Next(s, mv), Next(s, mv).count)
  {
    hide Written;
    StaysWritten(s, mv);
  }

  lemma StepKeepsInv(s: State, mv: Move)
    requires Inv(s)
    ensures Inv(Next(s, mv))
  {
    hide Next, WrittenBelow, Kept, MutedFairly, ThreadsScanWritten, ClaimsKept;
    ThreadsStay(s, mv);
    ClaimsStayKept(s, mv);
    StaysFair(s, mv);
  }

  lemma {:induction false} RunKeepsInv(s: State, moves: seq<Move>)
    requires Inv(s)
    ensures Inv(Run(s, moves))
    decreases |moves|
  {
    hide Next, WrittenBelow, Kept, MutedFairly, ThreadsScanWritten, ClaimsKept;
    if moves != [] {
      StepKeepsInv(s, moves[0]);
      RunKeepsInv(Next(s, moves[0]), moves[1..]);
    }
  }

  /**
   * In every interleaving the count stays within the table, every cell below it holds a claimed key, and a call is
   * muted only after a claim for the same pair that answers New or is about to, or when every cell had been claimed.
   */
  lemma EveryInterleaving(threads: nat, moves: seq<Move>)
    ensures var s := Run(Initial(threads), moves);
            && s.count <= 256 && WrittenBelow(s, s.count)
            && (forall e :: 0 <= e < |s.log| && s.log[e].Answered? && s.log[e].answer == Duplicate ==>
                  exists d :: 0 <= d < e && s.log[d].Stored? && s.log[d].key == s.log[e].key && Kept(s, d))
            && (forall e, cell :: 0 <= e < |s.log| && s.log[e].Answered? && s.log[e].answer == Full && 0 <= cell < 256 ==>
                  CellStoredBefore(s.log, e, cell))
  {
    var s := Run(Initial(threads), moves);
    assert Inv(s) by { hide Run; RunKeepsInv(Initial(threads), moves); }
    hide Run, Kept;
    forall e | 0 <= e < |s.log| && s.log[e].Answered? && s.log[e].answer == Duplicate
      ensures exists d :: 0 <= d < e && s.log[d].Stored? && s.log[d].key == s.log[e].key && Kept(s, d)
    {
      assert StoredBefore(s.log, e, s.log[e].key);
      var d :| 0 <= d < e && d < |s.log| && s.log[d].Stored? && s.log[d].key == s.log[e].key;
      assert Kept(s, d);
    }
  }

  // --- serial runs ---

  /** The keys answered New, in order. */
  function News(log: seq<Event>): seq<int> {
    if log == [] then []
    else
      var e := log[|log| - 1];
      News(log[..|log| - 1]) + (if e.Answered? && e.answer == New then [e.key] else [])
  }

  predicate AnsweredAsAlone(log: seq<Event>) {
    log == [] ||
    var e, front := log[|log| - 1], log[..|log| - 1];
    AnsweredAsAlone(front) && (e.Answered? ==> e.answer == AloneAnswer(News(front), e.key))
  }

  predicate NoRepeats(keys: seq<int>) {
    forall i, j :: 0 <= i < j < |keys| ==> keys[i] != keys[j]
  }

  /** A thread takes its turn only while all others are outside. */
  predicate Alone(s: State, t: nat) {
    t < |s.threads| ==> forall u :: 0 <= u < |s.threads| && u != t ==> s.threads[u] == Idle
  }

  predicate Serial(s: State, moves: seq<Move>)
    requires Shape(s)
    decreases |moves|
  {
    moves == [] || (Alone(s, moves[0].tid) && Serial(Next(s, moves[0]), moves[1..]))
  }

  predicate SerialInv(s: State) {
    && Shape(s) && s.seen[..s.count] == News(s.log) && NoRepeats(News(s.log)) && AnsweredAsAlone(s.log)
    && forall t :: 0 <= t < |s.threads| ==>
         match s.threads[t]
         case Idle => true
         case Scanning(key, n, i) => n == s.count && key !in s.seen[..i]
         case Publishing(key, n) => n == s.count && key == s.seen[n] && key !in s.seen[..n]
  }

  lemma LogGrows(log: seq<Event>, e: Event)
    ensures News(log + [e]) == News(log) + (if e.Answered? && e.answer == New then [e.key] else [])
    ensures AnsweredAsAlone(log + [e]) <==>
              AnsweredAsAlone(log) && (e.Answered? ==> e.answer == AloneAnswer(News(log), e.key))
  {
    assert (log + [e])[..|log|] == log;
  }

  lemma SerialStep(s: State, mv: Move)
    requires SerialInv(s) && Alone(s, mv.tid)
    ensures SerialInv(Next(s, mv))
  {
    hide News, AnsweredAsAlone;
    if mv.tid < |s.threads| {
      var t, s' := mv.tid, Next(s, mv);
      if |s'.log| > |s.log| {
        LogGrows(s.log, s'.log[|s.log|]);
        assert s'.log == s.log + [s'.log[|s.log|]];
      }
      match s.threads[t]
      case Idle =>
      case Scanning(key, n, i) =>
        if i < n && s.seen[i] != key {
          assert s.seen[..i + 1] == s.seen[..i] + [s.seen[i]];
        } else if i < n {
          assert key == s.seen[..n][i];
        }
      case Publishing(key, n) =>
        assert s.seen[..n + 1] == s.seen[..n] + [key];
    }
  }

  lemma {:induction false} SerialRunKeepsInv(s: State, moves: seq<Move>)
    requires SerialInv(s) && Serial(s, moves)
    ensures SerialInv(Run(s, moves))
    decreases |moves|
  {
    hide Next;
    if moves != [] {
      SerialStep(s, moves[0]);
      SerialRunKeepsInv(Next(s, moves[0]), moves[1..]);
    }
  }

  /** How often `key` was answered New. */
  function Announced(log: seq<Event>, key: int): nat {
    multiset(News(log))[key]
  }

  lemma {:induction false} OncePerKey(keys: seq<int>, key: int)
    requires NoRepeats(keys)
    ensures multiset(keys)[key] == if key in keys then 1 else 0
  {
    if keys != [] {
      var n := |keys| - 1;
      assert keys == keys[..n] + [keys[n]];
      OncePerKey(keys[..n], key);
    }
  }

  /**
   * In a serial run every call is answered as by a set that takes the first 256 pairs, and each pair is announced at
   * most once.
   */
  lemma SerialRuns(threads: nat, moves: seq<Move>, key: int)
    requires Serial(Initial(threads), moves)
    ensures var log := Run(Initial(threads), moves).log;
            AnsweredAsAlone(log) && NoRepeats(News(log)) && |News(log)| <= 256 && Announced(log, key) <= 1
  {
    assert SerialInv(Initial(threads));
    SerialRunKeepsInv(Initial(threads), moves);
    OncePerKey(News(Run(Initial(threads), moves).log), key);
  }

  lemma {:induction false} OneThreadIsSerial(s: State, moves: seq<Move>)
    requires Shape(s) && |s.threads| <= 1
    ensures Serial(s, moves)
    decreases |moves|
  {
    if moves != [] {
      OneThreadIsSerial(Next(s, moves[0]), moves[1..]);
    }
  }

  // --- how often a pair is announced when threads overlap ---

  ghost predicate Reaches(s: State, s': State)
    requires Shape(s)
  {
    exists moves :: Run(s, moves) == s'
  }

  lemma {:induction false} RunsJoin(s: State, a: seq<Move>, b: seq<Move>)
    requires Shape(s)
    ensures Run(s, a + b) == Run(Run(s, a), b)
    decreases |a|
  {
    hide Next;
    if a == [] {
      assert a + b == b;
    } else {
      assert (a + b)[1..] == a[1..] + b;
      RunsJoin(Next(s, a[0]), a[1..], b);
    }
  }

  lemma ReachesJoin(s: State, s1: State, s2: State)
    requires Shape(s) && Shape(s1) && Reaches(s, s1) && Reaches(s1, s2)
    ensures Reaches(s, s2)
  {
    hide Next;
    var a :| Run(s, a) == s1;
    var b :| Run(s1, b) == s2;
    RunsJoin(s, a, b);
  }

  lemma Moved(s: State, mv: Move)
    requires Shape(s)
    ensures Reaches(s, Next(s, mv))
  {
    hide Next;
    assert Run(s, [mv]) == Run(Next(s, mv), [mv][1..]) == Next(s, mv);
  }

  /** A thread that goes on alone reads all its cells when its key is in none of them. */
  lemma {:induction false} ScansOn(s: State, t: nat)
    requires Shape(s) && t < |s.threads| && s.threads[t].Scanning?
    requires s.threads[t].key !in s.seen[..s.threads[t].n]
    ensures var th := s.threads[t]; Reaches(s, s.(threads := s.threads[t := Scanning(th.key, th.n, th.n)]))
    decreases s.threads[t].n - s.threads[t].i
  {
    hide Reaches;
    var th := s.threads[t];
    var mv := Move(t, 0);
    if th.i == th.n {
      assert s.threads[t := th] == s.threads;
      Stays(s);
    } else {
      assert s.seen[th.i] == s.seen[..th.n][th.i];
      Moved(s, mv);
      var s1 := Next(s, mv);
      ScansOn(s1, t);
      var s2 := s.(threads := s.threads[t := Scanning(th.key, th.n, th.n)]);
      assert s1.threads[t := Scanning(th.key, th.n, th.n)] == s2.threads;
      ReachesJoin(s, s1, s2);
    }
  }

  lemma Stays(s: State)
    requires Shape(s)
    ensures Reaches(s, s)
  {
    assert Run(s, []) == s;
  }

  /** An idle thread comes in and reads every cell; its key is in none of them. */
  lemma ComesIn(s: State, t: nat, key: int)
    requires Shape(s) && t < |s.threads| && s.threads[t] == Idle && key !in s.seen[..s.count]
    ensures Reaches(s, s.(threads := s.threads[t := Scanning(key, s.count, s.count)]))
  {
    hide Reaches;
    Moved(s, Move(t, key));
    var s1 := Next(s, Move(t, key));
    ScansOn(s1, t);
    var s2 := s.(threads := s.threads[t := Scanning(key, s.count, s.count)]);
    assert s1.threads[t := Scanning(key, s.count, s.count)] == s2.threads;
    ReachesJoin(s, s1, s2);
  }

  /** A thread that has read all its cells claims the next one and leaves. */
  lemma ClaimsAndLeaves(s: State, t: nat)
    requires Shape(s) && t < |s.threads| && s.threads[t].Scanning? && s.threads[t].i == s.threads[t].n < CELLS
    ensures var th := s.threads[t];
            var s' := State(s.seen[th.n := th.key], th.n + 1, s.threads[t := Idle],
                            s.log + [Stored(t, th.key, th.n), Answered(t, th.key, New)]);
            Reaches(s, s') && News(s'.log) == News(s.log) + [th.key]
  {
    var th, mv := s.threads[t], Move(t, 0);
    var s1 := Next(s, mv);
    var s2 := Next(s1, mv);
    Moved(s, mv);
    Moved(s1, mv);
    assert s1.threads[t := Idle] == s.threads[t := Idle];
    assert s2.log == s.log + [Stored(t, th.key, th.n), Answered(t, th.key, New)];
    ReachesJoin(s, s1, s2);
    LogGrows(s.log, Stored(t, th.key, th.n));
    LogGrows(s1.log, Answered(t, th.key, New));
  }

  /** Between rounds: two threads are outside and the table holds no 0 and only small keys. */
  predicate BetweenRounds(s: State, r: nat) {
    && Shape(s) && s.count == r && |s.threads| >= 2 && s.threads[0] == s.threads[1] == Idle
    && forall i :: 0 <= i < r ==> 0 < s.seen[i] <= r
  }

  /** Thread 0 reads the table with a pair of its own in hand; thread 1 announces pair 0. */
  lemma OvertakenOnce(s: State, r: nat) returns (s': State)
    requires BetweenRounds(s, r) && r < CELLS
    ensures Reaches(s, s') && Announced(s'.log, 0) == Announced(s.log, 0) + 1
    ensures s'.threads == s.threads[0 := Scanning(r + 1, r, r)] && s'.seen == s.seen[r := 0] && s'.count == r + 1
  {
    hide Next, Run, Reaches, News;
    ComesIn(s, 0, r + 1);
    var s1 := s.(threads := s.threads[0 := Scanning(r + 1, r, r)]);
    ComesIn(s1, 1, 0);
    var s2 := s1.(threads := s1.threads[1 := Scanning(0, r, r)]);
    ClaimsAndLeaves(s2, 1);
    s' := State(s.seen[r := 0], r + 1, s2.threads[1 := Idle], s.log + [Stored(1, 0, r), Answered(1, 0, New)]);
    ReachesJoin(s, s1, s2);
    ReachesJoin(s, s2, s');
  }

  /** The first half of a round: pair 0 announced, overwritten, and announced again in the next cell. */
  lemma TwiceInARound(s: State, r: nat) returns (s': State)
    requires BetweenRounds(s, r) && r + 1 < CELLS
    ensures Reaches(s, s') && Shape(s') && Announced(s'.log, 0) == Announced(s.log, 0) + 2
    ensures s'.threads == s.threads[0 := Publishing(r + 1, r)] && s'.seen[..r + 1] == s.seen[..r] + [r + 1]
  {
    hide Run, Reaches, News;
    var s1 := OvertakenOnce(s, r);
    Moved(s1, Move(0, 0));
    var s2 := Next(s1, Move(0, 0));
    LogGrows(s1.log, Stored(0, r + 1, r));
    assert s2.seen[..r + 1] == s.seen[..r] + [r + 1] && s2.threads == s.threads[0 := Publishing(r + 1, r)];
    ComesIn(s2, 1, 0);
    var s3 := s2.(threads := s2.threads[1 := Scanning(0, r + 1, r + 1)]);
    hide Next;
    ClaimsAndLeaves(s3, 1);
    s' := State(s3.seen[r + 1 := 0], r + 2, s3.threads[1 := Idle], s3.log + [Stored(1, 0, r + 1), Answered(1, 0, New)]);
    ReachesJoin(s, s1, s2);
    ReachesJoin(s, s2, s3);
    ReachesJoin(s, s3, s');
  }

  /** A whole round: thread 0 then stores its count, and both announcements are forgotten. */
  lemma RoundTwice(s: State, r: nat) returns (s': State)
    requires BetweenRounds(s, r) && r + 1 < CELLS
    ensures BetweenRounds(s', r + 1) && Reaches(s, s') && Announced(s'.log, 0) == Announced(s.log, 0) + 2
  {
    hide Run, Reaches, News;
    var t := TwiceInARound(s, r);
    Moved(t, Move(0, 0));
    s' := Next(t, Move(0, 0));
    LogGrows(t.log, Answered(0, r + 1, New));
    ReachesJoin(s, t, s');
    assert forall i :: 0 <= i < r + 1 ==> s'.seen[i] == t.seen[..r + 1][i];
    assert forall i :: 0 <= i < r ==> s.seen[..r][i] == s.seen[i];
  }

  lemma {:induction false} Rounds(threads: nat, r: nat) returns (s: State)
    requires threads >= 2 && r < CELLS
    ensures BetweenRounds(s, r) && Reaches(Initial(threads), s) && Announced(s.log, 0) == 2 * r
  {
    hide Reaches;
    s := Initial(threads);
    if r == 0 {
      Stays(s);
    } else {
      var before := Rounds(threads, r - 1);
      s := RoundTwice(before, r - 1);
      ReachesJoin(Initial(threads), before, s);
    }
  }

  /** Both threads come in with pair 0 and both announce it. */
  lemma Race(s: State, r: nat) returns (s': State)
    requires BetweenRounds(s, r) && r < CELLS
    ensures Reaches(s, s') && Announced(s'.log, 0) == Announced(s.log, 0) + 2
  {
    hide Next, Run, Reaches, News;
    ComesIn(s, 0, 0);
    var s1 := s.(threads := s.threads[0 := Scanning(0, r, r)]);
    ComesIn(s1, 1, 0);
    var s2 := s1.(threads := s1.threads[1 := Scanning(0, r, r)]);
    ClaimsAndLeaves(s2, 1);
    var s3 := State(s.seen[r := 0], r + 1, s2.threads[1 := Idle], s.log + [Stored(1, 0, r), Answered(1, 0, New)]);
    ClaimsAndLeaves(s3, 0);
    s' := State(s3.seen[r := 0], r + 1, s3.threads[0 := Idle], s3.log + [Stored(0, 0, r), Answered(0, 0, New)]);
    ReachesJoin(s, s1, s2);
    ReachesJoin(s, s2, s3);
    ReachesJoin(s, s3, s');
  }

  /** Threads `from` on have read the empty table with pair 0 in hand; those before have announced it. */
  predicate Crowd(s: State, from: nat) {
    && Shape(s) && from <= |s.threads| && Announced(s.log, 0) == from
    && forall t :: from <= t < |s.threads| ==> s.threads[t] == Scanning(0, 0, 0)
  }

  lemma {:induction false} CrowdComesIn(threads: nat, n: nat) returns (s: State)
    requires n <= threads
    ensures Shape(s) && Reaches(Initial(threads), s) && s.count == 0 && s.log == [] && |s.threads| == threads
    ensures forall t :: 0 <= t < threads ==> s.threads[t] == if t < n then Scanning(0, 0, 0) else Idle
  {
    hide Reaches, Run;
    s := Initial(threads);
    if n == 0 {
      Stays(s);
    } else {
      var before := CrowdComesIn(threads, n - 1);
      Moved(before, Move(n - 1, 0));
      s := Next(before, Move(n - 1, 0));
      ReachesJoin(Initial(threads), before, s);
    }
  }

  lemma {:induction false} CrowdAnnounces(threads: nat, n: nat) returns (s: State)
    requires n <= threads
    ensures Crowd(s, n) && |s.threads| == threads && Reaches(Initial(threads), s)
  {
    hide Reaches, Run, Next, News;
    if n == 0 {
      s := CrowdComesIn(threads, threads);
      assert News([]) == [] by { NoNews(); }
    } else {
      var before := CrowdAnnounces(threads, n - 1);
      ClaimsAndLeaves(before, n - 1);
      s := State(before.seen[0 := 0], 1, before.threads[n - 1 := Idle], before.log + [Stored(n - 1, 0, 0), Answered(n - 1, 0, New)]);
      ReachesJoin(Initial(threads), before, s);
    }
  }

  lemma NoNews()
    ensures News([]) == []
  {
  }

  ghost predicate AnnouncedAtMost(threads: nat, bound: nat) {
    forall moves, key :: Announced(Run(Initial(threads), moves).log, key) <= bound
  }

  /** Two threads announce one pair 512 times, and any larger number of threads once each. */
  lemma BoundFails(threads: nat, bound: nat)
    requires threads >= 2 && (bound < 512 || bound < threads)
    ensures !AnnouncedAtMost(threads, bound)
  {
    hide Run, News, BetweenRounds, Crowd;
    var s: State;
    if bound < threads {
      s := CrowdAnnounces(threads, threads);
      assert Announced(s.log, 0) == threads by { CrowdCount(s, threads); }
    } else {
      var last := Rounds(threads, CELLS - 1);
      s := Race(last, CELLS - 1);
      ReachesJoin(Initial(threads), last, s) by { BetweenShape(last, CELLS - 1); }
    }
    var moves :| Run(Initial(threads), moves) == s;
    assert Announced(Run(Initial(threads), moves).log, 0) > bound;
  }

  lemma CrowdCount(s: State, n: nat)
    requires Crowd(s, n)
    ensures Announced(s.log, 0) == n
  {
  }

  lemma BetweenShape(s: State, r: nat)
    requires BetweenRounds(s, r)
    ensures Shape(s)
  {
  }

  /** A bound below 512 on the dumps of one pair holds exactly when there is no second thread. */
  lemma BoundNeedsOneThread(threads: nat, bound: nat)
    requires 1 <= bound < 512
    ensures AnnouncedAtMost(threads, bound) <==> threads <= 1
  {
    hide Run, Serial, News, AnsweredAsAlone, AnnouncedAtMost;
    if threads <= 1 {
      OneThreadBound(threads, bound);
    } else {
      BoundFails(threads, bound);
    }
  }

  lemma OneThreadBound(threads: nat, bound: nat)
    requires threads <= 1 <= bound
    ensures AnnouncedAtMost(threads, bound)
  {
    hide Run, Serial, News, AnsweredAsAlone;
    forall moves, key ensures Announced(Run(Initial(threads), moves).log, key) <= bound {
      OneThreadIsSerial(Initial(threads), moves);
      SerialRuns(threads, moves, key);
    }
  }
}
