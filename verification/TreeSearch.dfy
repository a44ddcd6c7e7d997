/** Finding a packet's handler in the game's red-black tree, node by node through ReadProcessMemory. */
module TreeSearch {
  import opened Words
  import opened Machine
  import opened Resolver

  // Node layout: +8 left, +0Ch right, +10h key, +14h handler. The dispatcher holds the root at +0Ch, its end node is +8.

  ghost function ReadWord(v: View, a: Word): Option<Word> {
    match SafeRead(v, a, 4)
    case None => None
    case Some(bs) => Some(FromLE(bs))
  }

  ghost function Field(v: View, node: Word, off: nat): Option<Word> {
    ReadWord(v, Wrap(node + off))
  }

  /** The descent: the last node whose key is not below the id, or the end node; None while not finished. */
  ghost function Descend(v: View, id: Word, root: Word, candidate: Word, fuel: nat): Option<Word>
    decreases fuel
  {
    if root == 0 then Some(candidate)
    else if fuel == 0 then None
    else
      match Field(v, root, 0x10)
      case None => Some(candidate)
      case Some(key) =>
        var next := Field(v, root, if key < id then 0x0c else 0x08);
        if next.None? then Some(candidate)
        else Descend(v, id, next.value, if key < id then candidate else root, fuel - 1)
  }

  /** The end of the function: the candidate's own key decides. */
  ghost function HandlerOf(v: View, id: Word, end: Word, candidate: Word): Word {
    if candidate == end then 0 else
    match Field(v, candidate, 0x10)
    case None => 0
    case Some(key) => if id < key then 0 else Field(v, candidate, 0x14).GetOr(0)
  }

  /** protocol_dispatch_find_handler; None stands for a descent that has not ended after `fuel` nodes. */
  ghost function FindHandler(v: View, dispatch: Word, id: Word, fuel: nat): Option<Word> {
    match ReadWord(v, Wrap(dispatch + 0x0c))
    case None => Some(0)
    case Some(root) =>
      var end := Wrap(dispatch + 0x08);
      match Descend(v, id, root, end, fuel)
      case None => None
      case Some(c) => Some(HandlerOf(v, id, end, c))
  }

  // --- a well-formed tree ---

  datatype Tree = Leaf | Node(at: Word, left: Tree, key: Word, handler: Word, right: Tree)

  ghost predicate Holds(v: View, p: Word, t: Tree)
    decreases t
  {
    match t
    case Leaf => p == 0
    case Node(a, l, k, h, r) =>
      && p == a && a != 0
      && Field(v, a, 0x10) == Some(k) && Field(v, a, 0x14) == Some(h)
      && Field(v, a, 0x08).Some? && Holds(v, Field(v, a, 0x08).value, l)
      && Field(v, a, 0x0c).Some? && Holds(v, Field(v, a, 0x0c).value, r)
  }

  function Map(t: Tree): map<Word, Word> {
    match t
    case Leaf => map[]
    case Node(_, l, k, h, r) => Map(l) + Map(r) + map[k := h]
  }

  ghost predicate Ordered(t: Tree) {
    match t
    case Leaf => true
    case Node(_, l, k, _, r) =>
      && Ordered(l) && Ordered(r)
      && (forall x :: x in Map(l) ==> x < k) && (forall x :: x in Map(r) ==> k < x)
  }

  function Height(t: Tree): nat {
    match t
    case Leaf => 0
    case Node(_, l, _, _, r) => 1 + if Height(l) > Height(r) then Height(l) else Height(r)
  }

  function Nodes(t: Tree): set<Word> {
    match t
    case Leaf => {}
    case Node(a, l, _, _, r) => {a} + Nodes(l) + Nodes(r)
  }

  /** What the descent through `t` ends with: the node with the least key not below the id, if there is one. */
  function LowerBound(t: Tree, id: Word, candidate: Word): Word {
    match t
    case Leaf => candidate
    case Node(a, l, k, _, r) => if k < id then LowerBound(r, id, candidate) else LowerBound(l, id, a)
  }

  lemma {:induction false} DescentIsLowerBound(v: View, t: Tree, p: Word, id: Word, candidate: Word, fuel: nat)
    requires Holds(v, p, t) && fuel >= Height(t)
    ensures Descend(v, id, p, candidate, fuel) == Some(LowerBound(t, id, candidate))
    decreases t
  {
    hide Field;
    if t.Node? {
      if t.key < id {
        DescentIsLowerBound(v, t.right, Field(v, p, 0x0c).value, id, candidate, fuel - 1);
      } else {
        DescentIsLowerBound(v, t.left, Field(v, p, 0x08).value, id, p, fuel - 1);
      }
    }
  }

  /** The candidate's key and handler against the map: it holds the id exactly when the map does. */
  ghost predicate Decides(v: View, id: Word, candidate: Word, has: bool, handler: Word) {
    if has then Field(v, candidate, 0x10) == Some(id) && Field(v, candidate, 0x14) == Some(handler)
    else Field(v, candidate, 0x10).Some? && id < Field(v, candidate, 0x10).value
  }

  lemma {:induction false} LowerBoundDecides(v: View, t: Tree, p: Word, id: Word, candidate: Word)
    requires Holds(v, p, t) && Ordered(t)
    ensures var c := LowerBound(t, id, candidate);
            && (id in Map(t) ==> c in Nodes(t) && Decides(v, id, c, true, Map(t)[id]))
            && (id !in Map(t) ==> (c == candidate ||
                  (c in Nodes(t) && Decides(v, id, c, false, 0) && Field(v, c, 0x10).value in Map(t))))
    decreases t
  {
    hide Field;
    if t.Node? {
      SplitMap(t);
      if t.key < id {
        LowerBoundDecides(v, t.right, Field(v, p, 0x0c).value, id, candidate);
      } else {
        LowerBoundDecides(v, t.left, Field(v, p, 0x08).value, id, p);
      }
    }
  }

  /** In an ordered tree the key at the root tells in which half an id can be. */
  lemma SplitMap(t: Tree)
    requires t.Node? && Ordered(t)
    ensures forall id :: id in Map(t) <==> id == t.key || id in Map(t.left) || id in Map(t.right)
    ensures Map(t)[t.key] == t.handler
    ensures forall id :: id in Map(t) && id < t.key ==> id in Map(t.left) && Map(t)[id] == Map(t.left)[id]
    ensures forall id :: id in Map(t) && id > t.key ==> id in Map(t.right) && Map(t)[id] == Map(t.right)[id]
    ensures t.key !in Map(t.left) && t.key !in Map(t.right)
  {
  }

  /** On every readable, acyclic, key-ordered tree the search ends and is map lookup (0 when absent). */
  lemma FindHandlerIsLookup(v: View, dispatch: Word, t: Tree, id: Word, fuel: nat)
    requires ReadWord(v, Wrap(dispatch + 0x0c)).Some? && Holds(v, ReadWord(v, Wrap(dispatch + 0x0c)).value, t)
    requires Ordered(t) && Wrap(dispatch + 0x08) !in Nodes(t)
    requires fuel >= Height(t)
    ensures FindHandler(v, dispatch, id, fuel) == Some(if id in Map(t) then Map(t)[id] else 0)
  {
    hide ReadWord, Wrap, Field;
    var root, end := ReadWord(v, Wrap(dispatch + 0x0c)).value, Wrap(dispatch + 0x08);
    DescentIsLowerBound(v, t, root, id, end, fuel);
    LowerBoundDecides(v, t, root, id, end);
  }

  // --- arbitrary memory ---

  /** `node` can be reached from `root` in at most `n` child links. */
  ghost predicate Reachable(v: View, root: Word, node: Word, n: nat)
    decreases n
  {
    root == node ||
    (n > 0 &&
     ((Field(v, root, 0x08).Some? && Reachable(v, Field(v, root, 0x08).value, node, n - 1)) ||
      (Field(v, root, 0x0c).Some? && Reachable(v, Field(v, root, 0x0c).value, node, n - 1))))
  }

  /** The candidate is the one given or a reachable node whose key is not below the id. */
  lemma {:induction false} CandidateReachable(v: View, id: Word, root: Word, candidate: Word, fuel: nat)
    requires Descend(v, id, root, candidate, fuel).Some?
    ensures var c := Descend(v, id, root, candidate, fuel).value;
            c == candidate || (Reachable(v, root, c, fuel) && Field(v, c, 0x10).Some? && id <= Field(v, c, 0x10).value)
    decreases fuel
  {
    hide Field;
    if root != 0 && fuel > 0 && Field(v, root, 0x10).Some? {
      var key := Field(v, root, 0x10).value;
      var next := Field(v, root, if key < id then 0x0c else 0x08);
      if next.Some? {
        CandidateReachable(v, id, next.value, if key < id then candidate else root, fuel - 1);
      }
    }
  }

  /** Whatever the memory holds, an answer other than 0 belongs to a reachable node whose key is the id. */
  lemma NonzeroIsGenuine(v: View, dispatch: Word, id: Word, fuel: nat)
    requires FindHandler(v, dispatch, id, fuel).Some? && FindHandler(v, dispatch, id, fuel).value != 0
    ensures ReadWord(v, Wrap(dispatch + 0x0c)).Some?
    ensures exists node ::
              && Reachable(v, ReadWord(v, Wrap(dispatch + 0x0c)).value, node, fuel)
              && Field(v, node, 0x10) == Some(id)
              && Field(v, node, 0x14) == FindHandler(v, dispatch, id, fuel)
  {
    hide Field, Wrap, ReadWord;
    var root, end := ReadWord(v, Wrap(dispatch + 0x0c)).value, Wrap(dispatch + 0x08);
    CandidateReachable(v, id, root, end, fuel);
    var c := Descend(v, id, root, end, fuel).value;
    assert Reachable(v, root, c, fuel) && Field(v, c, 0x10) == Some(id);
  }

  /** The key can be read and is below the id, and the right link can be read. */
  ghost predicate GoesRight(v: View, id: Word, node: Word) {
    ReadWord(v, Wrap(node + 0x10)).Some? && ReadWord(v, Wrap(node + 0x10)).value < id && ReadWord(v, Wrap(node + 0x0c)).Some?
  }

  ghost predicate GoesLeft(v: View, id: Word, node: Word) {
    ReadWord(v, Wrap(node + 0x10)).Some? && id <= ReadWord(v, Wrap(node + 0x10)).value && ReadWord(v, Wrap(node + 0x08)).Some?
  }

  ghost predicate LeadsTo(v: View, id: Word, node: Word, next: Word) {
    node != 0 && ((GoesRight(v, id, node) && ReadWord(v, Wrap(node + 0x0c)) == Some(next)) ||
                  (GoesLeft(v, id, node) && ReadWord(v, Wrap(node + 0x08)) == Some(next)))
  }

  /** `path` follows right links from keys below the id and left links from the others, as far as keys and links can be
      read, and stops at a null link or at the first node that it cannot leave. */
  ghost predicate Descends(v: View, id: Word, path: seq<Word>) {
    && path != []
    && (forall i :: 0 <= i < |path| - 1 ==> LeadsTo(v, id, path[i], path[i + 1]))
    && var last := path[|path| - 1]; last == 0 || (!GoesRight(v, id, last) && !GoesLeft(v, id, last))
  }

  /** `c` is the last node of the path that was left by its left link, or `end` if there was none. */
  ghost predicate LastLeft(v: View, id: Word, path: seq<Word>, end: Word, c: Word) {
    || (c == end && forall i :: 0 <= i < |path| - 1 ==> GoesRight(v, id, path[i]))
    || exists i :: 0 <= i < |path| - 1 && c == path[i] && GoesLeft(v, id, c) &&
                   forall j :: i < j < |path| - 1 ==> GoesRight(v, id, path[j])
  }

  lemma {:induction false} DescentHasPath(v: View, id: Word, root: Word, candidate: Word, fuel: nat) returns (path: seq<Word>)
    requires Descend(v, id, root, candidate, fuel).Some?
    ensures Descends(v, id, path) && path[0] == root
    ensures LastLeft(v, id, path, candidate, Descend(v, id, root, candidate, fuel).value)
    decreases fuel
  {
    hide ReadWord, Wrap;
    path := [root];
    if root != 0 && Field(v, root, 0x10).Some? {
      var key := Field(v, root, 0x10).value;
      var next := Field(v, root, if key < id then 0x0c else 0x08);
      if next.Some? {
        var rest := DescentHasPath(v, id, next.value, if key < id then candidate else root, fuel - 1);
        path := [root] + rest;
        hide Descend;
        PathGrows(v, id, root, rest);
        LastLeftGrows(v, id, root, rest, candidate, Descend(v, id, next.value, if key < id then candidate else root, fuel - 1).value);
      }
    }
  }

  lemma PathGrows(v: View, id: Word, root: Word, rest: seq<Word>)
    requires Descends(v, id, rest) && LeadsTo(v, id, root, rest[0])
    ensures Descends(v, id, [root] + rest)
  {
    hide GoesLeft, GoesRight, LeadsTo;
    var path := [root] + rest;
    assert path[0] == root && path[|path| - 1] == rest[|rest| - 1];
    forall i | 0 <= i < |path| - 1 ensures LeadsTo(v, id, path[i], path[i + 1]) {
      if i > 0 {
        assert path[i] == rest[i - 1] && path[i + 1] == rest[i - 1 + 1];
      }
    }
  }

  lemma LastLeftGrows(v: View, id: Word, root: Word, rest: seq<Word>, candidate: Word, c: Word)
    requires rest != [] && (GoesRight(v, id, root) || GoesLeft(v, id, root))
    requires LastLeft(v, id, rest, if GoesRight(v, id, root) then candidate else root, c)
    ensures LastLeft(v, id, [root] + rest, candidate, c)
  {
    hide GoesLeft, GoesRight;
    var path := [root] + rest;
    assert path[0] == root && forall i :: 1 <= i < |path| ==> path[i] == rest[i - 1];
    if i :| 0 <= i < |rest| - 1 && c == rest[i] && GoesLeft(v, id, c) && forall j :: i < j < |rest| - 1 ==> GoesRight(v, id, rest[j]) {
      assert path[i + 1] == c;
    }
  }

  /** On any memory on which it ends, unreadable nodes included, the search answers with the handler of the last node it
      left to the left, provided that node's key can still be read and is not above the id; without a readable root, 0. */
  lemma SearchOnAnyMemory(v: View, dispatch: Word, id: Word, fuel: nat) returns (path: seq<Word>, c: Word)
    requires FindHandler(v, dispatch, id, fuel).Some?
    ensures ReadWord(v, Wrap(dispatch + 0x0c)).None? ==> FindHandler(v, dispatch, id, fuel).value == 0
    ensures ReadWord(v, Wrap(dispatch + 0x0c)).Some? ==>
              && Descends(v, id, path) && Some(path[0]) == ReadWord(v, Wrap(dispatch + 0x0c))
              && LastLeft(v, id, path, Wrap(dispatch + 0x08), c)
              && FindHandler(v, dispatch, id, fuel).value ==
                   if c != Wrap(dispatch + 0x08) && ReadWord(v, Wrap(c + 0x10)).Some? && ReadWord(v, Wrap(c + 0x10)).value <= id &&
                      ReadWord(v, Wrap(c + 0x14)).Some?
                   then ReadWord(v, Wrap(c + 0x14)).value else 0
  {
    hide ReadWord, Wrap, Descends, LastLeft, Descend;
    path, c := [], 0;
    if ReadWord(v, Wrap(dispatch + 0x0c)).Some? {
      var root, end := ReadWord(v, Wrap(dispatch + 0x0c)).value, Wrap(dispatch + 0x08);
      path := DescentHasPath(v, id, root, end, fuel);
      c := Descend(v, id, root, end, fuel).value;
    }
  }

  /** A word can be read if and only if its four bytes can; the low byte comes first. */
  lemma WordReadExactlyWhen(v: View, a: Word)
    ensures ReadWord(v, a) == if v.CanRead(a, 4) then Some(LoadWord(v.mem, a)) else None
  {
  }

  // --- when the loop ends ---

  /** The node the loop goes to from `root`; 0 when it stops there, as it stops at 0. */
  ghost function NextNode(v: View, id: Word, root: Word): Word {
    if root == 0 || Field(v, root, 0x10).None? then 0
    else Field(v, root, if Field(v, root, 0x10).value < id then 0x0c else 0x08).GetOr(0)
  }

  /** The node at which the loop stands after `n` turns. */
  ghost function NodeAfter(v: View, id: Word, root: Word, n: nat): Word
    decreases n
  {
    if n == 0 then root else NextNode(v, id, NodeAfter(v, id, root, n - 1))
  }

  lemma {:induction false} NodeAfterFirst(v: View, id: Word, root: Word, n: nat)
    ensures NodeAfter(v, id, root, n + 1) == NodeAfter(v, id, NextNode(v, id, root), n)
  {
    hide NextNode;
    if n == 0 {
      assert NodeAfter(v, id, root, 0) == root;
    } else {
      NodeAfterFirst(v, id, root, n - 1);
    }
  }

  lemma {:induction false} StaysAtNull(v: View, id: Word, n: nat)
    ensures NodeAfter(v, id, 0, n) == 0
  {
    if n > 0 {
      StaysAtNull(v, id, n - 1);
    }
  }

  lemma {:induction false} EndsWhenNull(v: View, id: Word, root: Word, candidate: Word, fuel: nat)
    requires NodeAfter(v, id, root, fuel) == 0
    ensures Descend(v, id, root, candidate, fuel).Some?
    decreases fuel
  {
    hide Field;
    if root != 0 && fuel > 0 && Field(v, root, 0x10).Some? {
      var key := Field(v, root, 0x10).value;
      NodeAfterFirst(v, id, root, fuel - 1);
      EndsWhenNull(v, id, NextNode(v, id, root), if key < id then candidate else root, fuel - 1);
    }
  }

  lemma {:induction false} NullWhenEnds(v: View, id: Word, root: Word, candidate: Word, fuel: nat)
    requires Descend(v, id, root, candidate, fuel).Some?
    ensures exists n: nat :: n <= fuel + 1 && NodeAfter(v, id, root, n) == 0
    decreases fuel
  {
    hide Field;
    if root == 0 {
      assert NodeAfter(v, id, root, 0) == 0;
    } else if NextNode(v, id, root) == 0 {
      assert NodeAfter(v, id, root, 0) == root;
      assert NodeAfter(v, id, root, 1) == 0;
    } else {
      var next, key := NextNode(v, id, root), Field(v, root, 0x10).value;
      NullWhenEnds(v, id, next, if key < id then candidate else root, fuel - 1);
      var n: nat :| n <= fuel && NodeAfter(v, id, next, n) == 0;
      NodeAfterFirst(v, id, root, n);
    }
  }

  /** The loop stands at the same node at two different turns. */
  ghost predicate Revisits(v: View, id: Word, root: Word) {
    exists i, j :: 0 <= i < j && NodeAfter(v, id, root, i) == NodeAfter(v, id, root, j) != 0
  }

  lemma {:induction false} RoundAgain(v: View, id: Word, root: Word, i: nat, j: nat, n: nat)
    requires i < j && NodeAfter(v, id, root, i) == NodeAfter(v, id, root, j)
    ensures NodeAfter(v, id, root, i + n) == NodeAfter(v, id, root, j + n)
    decreases n
  {
    hide NextNode;
    if n > 0 {
      RoundAgain(v, id, root, i, j, n - 1);
    }
  }

  lemma {:induction false} NullAfter(v: View, id: Word, root: Word, n: nat, m: nat)
    requires n <= m && NodeAfter(v, id, root, n) == 0
    ensures NodeAfter(v, id, root, m) == 0
    decreases m
  {
    if n < m {
      NullAfter(v, id, root, n, m - 1);
    }
  }

  /** A loop that comes round never reaches null: going back by whole rounds would put null at the first turn. */
  lemma {:induction false} RevisitNeverNull(v: View, id: Word, root: Word, i: nat, j: nat, n: nat)
    requires i < j && NodeAfter(v, id, root, i) == NodeAfter(v, id, root, j) != 0
    ensures NodeAfter(v, id, root, n) != 0
    decreases n
  {
    hide NextNode, NodeAfter;
    if n < j {
      if NodeAfter(v, id, root, n) == 0 {
        NullAfter(v, id, root, n, j);
      }
    } else {
      RoundAgain(v, id, root, i, j, n - j);
      RevisitNeverNull(v, id, root, i, j, i + n - j);
    }
  }

  /** Distinct naturals below `bound` are at most `bound` many. */
  lemma {:induction false} DistinctAreFew(s: seq<nat>, bound: nat)
    requires forall i :: 0 <= i < |s| ==> s[i] < bound
    requires forall i, j :: 0 <= i < j < |s| ==> s[i] != s[j]
    ensures |s| <= bound
    decreases bound
  {
    if s != [] {
      assert s[0] < bound;
      if k :| 0 <= k < |s| && s[k] == bound - 1 {
        DistinctAreFew(s[..k] + s[k + 1..], bound - 1);
      } else {
        DistinctAreFew(s, bound - 1);
      }
    }
  }

  ghost function Visited(v: View, id: Word, root: Word, n: nat): (s: seq<nat>)
    ensures |s| == n && forall i :: 0 <= i < n ==> s[i] == NodeAfter(v, id, root, i)
  {
    seq(n, i requires 0 <= i => NodeAfter(v, id, root, i))
  }

  /** On arbitrary memory the loop ends exactly when it never comes to a node a second time. */
  lemma EndsExactlyWhenNoRevisit(v: View, id: Word, root: Word, candidate: Word)
    ensures (exists fuel: nat :: Descend(v, id, root, candidate, fuel).Some?) <==> !Revisits(v, id, root)
  {
    hide NodeAfter, NextNode, Descend;
    if fuel: nat :| Descend(v, id, root, candidate, fuel).Some? {
      NullWhenEnds(v, id, root, candidate, fuel);
      var n: nat :| n <= fuel + 1 && NodeAfter(v, id, root, n) == 0;
      if i, j :| 0 <= i < j && NodeAfter(v, id, root, i) == NodeAfter(v, id, root, j) != 0 {
        RevisitNeverNull(v, id, root, i, j, n);
      }
    }
    if !Revisits(v, id, root) {
      var s := Visited(v, id, root, SIZE + 1);
      if forall n: nat :: n <= SIZE ==> NodeAfter(v, id, root, n) != 0 {
        forall i, j | 0 <= i < j < |s| ensures s[i] != s[j] {
          assert NodeAfter(v, id, root, i) != 0;
        }
        DistinctAreFew(s, SIZE);
      }
      var n: nat :| n <= SIZE && NodeAfter(v, id, root, n) == 0;
      EndsWhenNull(v, id, root, candidate, n);
    }
  }

  /** In particular a node that is its own child on the side taken is never left. */
  lemma SelfLoopNeverEnds(v: View, node: Word, id: Word, candidate: Word, fuel: nat)
    requires node != 0 && NextNode(v, id, node) == node
    ensures Descend(v, id, node, candidate, fuel).None?
  {
    hide NextNode, Descend;
    assert NodeAfter(v, id, node, 0) == node;
    assert NodeAfter(v, id, node, 1) == node;
    assert Revisits(v, id, node);
    EndsExactlyWhenNoRevisit(v, id, node, candidate);
  }

  // --- the loop itself ---

  /** The source's function, on any memory on which its loop ends. */
  method Search(mem: Memory, ghost v: View, readable: set<Word>, dispatch: Word, id: Word, ghost fuel: nat) returns (handler: Word)
    requires v == View(mem, iset a: Word | a in readable)
    requires FindHandler(v, dispatch, id, fuel).Some?
    ensures FindHandler(v, dispatch, id, fuel) == Some(handler)
  {
    var ok, root := TryRead(mem, v, readable, Wrap(dispatch + 0x0c));
    if !ok { return 0; }
    hide Field, ReadWord, Wrap;
    var end := Wrap(dispatch + 0x08);
    var candidate := end;
    ghost var left := fuel;
    while root != 0
      invariant Descend(v, id, root, candidate, left) == Descend(v, id, ReadWord(v, Wrap(dispatch + 0x0c)).value, end, fuel)
      decreases left
    {
      var key, next;
      ok, key := TryField(mem, v, readable, root, 0x10);
      if !ok { break; }
      if key < id {
        ok, next := TryField(mem, v, readable, root, 0x0c);
        if !ok { break; }
      } else {
        ok, next := TryField(mem, v, readable, root, 0x08);
        if !ok { break; }
        candidate := root;
      }
      root := next;
      left := left - 1;
    }
    handler := Answer(mem, v, readable, id, end, candidate);
  }

  method Answer(mem: Memory, ghost v: View, readable: set<Word>, id: Word, end: Word, candidate: Word) returns (handler: Word)
    requires v == View(mem, iset a: Word | a in readable)
    ensures handler == HandlerOf(v, id, end, candidate)
  {
    hide Field;
    if candidate == end { return 0; }
    var ok, key := TryField(mem, v, readable, candidate, 0x10);
    if !ok || id < key { return 0; }
    ok, handler := TryField(mem, v, readable, candidate, 0x14);
    if !ok { handler := 0; }
  }

  method TryField(mem: Memory, ghost v: View, readable: set<Word>, node: Word, off: nat) returns (ok: bool, w: Word)
    requires v == View(mem, iset x: Word | x in readable)
    ensures ok <==> Field(v, node, off).Some?
    ensures ok ==> Field(v, node, off) == Some(w)
  {
    ok, w := TryRead(mem, v, readable, Wrap(node + off));
  }

  /** safe_read_value on a DWORD. */
  method TryRead(mem: Memory, ghost v: View, readable: set<Word>, a: Word) returns (ok: bool, w: Word)
    requires v == View(mem, iset x: Word | x in readable)
    ensures ok <==> ReadWord(v, a).Some?
    ensures ok ==> ReadWord(v, a) == Some(w)
  {
    if a < 0x10000 || a + 4 > SIZE || a !in readable || Wrap(a + 1) !in readable || Wrap(a + 2) !in readable || Wrap(a + 3) !in readable {
      ok, w := false, 0;
      NotReadable(v, a);
    } else {
      ok, w := true, LoadWord(mem, a);
      FourReadable(v, a);
    }
  }

  lemma FourReadable(v: View, a: Word)
    requires a >= 0x10000 && a + 4 <= SIZE
    requires a in v.readable && Wrap(a + 1) in v.readable && Wrap(a + 2) in v.readable && Wrap(a + 3) in v.readable
    ensures v.CanRead(a, 4)
  {
    forall x: Word | In(x, Span(a, 4)) ensures x in v.readable {
      WrapInside(a, 4, x);
    }
  }

  lemma NotReadable(v: View, a: Word)
    requires a < 0x10000 || a + 4 > SIZE || a !in v.readable || Wrap(a + 1) !in v.readable || Wrap(a + 2) !in v.readable ||
             Wrap(a + 3) !in v.readable
    ensures !v.CanRead(a, 4)
  {
    if a + 4 <= SIZE {
      assert In(a, Span(a, 4)) && In(a + 1, Span(a, 4)) && In(a + 2, Span(a, 4)) && In(a + 3, Span(a, 4));
      assert a in Addresses(Span(a, 4)) && Wrap(a + 1) in Addresses(Span(a, 4)) && Wrap(a + 2) in Addresses(Span(a, 4)) &&
             Wrap(a + 3) in Addresses(Span(a, 4));
    }
  }
}
