/** The key-path walks of the two older generations: `walk_pg_arguments`
    (which descends into every value of dictionaries and lists) and
    `walkdict` (which descends only into dictionary values of
    dictionaries).  Both keep a running branch, a tree of finished
    branches and a level counter with the level of the last descent, and
    record a branch when the walk leaves it one level after entering it,
    i.e. when nothing was entered below it.  The literal state machine is
    `Walk`; `Paths` is the structural description (every entered value
    with nothing entered below it, in document order) and the lemmas
    prove the two agree on every well-formed document. */
module KeyWalk {
  import opened Results
  import opened Dicts
  import opened Json
  import Utils

  /** Which children the walk descends into. */
  datatype Mode =
    | DictsOnly   // `walkdict`: only dictionary values of dictionaries
    | AllValues   // `walk_pg_arguments`: every dictionary value and list item

  /** Number of children the walk looks at. */
  function Kids(m: Mode, v: Json): (r: nat)
    ensures r <= Width(v)
  {
    match v
    case JObj(es) => |es|
    case JArr(xs) => if m.AllValues? then |xs| else 0
    case _ => 0
  }

  /** The key under which child `i` is found: its dictionary key, or its
      list position as an integer. */
  function KeyAt(v: Json, i: nat): Key
    requires i < Width(v)
  {
    match v
    case JObj(es) => KStr(es[i].0)
    case _ => KIdx(i)
  }

  function ChildAt(v: Json, i: nat): Json
    requires i < Width(v)
  {
    match v
    case JObj(es) => es[i].1
    case JArr(xs) => xs[i]
  }

  /** Whether the walk descends into a child value. */
  predicate Enters(m: Mode, c: Json) {
    m.AllValues? || c.JObj?
  }

  /** The walk enters nothing below `v`. */
  predicate Childless(m: Mode, v: Json) {
    forall i | 0 <= i < Kids(m, v) :: !Enters(m, ChildAt(v, i))
  }

  /* ---------------------------------------------------------------------
     The state machine as written
     --------------------------------------------------------------------- */

  /** `(keys_tree, keys_branch, counter, prev_counter)`. */
  datatype State = State(tree: seq<Path>, branch: Path, counter: int, prev: int)

  /** The arguments of the outermost call. */
  const Start := State([], [], 0, 0)

  /** Appending the child's key and counting one level down; the level of
      the last descent is the new level. */
  function Enter(st: State, k: Key): (r: State)
    ensures r.tree == st.tree && r.branch == st.branch + [k]
    ensures r.counter == st.counter + 1 == r.prev
  {
    State(st.tree, st.branch + [k], st.counter + 1, st.counter + 1)
  }

  /** The code after the loop: one level up; a branch not yet in the tree
      is recorded when nothing was entered since it was entered itself
      (the level difference is exactly one), and is then popped. */
  function Close(st: State): (r: State)
    ensures r.counter == st.counter - 1 && r.prev == st.prev
    ensures st.branch == [] ==> r.tree == st.tree && r.branch == []
  {
    var counter := st.counter - 1;
    if st.branch != [] && st.branch !in st.tree then
      var tree := if counter - st.prev == -1 then st.tree + [st.branch] else st.tree;
      State(tree, st.branch[..|st.branch| - 1], counter, st.prev)
    else
      State(st.tree, st.branch, counter, st.prev)
  }

  /** One call of the walk on value `v`. */
  function Walk(m: Mode, v: Json, st: State): State
    decreases v, 1
  {
    Close(Loop(m, v, 0, st))
  }

  /** The loop over the children of `v` from child `i` on. */
  function Loop(m: Mode, v: Json, i: nat, st: State): State
    decreases v, 0, Width(v) - i
  {
    if i >= Kids(m, v) then st
    else
      match v
      case JObj(es) =>
        var next := if Enters(m, es[i].1) then Walk(m, es[i].1, Enter(st, KStr(es[i].0))) else st;
        Loop(m, v, i + 1, next)
      case JArr(xs) =>
        var next := if Enters(m, xs[i]) then Walk(m, xs[i], Enter(st, KIdx(i))) else st;
        Loop(m, v, i + 1, next)
  }

  /** `walk_pg_arguments(value)`: the recorded key paths. */
  function WalkArguments(v: Json): seq<Path> {
    Walk(AllValues, v, Start).tree
  }

  /** `walkdict(data)`.  Not a dictionary: `.items()` fails.  No
      dictionary value at all: the branch is still `None` after the loop,
      is recorded, and slicing it fails. */
  function WalkDict(data: Json): (r: Result<seq<Path>>)
    ensures r.Err? <==> !data.JObj? || Childless(DictsOnly, data)
  {
    if !data.JObj? || Childless(DictsOnly, data) then Err(BadType)
    else Ok(Walk(DictsOnly, data, Start).tree)
  }

  /* ---------------------------------------------------------------------
     The structural description
     --------------------------------------------------------------------- */

  /** The paths (extending `p`, the path of `v`) of the values at or below
      `v` below which nothing is entered, in document order. */
  function Leaves(m: Mode, v: Json, p: Path): (r: seq<Path>)
    ensures |r| > 0
    decreases v, 1
  {
    var below := LeavesFrom(m, v, p, 0);
    if below == [] then [p] else below
  }

  /** The same for the children from position `i` on. */
  function LeavesFrom(m: Mode, v: Json, p: Path, i: nat): seq<Path>
    decreases v, 0, Width(v) - i
  {
    if i >= Kids(m, v) then []
    else
      match v
      case JObj(es) =>
        (if Enters(m, es[i].1) then Leaves(m, es[i].1, p + [KStr(es[i].0)]) else [])
        + LeavesFrom(m, v, p, i + 1)
      case JArr(xs) =>
        (if Enters(m, xs[i]) then Leaves(m, xs[i], p + [KIdx(i)]) else [])
        + LeavesFrom(m, v, p, i + 1)
  }

  /** The paths a walk from the top reports. */
  function Paths(m: Mode, v: Json): seq<Path> {
    LeavesFrom(m, v, [], 0)
  }

  /** The child the walk enters under key `k`, if any. */
  function Child(m: Mode, v: Json, k: Key): Option<Json> {
    match v
    case JObj(es) =>
      if k.KStr? && HasKey(es, k.name) && Enters(m, Get(es, k.name).value) then Get(es, k.name) else None
    case JArr(xs) =>
      if k.KIdx? && m.AllValues? && 0 <= k.index < |xs| then Some(xs[k.index]) else None
    case _ => None
  }

  /** The value the walk reaches along path `t`, if it reaches one. */
  function At(m: Mode, v: Json, t: Path): Option<Json>
    decreases |t|
  {
    if t == [] then Some(v)
    else
      match Child(m, v, t[0])
      case None => None
      case Some(c) => At(m, c, t[1..])
  }

  /* ---------------------------------------------------------------------
     The walk computes the structural description
     --------------------------------------------------------------------- */

  /** No path of the tree runs through `p`. */
  ghost predicate Fresh(tree: seq<Path>, p: Path) {
    forall t | t in tree :: !(p <= t)
  }

  /** No path of the tree runs through a child of `v` from position `i` on. */
  ghost predicate FreshFrom(m: Mode, v: Json, tree: seq<Path>, p: Path, i: nat) {
    forall j | i <= j < Kids(m, v) :: Fresh(tree, p + [KeyAt(v, j)])
  }

  /** Every path below `v` extends the path of `v`. */
  lemma {:induction false} LeavesExtend(m: Mode, v: Json, p: Path)
    ensures forall t | t in Leaves(m, v, p) :: p <= t
    decreases v, 1
  {
    LeavesFromExtend(m, v, p, 0);
  }

  lemma {:induction false} LeavesFromExtend(m: Mode, v: Json, p: Path, i: nat)
    ensures forall t | t in LeavesFrom(m, v, p, i) :: p <= t && |p| < |t|
    decreases v, 0, Width(v) - i
  {
    if i < Kids(m, v) {
      match v
      case JObj(es) =>
        if Enters(m, es[i].1) { LeavesExtend(m, es[i].1, p + [KStr(es[i].0)]); }
        LeavesFromExtend(m, v, p, i + 1);
      case JArr(xs) =>
        if Enters(m, xs[i]) { LeavesExtend(m, xs[i], p + [KIdx(i)]); }
        LeavesFromExtend(m, v, p, i + 1);
    }
  }

  /** The children's part is empty exactly when nothing is entered. */
  lemma {:induction false} LeavesFromEmpty(m: Mode, v: Json, p: Path, i: nat)
    ensures LeavesFrom(m, v, p, i) == [] <==> forall j | i <= j < Kids(m, v) :: !Enters(m, ChildAt(v, j))
    decreases Width(v) - i
  {
    if i < Kids(m, v) {
      LeavesStep(m, v, p, i);
      LeavesFromEmpty(m, v, p, i + 1);
    }
  }

  /** The first loop step, spelled out. */
  lemma LoopStep(m: Mode, v: Json, p: Path, i: nat, st: State)
    requires i < Kids(m, v)
    ensures Loop(m, v, i, st) ==
      Loop(m, v, i + 1, if Enters(m, ChildAt(v, i)) then Walk(m, ChildAt(v, i), Enter(st, KeyAt(v, i))) else st)
    ensures LeavesFrom(m, v, p, i) ==
      (if Enters(m, ChildAt(v, i)) then Leaves(m, ChildAt(v, i), p + [KeyAt(v, i)]) else [])
      + LeavesFrom(m, v, p, i + 1)
  {
    LeavesStep(m, v, p, i);
  }

  /** The first step of the structural description, spelled out. */
  lemma LeavesStep(m: Mode, v: Json, p: Path, i: nat)
    requires i < Kids(m, v)
    ensures LeavesFrom(m, v, p, i) ==
      (if Enters(m, ChildAt(v, i)) then Leaves(m, ChildAt(v, i), p + [KeyAt(v, i)]) else [])
      + LeavesFrom(m, v, p, i + 1)
  {
  }

  /** Distinct children have distinct keys. */
  lemma KeysDistinct(m: Mode, v: Json, i: nat, j: nat)
    requires Wf(v) && i < Kids(m, v) && j < Kids(m, v) && i != j
    ensures KeyAt(v, i) != KeyAt(v, j)
  {
    WfChildren(v);
  }

  lemma ChildWf(m: Mode, v: Json, i: nat)
    requires Wf(v) && i < Kids(m, v)
    ensures Wf(ChildAt(v, i))
  {
    WfChildren(v);
  }

  /** One call on a value entered under a branch not yet in the tree adds
      exactly the value's leaves, pops the branch and leaves the level
      counter one above where it was, with the last descent no higher. */
  lemma {:induction false} WalkLeaves(m: Mode, v: Json, st: State)
    requires Wf(v) && st.branch != [] && st.counter == st.prev && Fresh(st.tree, st.branch)
    ensures Walk(m, v, st).tree == st.tree + Leaves(m, v, st.branch)
    ensures Walk(m, v, st).branch == st.branch[..|st.branch| - 1]
    ensures Walk(m, v, st).counter == st.counter - 1
    ensures Walk(m, v, st).prev >= st.counter
    decreases v, 1
  {
    var p := st.branch;
    LoopLeaves(m, v, 0, st);
    var l := Loop(m, v, 0, st);
    LeavesFromExtend(m, v, p, 0);
    assert p !in l.tree;
    LeavesFromEmpty(m, v, p, 0);
  }

  /** The loop from child `i` on adds the leaves of the children it
      enters, keeps branch and level, and records a descent iff it
      entered something. */
  lemma {:induction false} LoopLeaves(m: Mode, v: Json, i: nat, st: State)
    requires Wf(v) && i <= Kids(m, v) && st.counter <= st.prev
    requires FreshFrom(m, v, st.tree, st.branch, i)
    ensures Loop(m, v, i, st).tree == st.tree + LeavesFrom(m, v, st.branch, i)
    ensures Loop(m, v, i, st).branch == st.branch
    ensures Loop(m, v, i, st).counter == st.counter
    ensures LeavesFrom(m, v, st.branch, i) == [] ==> Loop(m, v, i, st).prev == st.prev
    ensures LeavesFrom(m, v, st.branch, i) != [] ==> Loop(m, v, i, st).prev > st.counter
    decreases v, 0, Width(v) - i, 1
  {
    if i < Kids(m, v) {
      var p := st.branch;
      var c := ChildAt(v, i);
      var k := KeyAt(v, i);
      LoopStep(m, v, p, i, st);
      if Enters(m, c) {
        var next := EnterChild(m, v, i, st);
        LoopLeaves(m, v, i + 1, next);
      } else {
        LoopLeaves(m, v, i + 1, st);
      }
    }
  }

  /** Walking child `i` adds its leaves, returns to the same branch and
      level, and records a descent below the current level. */
  lemma EnterChild(m: Mode, v: Json, i: nat, st: State) returns (next: State)
    requires Wf(v) && i < Kids(m, v) && Enters(m, ChildAt(v, i)) && st.counter <= st.prev
    requires FreshFrom(m, v, st.tree, st.branch, i)
    ensures next == Walk(m, ChildAt(v, i), Enter(st, KeyAt(v, i)))
    ensures next.tree == st.tree + Leaves(m, ChildAt(v, i), st.branch + [KeyAt(v, i)])
    ensures next.branch == st.branch && next.counter == st.counter && next.prev > st.counter
    ensures FreshFrom(m, v, next.tree, st.branch, i + 1)
    decreases v, 0, Width(v) - i, 0
  {
    var p := st.branch;
    var k := KeyAt(v, i);
    ChildWf(m, v, i);
    var entered := Enter(st, k);
    WalkLeaves(m, ChildAt(v, i), entered);
    next := Walk(m, ChildAt(v, i), entered);
    assert next.branch == p by { assert (p + [k])[..|p|] == p; }
    FreshAfterChild(m, v, i, st.tree, p, next.tree);
  }

  /** After the leaves of child `i` are added to the tree, no path runs
      through a later child. */
  lemma FreshAfterChild(m: Mode, v: Json, i: nat, tree: seq<Path>, p: Path, tree': seq<Path>)
    requires Wf(v) && i < Kids(m, v) && Enters(m, ChildAt(v, i))
    requires FreshFrom(m, v, tree, p, i)
    requires tree' == tree + Leaves(m, ChildAt(v, i), p + [KeyAt(v, i)])
    ensures FreshFrom(m, v, tree', p, i + 1)
  {
    var k := KeyAt(v, i);
    LeavesExtend(m, ChildAt(v, i), p + [k]);
    forall j | i + 1 <= j < Kids(m, v)
      ensures Fresh(tree', p + [KeyAt(v, j)])
    {
      KeysDistinct(m, v, i, j);
      forall t | t in tree' ensures !(p + [KeyAt(v, j)] <= t) {
        if t !in tree {
          assert (p + [k]) <= t;
          assert t[|p|] == k;
        }
      }
    }
  }

  /** From the top, the walk reports exactly the structural paths. */
  lemma WalkPaths(m: Mode, v: Json)
    requires Wf(v)
    ensures Walk(m, v, Start).tree == Paths(m, v)
  {
    LoopLeaves(m, v, 0, Start);
  }

  /** `walk_pg_arguments` reports the structural paths over all values. */
  lemma WalkArgumentsPaths(v: Json)
    requires Wf(v)
    ensures WalkArguments(v) == Paths(AllValues, v)
  {
    WalkPaths(AllValues, v);
  }

  /** `walkdict` fails iff the top level holds no dictionary value, and
      otherwise reports the structural paths over dictionaries. */
  lemma WalkDictPaths(data: Json)
    requires Wf(data)
    ensures WalkDict(data).Ok? <==> data.JObj? && !Childless(DictsOnly, data)
    ensures WalkDict(data).Ok? ==> WalkDict(data).value == Paths(DictsOnly, data) != []
  {
    if WalkDict(data).Ok? {
      WalkPaths(DictsOnly, data);
      LeavesFromEmpty(DictsOnly, data, [], 0);
    }
  }

  /* ---------------------------------------------------------------------
     What the structural paths are
     --------------------------------------------------------------------- */

  /** Child `i`, entered, is what the walk reaches under its key. */
  lemma ChildAtKey(m: Mode, v: Json, i: nat)
    requires Wf(v) && i < Kids(m, v) && Enters(m, ChildAt(v, i))
    ensures Child(m, v, KeyAt(v, i)) == Some(ChildAt(v, i))
  {
    WfChildren(v);
    if v.JObj? { GetEntry(v.entries, i); }
  }

  /** Below the key of an entered child, a path continues in that child. */
  lemma AtChild(m: Mode, v: Json, i: nat, p: Path, t: Path)
    requires Wf(v) && i < Kids(m, v) && Enters(m, ChildAt(v, i))
    requires p <= t && |p| < |t| && t[|p|] == KeyAt(v, i)
    ensures At(m, v, t[|p|..]) == At(m, ChildAt(v, i), t[|p| + 1..])
  {
    ChildAtKey(m, v, i);
    var q := t[|p|..];
    assert q[0] == KeyAt(v, i) && q[1..] == t[|p| + 1..];
  }

  /** A path sound for an entered child is sound for its parent. */
  lemma SoundStep(m: Mode, v: Json, p: Path, i: nat, t: Path)
    requires Wf(v) && i < Kids(m, v) && Enters(m, ChildAt(v, i))
    requires p + [KeyAt(v, i)] <= t && At(m, ChildAt(v, i), t[|p + [KeyAt(v, i)]|..]).Some?
    requires Childless(m, At(m, ChildAt(v, i), t[|p + [KeyAt(v, i)]|..]).value)
    ensures p <= t && At(m, v, t[|p|..]).Some? && Childless(m, At(m, v, t[|p|..]).value)
  {
    assert t[|p + [KeyAt(v, i)]|..] == t[|p| + 1..];
    assert p <= t && t[|p|] == KeyAt(v, i) by { assert t[..|p| + 1] == p + [KeyAt(v, i)]; }
    AtChild(m, v, i, p, t);
  }

  /** Every reported path (relative to `p`) reaches a value below which
      nothing is entered. */
  lemma {:induction false} LeavesSound(m: Mode, v: Json, p: Path, t: Path)
    requires Wf(v) && t in Leaves(m, v, p)
    ensures p <= t && At(m, v, t[|p|..]).Some? && Childless(m, At(m, v, t[|p|..]).value)
    decreases v, 1
  {
    if LeavesFrom(m, v, p, 0) == [] {
      LeavesFromEmpty(m, v, p, 0);
      assert t[|p|..] == [];
    } else {
      LeavesFromSound(m, v, p, 0, t);
    }
  }

  lemma {:induction false} LeavesFromSound(m: Mode, v: Json, p: Path, i: nat, t: Path)
    requires Wf(v) && t in LeavesFrom(m, v, p, i)
    ensures p <= t && At(m, v, t[|p|..]).Some? && Childless(m, At(m, v, t[|p|..]).value)
    decreases v, 0, Width(v) - i, 1
  {
    LeavesStep(m, v, p, i);
    if Enters(m, ChildAt(v, i)) && t in Leaves(m, ChildAt(v, i), p + [KeyAt(v, i)]) {
      LeavesChildSound(m, v, p, i, t);
    } else {
      LeavesFromSound(m, v, p, i + 1, t);
    }
  }

  /** The same for a path reported by child `i`. */
  lemma {:induction false} LeavesChildSound(m: Mode, v: Json, p: Path, i: nat, t: Path)
    requires Wf(v) && i < Kids(m, v) && Enters(m, ChildAt(v, i))
    requires t in Leaves(m, ChildAt(v, i), p + [KeyAt(v, i)])
    ensures p <= t && At(m, v, t[|p|..]).Some? && Childless(m, At(m, v, t[|p|..]).value)
    decreases v, 0, Width(v) - i, 0
  {
    var k := KeyAt(v, i);
    ChildWf(m, v, i);
    match v
    case JObj(es) => LeavesSound(m, es[i].1, p + [k], t);
    case JArr(xs) => LeavesSound(m, xs[i], p + [k], t);
    SoundStep(m, v, p, i, t);
  }

  /** Every child's leaves are among the leaves of the children from `i` on. */
  lemma {:induction false} LeavesFromHas(m: Mode, v: Json, p: Path, i: nat, j: nat, t: Path)
    requires i <= j < Kids(m, v) && Enters(m, ChildAt(v, j))
    requires t in Leaves(m, ChildAt(v, j), p + [KeyAt(v, j)])
    ensures t in LeavesFrom(m, v, p, i)
    decreases j - i
  {
    LeavesStep(m, v, p, i);
    if i < j { LeavesFromHas(m, v, p, i + 1, j, t); }
  }

  /** Every value the walk reaches with nothing entered below it is
      reported, under its path. */
  lemma {:induction false} LeavesComplete(m: Mode, v: Json, p: Path, q: Path)
    requires Wf(v) && At(m, v, q).Some? && Childless(m, At(m, v, q).value)
    ensures p + q in Leaves(m, v, p)
    decreases |q|
  {
    if q == [] {
      LeavesFromEmpty(m, v, p, 0);
      assert p + q == p;
    } else {
      var i := ChildIndex(m, v, q[0]);
      ChildAtKey(m, v, i);
      var c := ChildAt(v, i);
      ChildWf(m, v, i);
      LeavesComplete(m, c, p + [q[0]], q[1..]);
      assert p + [q[0]] + q[1..] == p + q;
      LeavesFromHas(m, v, p, 0, i, p + q);
    }
  }

  /** The position of the child entered under `k`. */
  lemma ChildIndex(m: Mode, v: Json, k: Key) returns (i: nat)
    requires Child(m, v, k).Some?
    ensures i < Kids(m, v) && KeyAt(v, i) == k && ChildAt(v, i) == Child(m, v, k).value
    ensures Enters(m, ChildAt(v, i))
  {
    match v
    case JObj(es) => i := IndexOf(es, k.name);
    case JArr(xs) => i := k.index;
  }

  /** The reported paths are exactly the non-empty paths along which the
      walk reaches a value with nothing entered below it. */
  lemma PathsExactly(m: Mode, v: Json, t: Path)
    requires Wf(v)
    ensures t in Paths(m, v) <==> t != [] && At(m, v, t).Some? && Childless(m, At(m, v, t).value)
  {
    if t in Paths(m, v) {
      LeavesFromExtend(m, v, [], 0);
      LeavesFromSound(m, v, [], 0, t);
      assert t[0..] == t;
    }
    if t != [] && At(m, v, t).Some? && Childless(m, At(m, v, t).value) {
      LeavesComplete(m, v, [], t);
      assert [] + t == t;
    }
  }

  /** A reached value is what Python's indexing along the path returns. */
  lemma {:induction false} AtIsIndexing(m: Mode, v: Json, t: Path)
    requires Wf(v) && At(m, v, t).Some?
    ensures Utils.GetPath(v, t) == Ok(At(m, v, t).value)
    decreases |t|
  {
    if t != [] {
      var i := ChildIndex(m, v, t[0]);
      ChildWf(m, v, i);
      AtIsIndexing(m, ChildAt(v, i), t[1..]);
    }
  }
}
