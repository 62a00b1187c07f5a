/** A run of tree operations, as the demo in src/main.rs issues them: each
    command is applied to the tree the previous one left, and the ids the
    run hands out are collected in order. */
module Session {
  import opened Forest
  import opened Walk
  import Render

  datatype Command =
    | AddRootCmd(title: string)
    | AddChildCmd(parent: nat, title: string)
    | ToggleCmd(id: nat)

  /** The tree after a run and the ids the run allocated, oldest first. */
  datatype Outcome = Outcome(tree: Tree, ids: seq<nat>)

  /** The ids from `lo` up to, not including, `hi`. */
  function Range(lo: nat, hi: nat): (s: set<nat>)
    ensures forall k :: k in s <==> lo <= k < hi
    decreases hi - lo
  {
    if hi <= lo then {} else {lo} + Range(lo + 1, hi)
  }

  lemma RangeJoin(lo: nat, mid: nat, hi: nat)
    requires lo <= mid <= hi
    ensures Range(lo, mid) + Range(mid, hi) == Range(lo, hi)
  {
  }

  /** One command. A child under an unknown parent and a toggle allocate
      nothing. */
  function Apply(t: Tree, c: Command): (r: Outcome)
    ensures |r.ids| <= 1
    ensures r.tree.nextId == t.nextId + |r.ids|
    ensures forall i :: 0 <= i < |r.ids| ==> r.ids[i] == t.nextId + i
    ensures r.tree.index.Keys == t.index.Keys + Range(t.nextId, r.tree.nextId)
    ensures WellFormed(t) ==> WellFormed(r.tree)
  {
    match c
    case AddRootCmd(title) =>
      var a := AddRoot(t, title);
      Outcome(a.tree, [a.id])
    case AddChildCmd(parent, title) =>
      var a := AddChild(t, parent, title);
      if a.id.Some? then Outcome(a.tree, [a.id.value]) else Outcome(a.tree, [])
    case ToggleCmd(id) =>
      Outcome(Toggle(t, id).tree, [])
  }

  /** Applies the commands in order. */
  function Replay(t: Tree, cs: seq<Command>): (r: Outcome)
    ensures |r.ids| <= |cs|
    ensures r.tree.nextId == t.nextId + |r.ids|
    ensures forall i :: 0 <= i < |r.ids| ==> r.ids[i] == t.nextId + i
    ensures r.tree.index.Keys == t.index.Keys + Range(t.nextId, r.tree.nextId)
    ensures WellFormed(t) ==> WellFormed(r.tree)
    decreases |cs|
  {
    if cs == [] then Outcome(t, [])
    else
      var a := Apply(t, cs[0]);
      var b := Replay(a.tree, cs[1..]);
      RangeJoin(t.nextId, a.tree.nextId, b.tree.nextId);
      Outcome(b.tree, a.ids + b.ids)
  }

  /** Every command keeps the index equal to what the walk from the roots
      meets, each node once. */
  lemma ApplyValid(t: Tree, c: Command)
    requires Valid(t)
    ensures Valid(Apply(t, c).tree)
  {
    match c
    case AddRootCmd(title) => AddRootValid(t, title);
    case AddChildCmd(parent, title) => AddChildValid(t, parent, title);
    case ToggleCmd(id) => ToggleValid(t, id);
  }

  lemma {:induction false} ReplayValid(t: Tree, cs: seq<Command>)
    requires Valid(t)
    ensures Valid(Replay(t, cs).tree)
    decreases |cs|
  {
    if cs != [] {
      ApplyValid(t, cs[0]);
      ReplayValid(Apply(t, cs[0]).tree, cs[1..]);
    }
  }

  lemma {:induction false} RangeSize(lo: nat, hi: nat)
    requires lo <= hi
    ensures |Range(lo, hi)| == hi - lo
    decreases hi - lo
  {
    if lo < hi {
      RangeSize(lo + 1, hi);
      assert Range(lo, hi) == {lo} + Range(lo + 1, hi);
      assert lo !in Range(lo + 1, hi);
    }
  }

  /** From a fresh tree, the ids a run hands out are 1, 2, 3, ... in order,
      and the index then holds exactly the ids below the counter: ids are
      dense and never reused. */
  lemma ReplayFromEmptyIds(cs: seq<Command>)
    ensures var r := Replay(Empty(), cs);
            && r.tree.nextId == |r.ids| + 1
            && (forall i :: 0 <= i < |r.ids| ==> r.ids[i] == i + 1)
            && r.tree.index.Keys == Range(1, r.tree.nextId)
  {
  }

  /** From a fresh tree, any run leaves a valid tree whose listing has one
      line for every id handed out: no node is ever lost from the listing. */
  lemma ReplayFromEmptyListing(cs: seq<Command>)
    ensures var r := Replay(Empty(), cs);
            Valid(r.tree) && |Render.Pretty(r.tree)| == |r.ids|
  {
    var r := Replay(Empty(), cs);
    EmptyValid();
    ReplayValid(Empty(), cs);
    assert r.tree.index.Keys == Range(1, r.tree.nextId);
    RangeSize(1, r.tree.nextId);
    ValidWalk(r.tree);
  }
}
