/** The to-do forest of src/tree.rs, as an immutable arena.

    The source shares nodes through reference-counted cells: the root list,
    each parent's child list and the id index all point at the same node.
    Here every node lives once, in `index`, and the root list and child
    lists hold ids. Every operation is a pure function from the old tree to
    the new tree and the operation's result. */
module Forest {

  datatype Option<T> = None | Some(value: T)

  /** One task entry. `children` holds the ids of its child nodes, in
      insertion order. */
  datatype Node = Node(id: nat, title: string, done: bool, children: seq<nat>)

  /** The forest: top-level ids in insertion order, the id -> node arena,
      and the counter from which the next id is taken. */
  datatype Tree = Tree(roots: seq<nat>, index: map<nat, Node>, nextId: nat)

  /** The result of an operation that allocates a node. */
  datatype Added = Added(tree: Tree, id: nat)

  /** The result of `add_child`: the id is absent when the parent is unknown. */
  datatype Attached = Attached(tree: Tree, id: Option<nat>)

  /** The result of `toggle`: whether the id was found. */
  datatype Toggled = Toggled(tree: Tree, found: bool)

  /** A fresh node is an incomplete leaf. */
  function NewNode(id: nat, title: string): Node {
    Node(id, title, false, [])
  }

  /** The structural facts every reachable tree keeps: each node is filed
      under its own id, ids start at 1 and stay below the counter, and every
      id held by the root list or a child list names an indexed node. A
      child's id is always above its parent's, because a child is allocated
      after its parent already exists; this is what rules out cycles. */
  ghost predicate WellFormed(t: Tree) {
    && 1 <= t.nextId
    && (forall k :: k in t.index ==> t.index[k].id == k && 1 <= k < t.nextId)
    && (forall i :: 0 <= i < |t.roots| ==> t.roots[i] in t.index)
    && (forall k, i :: k in t.index && 0 <= i < |t.index[k].children| ==>
          t.index[k].children[i] in t.index && k < t.index[k].children[i])
  }

  /** An empty forest; the first id handed out is 1. */
  function Empty(): (t: Tree)
    ensures t.roots == [] && |t.index| == 0 && t.nextId == 1
    ensures WellFormed(t)
  {
    Tree([], map[], 1)
  }

  /** Hands out the counter's value and advances the counter by one. */
  function AllocId(t: Tree): (r: Added)
    ensures r.id == t.nextId && r.tree.nextId == r.id + 1
    ensures r.tree.roots == t.roots && r.tree.index == t.index
    ensures WellFormed(t) ==> r.id !in t.index && WellFormed(r.tree)
    ensures WellFormed(t) ==> forall k :: k in t.index ==> k < r.id
  {
    Added(t.(nextId := t.nextId + 1), t.nextId)
  }

  /** Creates a new top-level node at the end of the root list. */
  function AddRoot(t: Tree, title: string): (r: Added)
    ensures r.id == t.nextId && r.tree.nextId == t.nextId + 1
    ensures r.tree.roots == t.roots + [r.id]
    ensures r.tree.index.Keys == t.index.Keys + {r.id}
    ensures var n := r.tree.index[r.id];
            n.id == r.id && n.title == title && !n.done && n.children == []
    ensures forall k :: k in t.index && k != r.id ==> r.tree.index[k] == t.index[k]
    ensures WellFormed(t) ==> r.id !in t.index && WellFormed(r.tree)
  {
    var a := AllocId(t);
    var node := NewNode(a.id, title);
    Added(Tree(t.roots + [a.id], t.index[a.id := node], a.tree.nextId), a.id)
  }

  /** Creates a new node at the end of the children of `parentId`. An
      unknown parent is reported before any id is allocated, so the tree,
      counter included, is then returned unchanged. */
  function AddChild(t: Tree, parentId: nat, title: string): (r: Attached)
    ensures parentId !in t.index <==> r.id == None
    ensures parentId !in t.index ==> r.tree == t
    ensures parentId in t.index ==>
              && r.id == Some(t.nextId)
              && r.tree.nextId == t.nextId + 1
              && r.tree.roots == t.roots
              && r.tree.index.Keys == t.index.Keys + {t.nextId}
              && var n := r.tree.index[t.nextId];
                 n.id == t.nextId && n.title == title && !n.done && n.children == []
    ensures parentId in t.index && parentId != t.nextId ==>
              var p, p' := t.index[parentId], r.tree.index[parentId];
              p' == p.(children := p.children + [t.nextId])
    ensures parentId in t.index ==>
              forall k :: k in t.index && k != parentId && k != t.nextId ==>
                r.tree.index[k] == t.index[k]
    ensures WellFormed(t) ==> WellFormed(r.tree)
  {
    if parentId !in t.index then
      Attached(t, None)
    else
      var parent := t.index[parentId];
      var a := AllocId(t);
      var child := NewNode(a.id, title);
      var index := t.index[parentId := parent.(children := parent.children + [a.id])];
      Attached(Tree(t.roots, index[a.id := child], a.tree.nextId), Some(a.id))
  }

  /** Flips `done` on the one node `id` names; nothing else changes, and an
      unknown id changes nothing at all. */
  function Toggle(t: Tree, id: nat): (r: Toggled)
    ensures r.found <==> id in t.index
    ensures !r.found ==> r.tree == t
    ensures r.tree.roots == t.roots && r.tree.nextId == t.nextId
    ensures r.tree.index.Keys == t.index.Keys
    ensures r.found ==> r.tree.index[id] == t.index[id].(done := !t.index[id].done)
    ensures forall k :: k in t.index && k != id ==> r.tree.index[k] == t.index[k]
    ensures WellFormed(t) ==> WellFormed(r.tree)
  {
    if id in t.index then
      var n := t.index[id];
      Toggled(t.(index := t.index[id := n.(done := !n.done)]), true)
    else
      Toggled(t, false)
  }

  /** Read-only lookup through the index. */
  function Get(t: Tree, id: nat): (r: Option<Node>)
    ensures r.Some? <==> id in t.index
    ensures r.Some? ==> r.value == t.index[id]
  {
    if id in t.index then Some(t.index[id]) else None
  }

  /** Toggling the same id twice gives back the tree it started from. */
  lemma ToggleTwice(t: Tree, id: nat)
    ensures Toggle(Toggle(t, id).tree, id) == Toggled(t, id in t.index)
  {
  }

  /** After `AddRoot` the new id reads back as a fresh incomplete leaf, and
      every id that was present reads back as before. */
  lemma GetAfterAddRoot(t: Tree, title: string, k: nat)
    requires WellFormed(t)
    ensures var r := AddRoot(t, title);
            Get(r.tree, k) == if k == r.id then Some(NewNode(r.id, title)) else Get(t, k)
  {
  }

  /** After `AddChild` under a known parent, the new id reads back as a
      fresh leaf, the parent has gained it as its last child, and every other
      id reads back as before. */
  lemma GetAfterAddChild(t: Tree, parentId: nat, title: string, k: nat)
    requires WellFormed(t)
    ensures var r := AddChild(t, parentId, title);
            Get(r.tree, k) ==
              if r.id == Some(k) then Some(NewNode(k, title))
              else if k == parentId && r.id.Some? then
                Some(t.index[k].(children := t.index[k].children + [r.id.value]))
              else Get(t, k)
  {
  }

  /** After `Toggle`, only the toggled id reads back differently. */
  lemma GetAfterToggle(t: Tree, id: nat, k: nat)
    ensures Get(Toggle(t, id).tree, k) ==
              if k == id && k in t.index then Some(t.index[k].(done := !t.index[k].done))
              else Get(t, k)
  {
  }
}
