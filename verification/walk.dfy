/** The pre-order walk of the forest (the order in which `fmt_pretty` and
    `fmt_node` of src/tree.rs visit nodes) and the invariant it carries:
    walking from the roots meets every indexed node exactly once and meets
    nothing else. */
module Walk {
  import opened Forest

  /** One visited node and its depth below the root list. */
  datatype Entry = Entry(id: nat, depth: nat)

  /** Pre-order walk of the subtrees rooted at `ids`, in list order, each
      node followed by the walk of its children one level deeper. `above` is
      a lower bound on the ids being walked; it only serves termination. */
  function Outline(t: Tree, ids: seq<nat>, depth: nat, ghost above: nat): seq<Entry>
    requires WellFormed(t)
    requires forall i :: 0 <= i < |ids| ==> ids[i] in t.index && above < ids[i]
    decreases t.nextId - above, |ids|
  {
    if ids == [] then []
    else
      var n := t.index[ids[0]];
      [Entry(ids[0], depth)] + Outline(t, n.children, depth + 1, ids[0]) + Outline(t, ids[1..], depth, above)
  }

  /** The whole forest, roots at depth 0. */
  function Preorder(t: Tree): seq<Entry>
    requires WellFormed(t)
  {
    Outline(t, t.roots, 0, 0)
  }

  /** The ids of a walk, in walk order. */
  function Ids(o: seq<Entry>): seq<nat> {
    seq(|o|, j requires 0 <= j < |o| => o[j].id)
  }

  /** Everything a walk meets is an indexed node below the starting depth,
      with an id above the bound. */
  lemma {:induction false} OutlineBounds(t: Tree, ids: seq<nat>, depth: nat, above: nat)
    requires WellFormed(t)
    requires forall i :: 0 <= i < |ids| ==> ids[i] in t.index && above < ids[i]
    ensures forall e :: e in Outline(t, ids, depth, above) ==> e.id in t.index && above < e.id && depth <= e.depth
    decreases t.nextId - above, |ids|
  {
    if ids != [] {
      var sub := Outline(t, t.index[ids[0]].children, depth + 1, ids[0]);
      var rest := Outline(t, ids[1..], depth, above);
      OutlineBounds(t, t.index[ids[0]].children, depth + 1, ids[0]);
      OutlineBounds(t, ids[1..], depth, above);
      assert Outline(t, ids, depth, above) == [Entry(ids[0], depth)] + sub + rest;
    }
  }

  /** The tree invariant: structurally well formed, and the walk from the
      roots lists every indexed id exactly once and no other id. So the
      index holds exactly the reachable nodes (`ReachableIffIndexed`), and
      each node has exactly one owner, one root slot or one slot in one
      child list (`SingleOwner`). */
  ghost predicate Valid(t: Tree) {
    WellFormed(t) && multiset(Ids(Preorder(t))) == multiset(t.index.Keys)
  }

  lemma IdsConcat(a: seq<Entry>, b: seq<Entry>)
    ensures Ids(a + b) == Ids(a) + Ids(b)
  {
  }

  /** Walking a concatenation of id lists walks each in turn. */
  lemma {:induction false} OutlineConcat(t: Tree, xs: seq<nat>, ys: seq<nat>, depth: nat, above: nat)
    requires WellFormed(t)
    requires forall i :: 0 <= i < |xs| ==> xs[i] in t.index && above < xs[i]
    requires forall i :: 0 <= i < |ys| ==> ys[i] in t.index && above < ys[i]
    ensures Outline(t, xs + ys, depth, above) == Outline(t, xs, depth, above) + Outline(t, ys, depth, above)
    decreases |xs|
  {
    if xs == [] {
      assert xs + ys == ys;
    } else {
      assert (xs + ys)[1..] == xs[1..] + ys;
      OutlineConcat(t, xs[1..], ys, depth, above);
    }
  }

  /** Two trees whose nodes have the same child lists walk alike: the walk
      depends only on the child lists, never on titles or `done` flags, and
      not on nodes the walk does not reach. */
  lemma {:induction false} OutlineSameShape(t: Tree, t': Tree, ids: seq<nat>, depth: nat, above: nat)
    requires WellFormed(t) && WellFormed(t')
    requires forall k :: k in t.index ==> k in t'.index && t'.index[k].children == t.index[k].children
    requires forall i :: 0 <= i < |ids| ==> ids[i] in t.index && above < ids[i]
    ensures Outline(t', ids, depth, above) == Outline(t, ids, depth, above)
    decreases t.nextId - above, |ids|
  {
    if ids != [] {
      OutlineSameShape(t, t', t.index[ids[0]].children, depth + 1, ids[0]);
      OutlineSameShape(t, t', ids[1..], depth, above);
    }
  }

  /** The ids met by walking a non-empty list: its head, then the head's
      subtree, then the rest of the list. */
  lemma OutlineIdsUnfold(t: Tree, ids: seq<nat>, depth: nat, above: nat)
    requires WellFormed(t)
    requires forall i :: 0 <= i < |ids| ==> ids[i] in t.index && above < ids[i]
    requires ids != []
    ensures multiset(Ids(Outline(t, ids, depth, above))) ==
              multiset{ids[0]}
              + multiset(Ids(Outline(t, t.index[ids[0]].children, depth + 1, ids[0])))
              + multiset(Ids(Outline(t, ids[1..], depth, above)))
  {
    var sub := Outline(t, t.index[ids[0]].children, depth + 1, ids[0]);
    var rest := Outline(t, ids[1..], depth, above);
    IdsConcat([Entry(ids[0], depth)] + sub, rest);
    IdsConcat([Entry(ids[0], depth)], sub);
  }

  /** The hypotheses `OutlineGraft` shares with its helpers: `t'` is `t`
      with `newId`, a leaf, appended to the children of `parent`. */
  ghost predicate Grafted(t: Tree, t': Tree, parent: nat, newId: nat) {
    && WellFormed(t) && WellFormed(t')
    && parent in t.index && newId !in t.index
    && (forall k :: k in t'.index <==> k in t.index || k == newId)
    && t'.index[newId].children == []
    && t'.index[parent].children == t.index[parent].children + [newId]
    && (forall k :: k in t.index && k != parent ==> t'.index[k].children == t.index[k].children)
  }

  /** In the grafted tree, the children of `h` walk as the old children did,
      plus the new leaf at the end when `h` is the parent. */
  lemma GraftedChildren(t: Tree, t': Tree, parent: nat, newId: nat, h: nat, depth: nat)
    requires Grafted(t, t', parent, newId)
    requires h in t.index
    ensures var cs := t.index[h].children;
            multiset(Ids(Outline(t', t'.index[h].children, depth, h))) ==
              multiset(Ids(Outline(t', cs, depth, h))) + if h == parent then multiset{newId} else multiset{}
  {
    var cs, cs' := t.index[h].children, t'.index[h].children;
    if h == parent {
      assert cs' == cs + [newId] && cs'[|cs|] == newId;
      OutlineConcat(t', cs, [newId], depth, h);
      assert Outline(t', [newId], depth, h) == [Entry(newId, depth)];
      IdsConcat(Outline(t', cs, depth, h), [Entry(newId, depth)]);
      assert Ids([Entry(newId, depth)]) == [newId];
    }
  }

  /** The counting step of `OutlineGraft`, on multisets alone. */
  lemma GraftCount(m: multiset<nat>, m': multiset<nat>, sub: multiset<nat>, sub': multiset<nat>,
                   subNew: multiset<nat>, rest: multiset<nat>, rest': multiset<nat>,
                   h: nat, parent: nat, newId: nat, x: nat)
    requires h != newId
    requires m == multiset{h} + sub + rest && m' == multiset{h} + subNew + rest'
    requires subNew == sub' + if h == parent then multiset{newId} else multiset{}
    requires sub'[x] == if x == newId then sub[parent] else sub[x]
    requires rest'[x] == if x == newId then rest[parent] else rest[x]
    ensures m'[x] == if x == newId then m[parent] else m[x]
  {
  }

  /** The effect of appending `newId` to the children of `parent`, seen in
      the walk: `newId` now occurs as often as `parent` did, and every other
      id `x` as often as before. */
  lemma {:induction false} OutlineGraft(t: Tree, t': Tree, parent: nat, newId: nat, ids: seq<nat>, depth: nat, above: nat, x: nat)
    requires Grafted(t, t', parent, newId)
    requires forall i :: 0 <= i < |ids| ==> ids[i] in t.index && above < ids[i]
    ensures var m, m' := multiset(Ids(Outline(t, ids, depth, above))), multiset(Ids(Outline(t', ids, depth, above)));
            m'[x] == if x == newId then m[parent] else m[x]
    decreases t.nextId - above, |ids|
  {
    if ids != [] {
      var h := ids[0];
      var cs := t.index[h].children;
      OutlineGraft(t, t', parent, newId, cs, depth + 1, h, x);
      OutlineGraft(t, t', parent, newId, ids[1..], depth, above, x);
      OutlineIdsUnfold(t, ids, depth, above);
      OutlineIdsUnfold(t', ids, depth, above);
      GraftedChildren(t, t', parent, newId, h, depth + 1);
      GraftCount(multiset(Ids(Outline(t, ids, depth, above))), multiset(Ids(Outline(t', ids, depth, above))),
                 multiset(Ids(Outline(t, cs, depth + 1, h))), multiset(Ids(Outline(t', cs, depth + 1, h))),
                 multiset(Ids(Outline(t', t'.index[h].children, depth + 1, h))),
                 multiset(Ids(Outline(t, ids[1..], depth, above))), multiset(Ids(Outline(t', ids[1..], depth, above))),
                 h, parent, newId, x);
    }
  }

  /** A fresh tree is valid and has nothing to walk. */
  lemma EmptyValid()
    ensures Valid(Empty()) && Preorder(Empty()) == []
  {
  }

  /** After `AddRoot` the walk is the old walk followed by the new root. */
  lemma AddRootWalk(t: Tree, title: string)
    requires WellFormed(t)
    ensures var r := AddRoot(t, title);
            Preorder(r.tree) == Preorder(t) + [Entry(r.id, 0)]
  {
    var r := AddRoot(t, title);
    var t' := r.tree;
    OutlineConcat(t', t.roots, [r.id], 0, 0);
    OutlineSameShape(t, t', t.roots, 0, 0);
    assert Outline(t', [r.id], 0, 0) == [Entry(r.id, 0)];
  }

  lemma AddRootValid(t: Tree, title: string)
    requires Valid(t)
    ensures var r := AddRoot(t, title);
            Valid(r.tree) && Preorder(r.tree) == Preorder(t) + [Entry(r.id, 0)]
  {
    var r := AddRoot(t, title);
    var t' := r.tree;
    AddRootWalk(t, title);
    IdsConcat(Preorder(t), [Entry(r.id, 0)]);
    assert Ids([Entry(r.id, 0)]) == [r.id];
    calc {
      multiset(Ids(Preorder(t')));
      multiset(Ids(Preorder(t)) + [r.id]);
      multiset(Ids(Preorder(t))) + multiset{r.id};
      multiset(t.index.Keys) + multiset{r.id};
      { assert t'.index.Keys == t.index.Keys + {r.id}; }
      multiset(t'.index.Keys);
    }
  }

  lemma AddChildValid(t: Tree, parentId: nat, title: string)
    requires Valid(t)
    ensures Valid(AddChild(t, parentId, title).tree)
  {
    if parentId in t.index {
      var r := AddChild(t, parentId, title);
      var t' := r.tree;
      var newId := t.nextId;
      var m, m' := multiset(Ids(Preorder(t))), multiset(Ids(Preorder(t')));
      assert t'.index.Keys == t.index.Keys + {newId};
      assert Grafted(t, t', parentId, newId);
      forall x
        ensures m'[x] == multiset(t'.index.Keys)[x]
      {
        OutlineGraft(t, t', parentId, newId, t.roots, 0, 0, x);
        if x == newId {
          assert m[parentId] == 1;
        } else {
          assert m'[x] == m[x];
        }
      }
      assert m' == multiset(t'.index.Keys);
    }
  }

  lemma ToggleValid(t: Tree, id: nat)
    requires Valid(t)
    ensures var t' := Toggle(t, id).tree;
            Valid(t') && Preorder(t') == Preorder(t)
  {
    OutlineSameShape(t, Toggle(t, id).tree, t.roots, 0, 0);
  }

  /** A walk that holds each id at most once lists pairwise distinct ids. */
  lemma DistinctWhenSingle(s: seq<nat>)
    requires forall x :: multiset(s)[x] <= 1
    ensures forall i, j :: 0 <= i < j < |s| ==> s[i] != s[j]
  {
    forall i, j | 0 <= i < j < |s|
      ensures s[i] != s[j]
    {
      assert s == s[..j] + s[j..];
      assert s[j] in multiset(s[j..]);
      assert multiset(s)[s[j]] == multiset(s[..j])[s[j]] + multiset(s[j..])[s[j]];
      assert s[j] !in multiset(s[..j]);
      assert s[i] in s[..j];
    }
  }

  /** The walk of a valid tree meets each indexed node exactly once and
      nothing else: one entry per node, no repeats, no strays. */
  lemma ValidWalk(t: Tree)
    requires Valid(t)
    ensures var w := Preorder(t);
            && |w| == |t.index|
            && (forall j :: 0 <= j < |w| ==> w[j].id in t.index)
            && (forall k :: k in t.index ==> exists j :: 0 <= j < |w| && w[j].id == k)
            && (forall i, j :: 0 <= i < j < |w| ==> w[i].id != w[j].id)
  {
    var w := Preorder(t);
    var s := Ids(w);
    assert |s| == |w|;
    assert |multiset(s)| == |multiset(t.index.Keys)| == |t.index.Keys|;
    forall j | 0 <= j < |w|
      ensures w[j].id in t.index
    {
      assert s[j] in multiset(s);
    }
    forall k | k in t.index
      ensures exists j :: 0 <= j < |w| && w[j].id == k
    {
      assert k in multiset(s);
      var j :| 0 <= j < |s| && s[j] == k;
      assert w[j].id == k;
    }
    forall x
      ensures multiset(s)[x] <= 1
    {
    }
    DistinctWhenSingle(s);
    forall i, j | 0 <= i < j < |w|
      ensures w[i].id != w[j].id
    {
      assert s[i] != s[j];
    }
  }

  /** The child-list slots of the nodes a walk meets, counted with
      multiplicity. */
  ghost function ChildSlots(t: Tree, o: seq<Entry>): multiset<nat>
    requires forall e :: e in o ==> e.id in t.index
    decreases |o|
  {
    if o == [] then multiset{} else multiset(t.index[o[0].id].children) + ChildSlots(t, o[1..])
  }

  lemma {:induction false} ChildSlotsConcat(t: Tree, a: seq<Entry>, b: seq<Entry>)
    requires forall e :: e in a + b ==> e.id in t.index
    ensures ChildSlots(t, a + b) == ChildSlots(t, a) + ChildSlots(t, b)
    decreases |a|
  {
    if a == [] {
      assert a + b == b;
    } else {
      assert (a + b)[1..] == a[1..] + b;
      ChildSlotsConcat(t, a[1..], b);
    }
  }

  /** The children of every node a walk meets are among its slots. */
  lemma {:induction false} ChildSlotsHas(t: Tree, o: seq<Entry>, i: nat)
    requires forall e :: e in o ==> e.id in t.index
    requires i < |o|
    ensures multiset(t.index[o[i].id].children) <= ChildSlots(t, o)
    decreases i
  {
    if i > 0 {
      ChildSlotsHas(t, o[1..], i - 1);
    }
  }

  /** Two distinct entries of a walk contribute their child lists
      separately. */
  lemma ChildSlotsTwo(t: Tree, o: seq<Entry>, i: nat, j: nat)
    requires forall e :: e in o ==> e.id in t.index
    requires i < j < |o|
    ensures multiset(t.index[o[i].id].children) + multiset(t.index[o[j].id].children) <= ChildSlots(t, o)
  {
    assert o == o[..j] + o[j..];
    ChildSlotsConcat(t, o[..j], o[j..]);
    ChildSlotsHas(t, o[..j], i);
    ChildSlotsHas(t, o[j..], 0);
  }

  /** Every slot belongs to the child list of some node the walk meets. */
  lemma {:induction false} ChildSlotsOwner(t: Tree, o: seq<Entry>, k: nat)
    requires forall e :: e in o ==> e.id in t.index
    requires k in ChildSlots(t, o)
    ensures exists i :: 0 <= i < |o| && k in t.index[o[i].id].children
    decreases |o|
  {
    if k !in multiset(t.index[o[0].id].children) {
      ChildSlotsOwner(t, o[1..], k);
      var i :| 0 <= i < |o[1..]| && k in t.index[o[1..][i].id].children;
      assert o[1..][i] == o[i + 1];
    }
  }

  /** The slots of a walk that starts with `h`, followed by `sub` and
      `rest`. */
  lemma ChildSlotsUnfold(t: Tree, h: nat, depth: nat, sub: seq<Entry>, rest: seq<Entry>)
    requires h in t.index
    requires forall e :: e in sub ==> e.id in t.index
    requires forall e :: e in rest ==> e.id in t.index
    ensures forall e :: e in [Entry(h, depth)] + sub + rest ==> e.id in t.index
    ensures ChildSlots(t, [Entry(h, depth)] + sub + rest) ==
              multiset(t.index[h].children) + ChildSlots(t, sub) + ChildSlots(t, rest)
  {
    var head := [Entry(h, depth)];
    ChildSlotsConcat(t, head + sub, rest);
    ChildSlotsConcat(t, head, sub);
    assert ChildSlots(t, head) == multiset(t.index[h].children);
  }

  /** A walk meets exactly the ids it starts from plus the children of
      every node it meets. */
  lemma {:induction false} OutlineSlots(t: Tree, ids: seq<nat>, depth: nat, above: nat)
    requires WellFormed(t)
    requires forall i :: 0 <= i < |ids| ==> ids[i] in t.index && above < ids[i]
    ensures forall e :: e in Outline(t, ids, depth, above) ==> e.id in t.index
    ensures multiset(Ids(Outline(t, ids, depth, above))) == multiset(ids) + ChildSlots(t, Outline(t, ids, depth, above))
    decreases t.nextId - above, |ids|
  {
    OutlineBounds(t, ids, depth, above);
    if ids != [] {
      var h := ids[0];
      var cs := t.index[h].children;
      var sub, rest := Outline(t, cs, depth + 1, h), Outline(t, ids[1..], depth, above);
      OutlineSlots(t, cs, depth + 1, h);
      OutlineSlots(t, ids[1..], depth, above);
      SlotsCompose(t, ids, depth, Outline(t, ids, depth, above), sub, rest);
    }
  }

  /** One step of `OutlineSlots`: the walk of `ids` is its head, the walk
      `sub` of the head's children and the walk `rest` of the later ids. */
  lemma SlotsCompose(t: Tree, ids: seq<nat>, depth: nat, o: seq<Entry>, sub: seq<Entry>, rest: seq<Entry>)
    requires ids != [] && ids[0] in t.index
    requires o == [Entry(ids[0], depth)] + sub + rest
    requires forall e :: e in sub ==> e.id in t.index
    requires forall e :: e in rest ==> e.id in t.index
    requires multiset(Ids(sub)) == multiset(t.index[ids[0]].children) + ChildSlots(t, sub)
    requires multiset(Ids(rest)) == multiset(ids[1..]) + ChildSlots(t, rest)
    ensures forall e :: e in o ==> e.id in t.index
    ensures multiset(Ids(o)) == multiset(ids) + ChildSlots(t, o)
  {
    var h := ids[0];
    IdsUnfold(h, depth, sub, rest);
    ChildSlotsUnfold(t, h, depth, sub, rest);
    MultisetCons(ids);
    SlotsStep(multiset(Ids(o)), multiset(Ids(sub)), multiset(Ids(rest)), multiset(ids), multiset(ids[1..]),
              multiset(t.index[h].children), ChildSlots(t, o), ChildSlots(t, sub), ChildSlots(t, rest), h);
  }

  lemma IdsUnfold(h: nat, depth: nat, sub: seq<Entry>, rest: seq<Entry>)
    ensures multiset(Ids([Entry(h, depth)] + sub + rest)) == multiset{h} + multiset(Ids(sub)) + multiset(Ids(rest))
  {
    var head := [Entry(h, depth)];
    IdsConcat(head + sub, rest);
    IdsConcat(head, sub);
    assert Ids(head) == [h];
  }

  lemma MultisetCons(s: seq<nat>)
    requires s != []
    ensures multiset(s) == multiset{s[0]} + multiset(s[1..])
  {
    assert s == [s[0]] + s[1..];
  }

  /** The counting step of `OutlineSlots`, on multisets alone. */
  lemma SlotsStep(mo: multiset<nat>, mSub: multiset<nat>, mRest: multiset<nat>, mIds: multiset<nat>, mTail: multiset<nat>,
                  cs: multiset<nat>, so: multiset<nat>, sSub: multiset<nat>, sRest: multiset<nat>, h: nat)
    requires mo == multiset{h} + mSub + mRest
    requires mSub == cs + sSub && mRest == mTail + sRest
    requires so == cs + sSub + sRest
    requires mIds == multiset{h} + mTail
    ensures mo == mIds + so
  {
  }

  /** In a valid tree the root list and the child lists of all nodes
      together hold every indexed id exactly once, and nothing else. */
  lemma SlotsOfValid(t: Tree)
    requires Valid(t)
    ensures forall e :: e in Preorder(t) ==> e.id in t.index
    ensures multiset(t.roots) + ChildSlots(t, Preorder(t)) == multiset(t.index.Keys)
  {
    OutlineSlots(t, t.roots, 0, 0);
  }

  /** In a valid tree each id fills at most one slot, root or child. */
  lemma SlotBound(t: Tree, c: nat)
    requires Valid(t)
    ensures forall e :: e in Preorder(t) ==> e.id in t.index
    ensures multiset(t.roots)[c] + ChildSlots(t, Preorder(t))[c] <= 1
  {
    SlotsOfValid(t);
    assert multiset(t.index.Keys)[c] <= 1;
  }

  /** No id appears twice in the root list of a valid tree. */
  lemma RootsDistinct(t: Tree)
    requires Valid(t)
    ensures forall i, j :: 0 <= i < j < |t.roots| ==> t.roots[i] != t.roots[j]
  {
    SlotsOfValid(t);
    forall x
      ensures multiset(t.roots)[x] <= 1
    {
      assert multiset(t.roots)[x] <= multiset(t.index.Keys)[x];
    }
    DistinctWhenSingle(t.roots);
  }

  /** In a valid tree a node's children are among the child slots of the
      walk, since the walk meets the node. */
  lemma ChildrenInSlots(t: Tree, p: nat)
    requires Valid(t) && p in t.index
    ensures forall e :: e in Preorder(t) ==> e.id in t.index
    ensures multiset(t.index[p].children) <= ChildSlots(t, Preorder(t))
  {
    SlotsOfValid(t);
    ValidWalk(t);
    var w := Preorder(t);
    var j :| 0 <= j < |w| && w[j].id == p;
    ChildSlotsHas(t, w, j);
  }

  /** No id appears twice in one child list of a valid tree. */
  lemma ChildrenDistinct(t: Tree, p: nat)
    requires Valid(t) && p in t.index
    ensures var cs := t.index[p].children;
            forall i, j :: 0 <= i < j < |cs| ==> cs[i] != cs[j]
  {
    var cs := t.index[p].children;
    ChildrenInSlots(t, p);
    forall x
      ensures multiset(cs)[x] <= 1
    {
      SlotBound(t, x);
      assert multiset(cs)[x] <= ChildSlots(t, Preorder(t))[x];
    }
    DistinctWhenSingle(cs);
  }

  /** A child of a node of a valid tree is not also a root. */
  lemma RootNotChild(t: Tree, p: nat, c: nat)
    requires Valid(t) && p in t.index && c in t.index[p].children
    ensures c !in t.roots
  {
    SlotBound(t, c);
    ChildrenInSlots(t, p);
    assert multiset(t.index[p].children)[c] <= ChildSlots(t, Preorder(t))[c];
  }

  /** Two nodes of a valid tree that list the same child are the same
      node. */
  lemma OneParent(t: Tree, p: nat, q: nat, c: nat)
    requires Valid(t) && p in t.index && q in t.index
    requires c in t.index[p].children && c in t.index[q].children
    ensures p == q
  {
    if p != q {
      SlotBound(t, c);
      ValidWalk(t);
      var w := Preorder(t);
      var i :| 0 <= i < |w| && w[i].id == p;
      var j :| 0 <= j < |w| && w[j].id == q;
      TwoOwners(t, w, i, j, c);
      assert false;
    }
  }

  /** A value in the child lists of two distinct entries of a walk is
      counted twice by the walk's slots. */
  lemma TwoOwners(t: Tree, w: seq<Entry>, i: nat, j: nat, c: nat)
    requires forall e :: e in w ==> e.id in t.index
    requires i < |w| && j < |w| && i != j
    requires c in t.index[w[i].id].children && c in t.index[w[j].id].children
    ensures ChildSlots(t, w)[c] >= 2
  {
    if i < j {
      ChildSlotsTwo(t, w, i, j);
    } else {
      ChildSlotsTwo(t, w, j, i);
    }
    var both := multiset(t.index[w[i].id].children) + multiset(t.index[w[j].id].children);
    assert both[c] >= 2;
  }

  /** Every node of a valid tree is a root or a child of some node. */
  lemma HasOwner(t: Tree, k: nat)
    requires Valid(t) && k in t.index
    ensures k in t.roots || exists p :: p in t.index && k in t.index[p].children
  {
    SlotsOfValid(t);
    var w := Preorder(t);
    if k !in t.roots {
      assert multiset(t.index.Keys)[k] == 1;
      assert k in ChildSlots(t, w);
      ChildSlotsOwner(t, w, k);
      var i :| 0 <= i < |w| && k in t.index[w[i].id].children;
    }
  }

  /** Each node of a valid tree has exactly one owner: it sits either in
      the root list or in the child list of exactly one node, and only once
      there. No id is repeated in the root list or in any one child list, no
      child is also a root, and no two nodes share a child. */
  lemma SingleOwner(t: Tree)
    requires Valid(t)
    ensures forall i, j :: 0 <= i < j < |t.roots| ==> t.roots[i] != t.roots[j]
    ensures forall p, i, j :: p in t.index && 0 <= i < j < |t.index[p].children| ==>
              t.index[p].children[i] != t.index[p].children[j]
    ensures forall p, c :: p in t.index && c in t.index[p].children ==> c !in t.roots
    ensures forall p, q, c :: p in t.index && q in t.index && c in t.index[p].children && c in t.index[q].children ==> p == q
    ensures forall k :: k in t.index ==> k in t.roots || exists p :: p in t.index && k in t.index[p].children
  {
    RootsDistinct(t);
    forall p | p in t.index {
      ChildrenDistinct(t, p);
    }
    forall p, c | p in t.index && c in t.index[p].children {
      RootNotChild(t, p, c);
    }
    forall p, q, c | p in t.index && q in t.index && c in t.index[p].children && c in t.index[q].children {
      OneParent(t, p, q, c);
    }
    forall k | k in t.index {
      HasOwner(t, k);
    }
  }

  /** A chain of child links starting at a root. */
  ghost predicate IsPath(t: Tree, path: seq<nat>) {
    && |path| >= 1
    && path[0] in t.roots
    && forall i :: 0 <= i < |path| - 1 ==> path[i] in t.index && path[i + 1] in t.index[path[i]].children
  }

  /** Reachability from the root list by following child links, defined
      independently of the walk. */
  ghost predicate Reachable(t: Tree, k: nat) {
    exists path :: IsPath(t, path) && path[|path| - 1] == k
  }

  lemma ReachableChild(t: Tree, k: nat, c: nat)
    requires Reachable(t, k) && k in t.index && c in t.index[k].children
    ensures Reachable(t, c)
  {
    var path :| IsPath(t, path) && path[|path| - 1] == k;
    var longer := path + [c];
    assert IsPath(t, longer);
  }

  /** Everything a walk from reachable ids meets is reachable. */
  lemma {:induction false} OutlineReachable(t: Tree, ids: seq<nat>, depth: nat, above: nat)
    requires WellFormed(t)
    requires forall i :: 0 <= i < |ids| ==> ids[i] in t.index && above < ids[i]
    requires forall i :: 0 <= i < |ids| ==> Reachable(t, ids[i])
    ensures forall e :: e in Outline(t, ids, depth, above) ==> Reachable(t, e.id)
    decreases t.nextId - above, |ids|
  {
    if ids != [] {
      var h := ids[0];
      var cs := t.index[h].children;
      forall i | 0 <= i < |cs|
        ensures Reachable(t, cs[i])
      {
        ReachableChild(t, h, cs[i]);
      }
      OutlineReachable(t, cs, depth + 1, h);
      OutlineReachable(t, ids[1..], depth, above);
      assert Outline(t, ids, depth, above) == [Entry(h, depth)] + Outline(t, cs, depth + 1, h) + Outline(t, ids[1..], depth, above);
    }
  }

  /** In a valid tree the index holds exactly the nodes reachable from the
      root list. */
  lemma ReachableIffIndexed(t: Tree, k: nat)
    requires Valid(t)
    ensures Reachable(t, k) <==> k in t.index
  {
    if Reachable(t, k) {
      var path :| IsPath(t, path) && path[|path| - 1] == k;
      if |path| > 1 {
        var n := |path| - 2;
        assert path[n] in t.index && path[n + 1] in t.index[path[n]].children;
      }
    }
    if k in t.index {
      ValidWalk(t);
      var w := Preorder(t);
      var j :| 0 <= j < |w| && w[j].id == k;
      forall i | 0 <= i < |t.roots|
        ensures Reachable(t, t.roots[i])
      {
        assert IsPath(t, [t.roots[i]]);
      }
      OutlineReachable(t, t.roots, 0, 0);
      assert w[j] in w;
    }
  }
}
