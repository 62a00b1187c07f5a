/** How the pre-order walk lays the tree out: the entries at one depth of a
    subtree's walk are that subtree's children in insertion order, and the
    parent of every indented entry is the closest entry above it that is
    one level shallower. Together these say the indentation of the
    rendered forest is enough to rebuild the tree. */
module Shape {
  import opened Forest
  import opened Walk

  /** The ids of the entries at exactly `depth`, in walk order. */
  function AtDepth(o: seq<Entry>, depth: nat): seq<nat> {
    if o == [] then []
    else (if o[0].depth == depth then [o[0].id] else []) + AtDepth(o[1..], depth)
  }

  lemma {:induction false} AtDepthConcat(a: seq<Entry>, b: seq<Entry>, depth: nat)
    ensures AtDepth(a + b, depth) == AtDepth(a, depth) + AtDepth(b, depth)
    decreases |a|
  {
    if a != [] {
      assert (a + b)[1..] == a[1..] + b;
      AtDepthConcat(a[1..], b, depth);
    } else {
      assert a + b == b;
    }
  }

  lemma {:induction false} AtDepthDeeper(o: seq<Entry>, depth: nat)
    requires forall e :: e in o ==> depth < e.depth
    ensures AtDepth(o, depth) == []
    decreases |o|
  {
    if o != [] {
      assert o[0] in o;
      AtDepthDeeper(o[1..], depth);
    }
  }

  lemma {:induction false} AtDepthHas(o: seq<Entry>, j: nat)
    requires j < |o|
    ensures o[j].id in AtDepth(o, o[j].depth)
    decreases j
  {
    if j > 0 {
      AtDepthHas(o[1..], j - 1);
    }
  }

  /** Walking a list at `depth` meets, at that depth, exactly the list, in
      its order; every other entry lies deeper. */
  lemma {:induction false} SiblingsInOrder(t: Tree, ids: seq<nat>, depth: nat, above: nat)
    requires WellFormed(t)
    requires forall i :: 0 <= i < |ids| ==> ids[i] in t.index && above < ids[i]
    ensures AtDepth(Outline(t, ids, depth, above), depth) == ids
    decreases |ids|
  {
    if ids != [] {
      var h := ids[0];
      var cs := t.index[h].children;
      var sub := Outline(t, cs, depth + 1, h);
      var rest := Outline(t, ids[1..], depth, above);
      OutlineBounds(t, cs, depth + 1, h);
      AtDepthDeeper(sub, depth);
      SiblingsInOrder(t, ids[1..], depth, above);
      AtDepthConcat([Entry(h, depth)] + sub, rest, depth);
      AtDepthConcat([Entry(h, depth)], sub, depth);
      assert ids == [h] + ids[1..];
    }
  }

  /** The unindented lines of the forest are the roots, in insertion order. */
  lemma RootsInOrder(t: Tree)
    requires WellFormed(t)
    ensures AtDepth(Preorder(t), 0) == t.roots
  {
    SiblingsInOrder(t, t.roots, 0, 0);
  }

  /** Within the walk of a node, the entries one level below it are its
      children, in insertion order. */
  lemma ChildrenInOrder(t: Tree, k: nat, depth: nat)
    requires WellFormed(t) && k in t.index
    ensures AtDepth(Outline(t, [k], depth, 0), depth + 1) == t.index[k].children
  {
    var cs := t.index[k].children;
    var sub := Outline(t, cs, depth + 1, k);
    SiblingsInOrder(t, cs, depth + 1, k);
    assert Outline(t, [k], depth, 0) == [Entry(k, depth)] + sub + Outline(t, [], depth, 0);
    AtDepthConcat([Entry(k, depth)], sub, depth + 1);
    assert [Entry(k, depth)] + sub + [] == [Entry(k, depth)] + sub;
  }

  /** Entry `j` of `o` has a parent above it: the entry `i`, one level
      shallower, whose node lists `o[j]` among its children, with nothing
      between them shallower than `o[j]`, so `i` is the closest entry above
      `j` at that level. */
  ghost predicate ParentAbove(t: Tree, o: seq<Entry>, j: nat)
    requires j < |o|
  {
    exists i {:trigger IsParentAt(t, o, i, j)} :: 0 <= i < j && IsParentAt(t, o, i, j)
  }

  ghost predicate IsParentAt(t: Tree, o: seq<Entry>, i: nat, j: nat)
    requires i < j < |o|
  {
    && o[i].depth + 1 == o[j].depth
    && o[i].id in t.index
    && o[j].id in t.index[o[i].id].children
    && forall m :: i < m < j ==> o[j].depth <= o[m].depth
  }

  /** Every entry of `o` deeper than `depth` has its parent above it. */
  ghost predicate Parented(t: Tree, o: seq<Entry>, depth: nat) {
    forall j {:trigger ParentAbove(t, o, j)} :: 0 <= j < |o| && depth < o[j].depth ==> ParentAbove(t, o, j)
  }

  lemma ParentShift(t: Tree, a: seq<Entry>, b: seq<Entry>, j: nat)
    requires j < |b| && ParentAbove(t, b, j)
    ensures ParentAbove(t, a + b, |a| + j)
  {
    var i :| 0 <= i < j && IsParentAt(t, b, i, j);
    var o := a + b;
    assert o[|a| + i] == b[i] && o[|a| + j] == b[j];
    forall m | |a| + i < m < |a| + j
      ensures o[|a| + j].depth <= o[m].depth
    {
      assert o[m] == b[m - |a|];
    }
    assert IsParentAt(t, o, |a| + i, |a| + j);
  }

  lemma ParentExtend(t: Tree, b: seq<Entry>, c: seq<Entry>, j: nat)
    requires j < |b| && ParentAbove(t, b, j)
    ensures ParentAbove(t, b + c, j)
  {
    var i :| 0 <= i < j && IsParentAt(t, b, i, j);
    var o := b + c;
    assert o[i] == b[i] && o[j] == b[j];
    forall m | i < m < j
      ensures o[j].depth <= o[m].depth
    {
      assert o[m] == b[m];
    }
    assert IsParentAt(t, o, i, j);
  }

  /** An entry at the first level below `h` in the walk of `h`'s children
      has `h`, walked just before them, as its parent. */
  lemma FirstLevelParent(t: Tree, h: nat, depth: nat, sub: seq<Entry>, rest: seq<Entry>, js: nat)
    requires h in t.index && js < |sub| && sub[js].depth == depth + 1
    requires AtDepth(sub, depth + 1) == t.index[h].children
    requires forall e :: e in sub ==> depth + 1 <= e.depth
    ensures ParentAbove(t, [Entry(h, depth)] + sub + rest, js + 1)
  {
    var o := [Entry(h, depth)] + sub + rest;
    AtDepthHas(sub, js);
    assert o[js + 1] == sub[js];
    forall m | 0 < m < js + 1
      ensures o[js + 1].depth <= o[m].depth
    {
      assert o[m] == sub[m - 1] && sub[m - 1] in sub;
    }
    assert IsParentAt(t, o, 0, js + 1);
  }

  /** An indented entry inside the children's walk `sub` has its parent
      above it: `h` itself at the first level, otherwise the parent it has
      within `sub`. */
  lemma ParentInSub(t: Tree, h: nat, depth: nat, sub: seq<Entry>, rest: seq<Entry>, js: nat)
    requires h in t.index && js < |sub|
    requires AtDepth(sub, depth + 1) == t.index[h].children
    requires forall e :: e in sub ==> depth + 1 <= e.depth
    requires Parented(t, sub, depth + 1)
    ensures ParentAbove(t, [Entry(h, depth)] + sub + rest, js + 1)
  {
    var head := [Entry(h, depth)];
    assert sub[js] in sub;
    if sub[js].depth == depth + 1 {
      FirstLevelParent(t, h, depth, sub, rest, js);
    } else {
      ParentShift(t, head, sub, js);
      ParentExtend(t, head + sub, rest, js + 1);
    }
  }

  /** An indented entry inside the later siblings' walk `rest` has the
      parent it has within `rest`. */
  lemma ParentInRest(t: Tree, h: nat, depth: nat, sub: seq<Entry>, rest: seq<Entry>, jr: nat)
    requires jr < |rest| && depth < rest[jr].depth
    requires Parented(t, rest, depth)
    ensures ParentAbove(t, [Entry(h, depth)] + sub + rest, 1 + |sub| + jr)
  {
    var head := [Entry(h, depth)];
    ParentShift(t, head + sub, rest, jr);
    assert |head + sub| == 1 + |sub|;
  }

  /** Parents in the walk of one node followed by the walk of its later
      siblings: the children's walk `sub` and the siblings' walk `rest` each
      have their parents in place, and `h` heads the children's first level. */
  lemma ParentsCompose(t: Tree, h: nat, depth: nat, sub: seq<Entry>, rest: seq<Entry>)
    requires h in t.index
    requires AtDepth(sub, depth + 1) == t.index[h].children
    requires forall e :: e in sub ==> depth + 1 <= e.depth
    requires Parented(t, sub, depth + 1) && Parented(t, rest, depth)
    ensures Parented(t, [Entry(h, depth)] + sub + rest, depth)
  {
    var o := [Entry(h, depth)] + sub + rest;
    forall j | 0 <= j < |o| && depth < o[j].depth
      ensures ParentAbove(t, o, j)
    {
      if 1 <= j <= |sub| {
        ParentInSub(t, h, depth, sub, rest, j - 1);
      } else if j > |sub| {
        assert o[j] == rest[j - 1 - |sub|];
        ParentInRest(t, h, depth, sub, rest, j - 1 - |sub|);
      }
    }
  }

  /** Every entry of a walk deeper than its starting depth has its parent
      above it. */
  lemma {:induction false} OutlineParents(t: Tree, ids: seq<nat>, depth: nat, above: nat)
    requires WellFormed(t)
    requires forall i :: 0 <= i < |ids| ==> ids[i] in t.index && above < ids[i]
    ensures Parented(t, Outline(t, ids, depth, above), depth)
    decreases t.nextId - above, |ids|
  {
    if ids != [] {
      var h := ids[0];
      var cs := t.index[h].children;
      var sub := Outline(t, cs, depth + 1, h);
      var rest := Outline(t, ids[1..], depth, above);
      OutlineParents(t, cs, depth + 1, h);
      OutlineParents(t, ids[1..], depth, above);
      OutlineBounds(t, cs, depth + 1, h);
      SiblingsInOrder(t, cs, depth + 1, h);
      ParentsCompose(t, h, depth, sub, rest);
      assert Outline(t, ids, depth, above) == [Entry(h, depth)] + sub + rest;
    }
  }

  /** In the rendered forest of a well-formed tree, every indented line's
      node is a child of the closest line above it with one less level of
      indentation. */
  lemma ForestParents(t: Tree)
    requires WellFormed(t)
    ensures Parented(t, Preorder(t), 0)
  {
    OutlineParents(t, t.roots, 0, 0);
    assert Preorder(t) == Outline(t, t.roots, 0, 0);
  }
}
