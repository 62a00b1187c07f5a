/** Where `add_child` puts the new node in the pre-order walk: directly
    after the last node of the parent's existing subtree, one level below
    the parent. Nothing else in the walk moves. */
module Splice {
  import opened Forest
  import opened Walk

  /** `o'` is `o` with an entry for `newId` inserted at `j`, where `i` is
      the parent's entry and `j` is the end of the parent's subtree: every
      entry strictly between `i` and `j` is deeper than the parent, and the
      entry at `j`, if any, is not. */
  ghost predicate SplicedAt(o: seq<Entry>, o': seq<Entry>, newId: nat, i: nat, j: nat) {
    && i < j <= |o|
    && (forall m :: i < m < j ==> o[i].depth < o[m].depth)
    && (j < |o| ==> o[j].depth <= o[i].depth)
    && o' == o[..j] + [Entry(newId, o[i].depth + 1)] + o[j..]
  }

  ghost predicate Spliced(o: seq<Entry>, o': seq<Entry>, parent: nat, newId: nat) {
    exists i: nat, j: nat :: i < |o| && o[i].id == parent && SplicedAt(o, o', newId, i, j)
  }

  /** Inserting `x` at `j` commutes with a prefix `a`. */
  lemma InsertShift(a: seq<Entry>, o: seq<Entry>, x: Entry, j: nat)
    requires j <= |o|
    ensures a + (o[..j] + [x] + o[j..]) == (a + o)[..|a| + j] + [x] + (a + o)[|a| + j..]
  {
    assert (a + o)[..|a| + j] == a + o[..j];
    assert (a + o)[|a| + j..] == o[j..];
  }

  /** Inserting `x` at `j` commutes with a suffix `c`. */
  lemma InsertExtend(o: seq<Entry>, c: seq<Entry>, x: Entry, j: nat)
    requires j <= |o|
    ensures (o[..j] + [x] + o[j..]) + c == (o + c)[..j] + [x] + (o + c)[j..]
  {
    assert (o + c)[..j] == o[..j];
    assert (o + c)[j..] == o[j..] + c;
  }

  lemma SplicedShift(a: seq<Entry>, o: seq<Entry>, o': seq<Entry>, parent: nat, newId: nat)
    requires Spliced(o, o', parent, newId)
    ensures Spliced(a + o, a + o', parent, newId)
  {
    var i: nat, j: nat :| i < |o| && o[i].id == parent && SplicedAt(o, o', newId, i, j);
    var p := a + o;
    InsertShift(a, o, Entry(newId, o[i].depth + 1), j);
    assert p[|a| + i] == o[i];
    forall m | |a| + i < m < |a| + j
      ensures p[|a| + i].depth < p[m].depth
    {
      assert p[m] == o[m - |a|];
    }
    assert |a| + j < |p| ==> p[|a| + j] == o[j];
    assert SplicedAt(p, a + o', newId, |a| + i, |a| + j);
  }

  lemma SplicedExtend(o: seq<Entry>, o': seq<Entry>, c: seq<Entry>, parent: nat, newId: nat, depth: nat)
    requires Spliced(o, o', parent, newId)
    requires forall e :: e in o ==> depth <= e.depth
    requires c != [] ==> c[0].depth <= depth
    ensures Spliced(o + c, o' + c, parent, newId)
  {
    var i: nat, j: nat :| i < |o| && o[i].id == parent && SplicedAt(o, o', newId, i, j);
    var p := o + c;
    InsertExtend(o, c, Entry(newId, o[i].depth + 1), j);
    assert o[i] in o;
    assert p[i] == o[i];
    forall m | i < m < j
      ensures p[i].depth < p[m].depth
    {
      assert p[m] == o[m];
    }
    if j < |o| {
      assert p[j] == o[j];
    } else if j < |p| {
      assert p[j] == c[0];
    }
    assert SplicedAt(p, o' + c, newId, i, j);
  }

  /** The parent heads the walk: the new entry goes right after its
      subtree `sub`, before its later siblings `rest`. */
  lemma SplicedHead(h: nat, depth: nat, sub: seq<Entry>, rest: seq<Entry>, newId: nat)
    requires forall e :: e in sub ==> depth < e.depth
    requires rest != [] ==> rest[0].depth == depth
    ensures Spliced([Entry(h, depth)] + sub + rest, [Entry(h, depth)] + (sub + [Entry(newId, depth + 1)]) + rest, h, newId)
  {
    var o := [Entry(h, depth)] + sub + rest;
    var j := 1 + |sub|;
    forall m | 0 < m < j
      ensures o[0].depth < o[m].depth
    {
      assert o[m] == sub[m - 1] && sub[m - 1] in sub;
    }
    assert j < |o| ==> o[j] == rest[0];
    assert o[..j] == [Entry(h, depth)] + sub;
    assert o[j..] == rest;
    assert SplicedAt(o, [Entry(h, depth)] + (sub + [Entry(newId, depth + 1)]) + rest, newId, 0, j);
  }

  /** A non-empty walk starts with its first id, at its starting depth. */
  lemma OutlineHead(t: Tree, ids: seq<nat>, depth: nat, above: nat)
    requires WellFormed(t)
    requires forall i :: 0 <= i < |ids| ==> ids[i] in t.index && above < ids[i]
    ensures var o := Outline(t, ids, depth, above);
            ids != [] ==> o != [] && o[0] == Entry(ids[0], depth)
  {
  }

  /** One step of the walk: the head `h`, its children's walk `sub` and
      its later siblings' walk `rest`. The new entry lands in `sub` after
      the head's subtree when `h` is the parent, or inside whichever of
      `sub` and `rest` holds the parent. */
  lemma SpliceCompose(h: nat, depth: nat, sub: seq<Entry>, rest: seq<Entry>, sub': seq<Entry>, rest': seq<Entry>,
                      parent: nat, newId: nat)
    requires forall e :: e in sub ==> depth < e.depth
    requires rest != [] ==> rest[0].depth == depth
    requires || (h == parent && sub' == sub + [Entry(newId, depth + 1)] && rest' == rest)
             || (h != parent && Spliced(sub, sub', parent, newId) && rest' == rest)
             || (h != parent && sub' == sub && Spliced(rest, rest', parent, newId))
    ensures Spliced([Entry(h, depth)] + sub + rest, [Entry(h, depth)] + sub' + rest', parent, newId)
  {
    var head := [Entry(h, depth)];
    if h == parent && sub' == sub + [Entry(newId, depth + 1)] && rest' == rest {
      SplicedHead(h, depth, sub, rest, newId);
    } else if h != parent && Spliced(sub, sub', parent, newId) && rest' == rest {
      SplicedShift(head, sub, sub', parent, newId);
      forall e | e in head + sub
        ensures depth <= e.depth
      {
        if e != Entry(h, depth) {
          assert e in sub;
        }
      }
      SplicedExtend(head + sub, head + sub', rest, parent, newId, depth);
    } else {
      SplicedShift(head + sub, rest, rest', parent, newId);
    }
  }

  /** The children of `h` in the grafted tree walk as the old children
      did, plus the new leaf at the end when `h` is the parent. */
  lemma GraftedChildWalk(t: Tree, t': Tree, parent: nat, newId: nat, h: nat, depth: nat)
    requires Grafted(t, t', parent, newId)
    requires h in t.index
    ensures var cs := t.index[h].children;
            Outline(t', t'.index[h].children, depth, h) ==
              Outline(t', cs, depth, h) + if h == parent then [Entry(newId, depth)] else []
  {
    var cs := t.index[h].children;
    if h == parent {
      var cs' := t'.index[h].children;
      assert cs' == cs + [newId] && cs'[|cs|] == newId;
      OutlineConcat(t', cs, [newId], depth, h);
      assert Outline(t', [newId], depth, h) == [Entry(newId, depth)];
    } else {
      assert Outline(t', cs, depth, h) + [] == Outline(t', cs, depth, h);
    }
  }

  /** Walking the grafted tree: a walk that does not meet the parent is
      unchanged, and a walk that meets it once gains the new leaf right
      after the parent's subtree. */
  lemma {:induction false} OutlineSplice(t: Tree, t': Tree, parent: nat, newId: nat, ids: seq<nat>, depth: nat, above: nat)
    requires Grafted(t, t', parent, newId)
    requires forall i :: 0 <= i < |ids| ==> ids[i] in t.index && above < ids[i]
    ensures var o, o' := Outline(t, ids, depth, above), Outline(t', ids, depth, above);
            && (multiset(Ids(o))[parent] == 0 ==> o' == o)
            && (multiset(Ids(o))[parent] == 1 ==> Spliced(o, o', parent, newId))
    decreases t.nextId - above, |ids|
  {
    if ids != [] {
      var h := ids[0];
      var cs := t.index[h].children;
      var sub, rest := Outline(t, cs, depth + 1, h), Outline(t, ids[1..], depth, above);
      var sub', rest' := Outline(t', t'.index[h].children, depth + 1, h), Outline(t', ids[1..], depth, above);
      OutlineSplice(t, t', parent, newId, cs, depth + 1, h);
      OutlineSplice(t, t', parent, newId, ids[1..], depth, above);
      GraftedChildWalk(t, t', parent, newId, h, depth + 1);
      OutlineIdsUnfold(t, ids, depth, above);
      OutlineBounds(t, cs, depth + 1, h);
      OutlineHead(t, ids[1..], depth, above);
      assert Outline(t, ids, depth, above) == [Entry(h, depth)] + sub + rest;
      assert Outline(t', ids, depth, above) == [Entry(h, depth)] + sub' + rest';
      var c := multiset(Ids(Outline(t, ids, depth, above)))[parent];
      var cSub, cRest := multiset(Ids(sub))[parent], multiset(Ids(rest))[parent];
      assert c == (if h == parent then 1 else 0) + cSub + cRest;
      if c == 1 {
        SpliceCompose(h, depth, sub, rest, sub', rest', parent, newId);
      }
    }
  }

  /** In a valid tree, `AddChild` under a known parent inserts the new
      leaf into the walk right after the parent's subtree, one level below
      the parent, and moves nothing else. */
  lemma AddChildWalk(t: Tree, parentId: nat, title: string)
    requires Valid(t) && parentId in t.index
    ensures Spliced(Preorder(t), Preorder(AddChild(t, parentId, title).tree), parentId, t.nextId)
  {
    var t' := AddChild(t, parentId, title).tree;
    assert Grafted(t, t', parentId, t.nextId);
    assert multiset(Ids(Preorder(t)))[parentId] == multiset(t.index.Keys)[parentId] == 1;
    OutlineSplice(t, t', parentId, t.nextId, t.roots, 0, 0);
  }
}
