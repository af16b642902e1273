/** setq's and unsetv1's rebalancing, in place: the rotation macros and the loop of balance. */
module CshBalance {
  import opened CshTree
  import opened CshMemory

  /** rleft(p), as what its assignments make of memory. */
  function TurnedLeft(m: Mem, p: Ref): Mem
    requires p in m && m[p].right in m && (m[m[p].right].left == NULL || m[m[p].right].left in m)
  {
    var t := m[p].right;
    var m1 := SetParent(m, t, m[p].parent);
    var m2 := SetRight(m1, p, m1[t].left);
    var m3 := if m2[t].left != NULL then SetParent(m2, m2[t].left, p) else m2;
    SetParent(SetLeft(m3, t, p), p, t)
  }

  function TurnedRight(m: Mem, p: Ref): Mem
    requires p in m && m[p].left in m && (m[m[p].left].right == NULL || m[m[p].left].right in m)
  {
    var t := m[p].left;
    var m1 := SetParent(m, t, m[p].parent);
    var m2 := SetLeft(m1, p, m1[t].right);
    var m3 := if m2[t].right != NULL then SetParent(m2, m2[t].right, p) else m2;
    SetParent(SetRight(m3, t, p), p, t)
  }

  lemma LeftTurn(m: Mem, t: Tree, parent: Ref)
    requires Rep(m, t, parent) && Separate(t) && t.Node? && t.r.Node?
    ensures t.ref in m && m[t.ref].right in m && (m[m[t.ref].right].left == NULL || m[m[t.ref].right].left in m)
    ensures var m' := TurnedLeft(m, t.ref);
            Rep(m', RotateLeft(t), parent) && Only(m, m', Refs(t)) && m'.Keys == m.Keys
  {
    var p, q, x := t.ref, t.r.ref, t.r.l;
    assert Rep(m, t.r, p) && Rep(m, x, q) && Separate(x) && p !in Refs(x) && q !in Refs(x);
    var m', s := TurnedLeft(m, p), {p, q} + if x.Node? then {x.ref} else {};
    assert m'[p] == Varent(t.entry, Root(t.l), Root(x), q, t.bal);
    assert m'[q] == Varent(t.r.entry, p, Root(t.r.r), parent, t.r.bal);
    assert Only(m, m', s);
    RepFrame(m, m', t.l, p, s);
    RepFrame(m, m', t.r.r, q, s);
    Reparent(m, m', x, q, p, s);
  }

  lemma RightTurn(m: Mem, t: Tree, parent: Ref)
    requires Rep(m, t, parent) && Separate(t) && t.Node? && t.l.Node?
    ensures t.ref in m && m[t.ref].left in m && (m[m[t.ref].left].right == NULL || m[m[t.ref].left].right in m)
    ensures var m' := TurnedRight(m, t.ref);
            Rep(m', RotateRight(t), parent) && Only(m, m', Refs(t)) && m'.Keys == m.Keys
  {
    var p, q, x := t.ref, t.l.ref, t.l.r;
    assert Rep(m, t.l, p) && Rep(m, x, q) && Separate(x) && p !in Refs(x) && q !in Refs(x);
    var m', s := TurnedRight(m, p), {p, q} + if x.Node? then {x.ref} else {};
    assert m'[p] == Varent(t.entry, Root(x), Root(t.r), q, t.bal);
    assert m'[q] == Varent(t.l.entry, Root(t.l.l), p, parent, t.l.bal);
    assert Only(m, m', s);
    RepFrame(m, m', t.r, p, s);
    RepFrame(m, m', t.l.l, q, s);
    Reparent(m, m', x, q, p, s);
  }

  /** A subtree has been rearranged, and the link above it turned to its new root. */
  lemma Replaced(m: Mem, m1: Mem, c: Ctx, t: Tree, t': Tree, head: Ref)
    requires Holds(m, c, t, head) && Rep(m1, t', Above(c, head)) && Only(m, m1, Refs(t)) && m1.Keys == m.Keys
    requires Refs(t') == Refs(t) && Separate(t')
    ensures Above(c, head) in m1 && Holds(SetLink(m1, Above(c, head), c.InRight?, Root(t')), c, t', head)
  {
    AboveIsNode(m, c, Root(t), head);
    RepCtxFrame(m, m1, c, Root(t), head, Refs(t));
    var m2 := SetLink(m1, Above(c, head), c.InRight?, Root(t'));
    Relink(m1, m2, c, Root(t), Root(t'), head);
    AboveInCtx(c, head);
    RepFrame(m1, m2, t', Above(c, head), {Above(c, head)});
  }

  /** A subtree with another balance at its root. */
  lemma FactorSet(m: Mem, c: Ctx, t: Tree, head: Ref, b: int)
    requires Holds(m, c, t, head) && t.Node?
    ensures t.ref in m && Holds(SetFactor(m, t.ref, b), c, t.(bal := b), head)
  {
    var m' := SetFactor(m, t.ref, b);
    RepFrame(m, m', t.l, t.ref, {t.ref});
    RepFrame(m, m', t.r, t.ref, {t.ref});
    RepCtxFrame(m, m', c, t.ref, head, {t.ref});
  }

  lemma LeftFactorSet(m: Mem, c: Ctx, t: Tree, head: Ref, b: int)
    requires Holds(m, c, t, head) && t.Node? && t.l.Node?
    ensures t.l.ref in m && Holds(SetFactor(m, t.l.ref, b), c, t.(l := t.l.(bal := b)), head)
  {
    GoLeft(m, c, t, head);
    var c1 := InLeft(t.ref, t.entry, t.bal, t.r, c);
    FactorSet(m, c1, t.l, head, b);
    GoUp(SetFactor(m, t.l.ref, b), c1, t.l.(bal := b), head);
  }

  lemma RightFactorSet(m: Mem, c: Ctx, t: Tree, head: Ref, b: int)
    requires Holds(m, c, t, head) && t.Node? && t.r.Node?
    ensures t.r.ref in m && Holds(SetFactor(m, t.r.ref, b), c, t.(r := t.r.(bal := b)), head)
  {
    GoRight(m, c, t, head);
    var c1 := InRight(t.ref, t.l, t.entry, t.bal, c);
    FactorSet(m, c1, t.r, head, b);
    GoUp(SetFactor(m, t.r.ref, b), c1, t.r.(bal := b), head);
  }

  // ---- what a turn of the loop achieves ----

  /** The turn of balance at the node above the hole, for a subtree t whose height has just changed:
      either all is balanced again and the loop may stop, or the change has moved up. */
  lemma {:induction false} TurnBalances(c: Ctx, t: Tree, head: Ref, deleted: bool)
    requires !c.Top? && Balanced(t) && BalancedCtx(c, Height(t) - Delta(deleted)) && (!deleted ==> Grown(t))
    requires Separate(Frame(c, t))
    ensures Fixable(Frame(c, t), c.InRight? != deleted)
    ensures var u := Fix(Frame(c, t), c.InRight?, deleted);
            && u.Node? && Balanced(u) && Entries(Plug(c.up, u)) == Entries(Plug(c, t))
            && Refs(u) == Refs(Frame(c, t)) && Separate(u)
            && if (u.bal == 0) != deleted then BalancedCtx(c.up, Height(u))
               else BalancedCtx(c.up, Height(u) - Delta(deleted)) && (!deleted ==> Grown(u))
  {
    var f := Frame(c, t);
    FramePending(c, t, deleted);
    FixBalances(f, c.InRight?, deleted);
    FixKeeps(f, c.InRight?, deleted);
    hide Fix, Balanced, Grown, Separate, Refs, Pending, OldHeight;
    SameEntries(c, t, Fix(f, c.InRight?, deleted));
  }

  /** The node above a hole in which the height has changed. */
  lemma {:induction false} FramePending(c: Ctx, t: Tree, deleted: bool)
    requires !c.Top? && Balanced(t) && BalancedCtx(c, Height(t) - Delta(deleted))
    ensures Pending(Frame(c, t), c.InRight?, deleted) && (if c.InRight? then Frame(c, t).r else Frame(c, t).l) == t
    ensures BalancedCtx(c.up, OldHeight(Frame(c, t), c.InRight?, deleted))
  {
    var f := Frame(c, t);
    if c.InRight? {
      assert f.l == c.l && f.r == t && f.bal == c.bal;
    } else {
      assert f.l == t && f.r == c.r && f.bal == c.bal;
    }
    hide Height, Balanced, Frame;
  }

  lemma SameEntries(c: Ctx, t: Tree, u: Tree)
    requires !c.Top? && Entries(u) == Entries(Frame(c, t))
    ensures Entries(Plug(c.up, u)) == Entries(Plug(c, t))
  {
    EntriesPlug(c.up, Frame(c, t));
    EntriesPlug(c.up, u);
  }

  lemma {:induction false} PlugAll(m: Mem, c: Ctx, t: Tree, head: Ref)
    requires Holds(m, c, t, head)
    ensures Holds(m, Top, Plug(c, t), head)
  {
    if !c.Top? {
      GoUp(m, c, t, head);
      PlugAll(m, c.up, Frame(c, t), head);
    }
  }
}
