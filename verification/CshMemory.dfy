/** The trees of csh in memory: nodes that point at their children and at their parent, under a header
    node whose left link is the root. */
module CshMemory {
  import opened CshTree

  /** struct varent */
  datatype Varent = Varent(entry: Entry, left: Ref, right: Ref, parent: Ref, bal: int)

  /** All nodes that are allocated. */
  type Mem = map<Ref, Varent>

  function SetLeft(m: Mem, x: Ref, y: Ref): Mem
    requires x in m
  {
    m[x := m[x].(left := y)]
  }

  function SetRight(m: Mem, x: Ref, y: Ref): Mem
    requires x in m
  {
    m[x := m[x].(right := y)]
  }

  function SetParent(m: Mem, x: Ref, y: Ref): Mem
    requires x in m
  {
    m[x := m[x].(parent := y)]
  }

  function SetFactor(m: Mem, x: Ref, b: int): Mem
    requires x in m
  {
    m[x := m[x].(bal := b)]
  }

  /** Another child on that side of a node. */
  function SetLink(m: Mem, p: Ref, right: bool, y: Ref): Mem
    requires p in m
  {
    if right then SetRight(m, p, y) else SetLeft(m, p, y)
  }

  // ---- a subtree, and what surrounds it ----

  /** The tree t lies in memory, with its root pointing up at parent. */
  ghost predicate Rep(m: Mem, t: Tree, parent: Ref) {
    t.Leaf? ||
      (t.ref != NULL && t.ref in m && m[t.ref] == Varent(t.entry, Root(t.l), Root(t.r), parent, t.bal)
       && Rep(m, t.l, t.ref) && Rep(m, t.r, t.ref))
  }

  /** A tree with a hole: the way from the hole up to the header, with the subtrees beside it. */
  datatype Ctx =
    | Top
    | InLeft(ref: Ref, entry: Entry, bal: int, r: Tree, up: Ctx)
    | InRight(ref: Ref, l: Tree, entry: Entry, bal: int, up: Ctx)

  /** The node above the hole. */
  ghost function Above(c: Ctx, head: Ref): Ref {
    if c.Top? then head else c.ref
  }

  /** The node above the hole, with t in the hole. */
  ghost function Frame(c: Ctx, t: Tree): Tree
    requires !c.Top?
  {
    match c
    case InLeft(ref, entry, bal, r, _) => Node(ref, t, entry, bal, r)
    case InRight(ref, l, entry, bal, _) => Node(ref, l, entry, bal, t)
  }

  ghost function Plug(c: Ctx, t: Tree): Tree {
    if c.Top? then t else Plug(c.up, Frame(c, t))
  }

  ghost predicate RepCtx(m: Mem, c: Ctx, hole: Ref, head: Ref) {
    match c
    case Top => head != NULL && head in m && m[head].left == hole && m[head].right == NULL && m[head].parent == NULL
    case InLeft(ref, entry, bal, r, up) =>
      && ref != NULL && ref in m && m[ref] == Varent(entry, hole, Root(r), Above(up, head), bal)
      && Rep(m, r, ref) && RepCtx(m, up, ref, head)
    case InRight(ref, l, entry, bal, up) =>
      && ref != NULL && ref in m && m[ref] == Varent(entry, Root(l), hole, Above(up, head), bal)
      && Rep(m, l, ref) && RepCtx(m, up, ref, head)
  }

  ghost function Beside(c: Ctx): Tree
    requires !c.Top?
  {
    if c.InLeft? then c.r else c.l
  }

  ghost function CtxRefs(c: Ctx, head: Ref): set<Ref> {
    if c.Top? then {head} else {c.ref} + Refs(Beside(c)) + CtxRefs(c.up, head)
  }

  ghost predicate SeparateCtx(c: Ctx, head: Ref) {
    c.Top? || (Separate(Beside(c)) && SeparateCtx(c.up, head)
               && c.ref !in Refs(Beside(c)) && c.ref !in CtxRefs(c.up, head) && Refs(Beside(c)) !! CtxRefs(c.up, head))
  }

  /** Memory consists of the subtree t and of what surrounds it. */
  ghost predicate Holds(m: Mem, c: Ctx, t: Tree, head: Ref) {
    && Rep(m, t, Above(c, head)) && RepCtx(m, c, Root(t), head)
    && Separate(t) && SeparateCtx(c, head) && Refs(t) !! CtxRefs(c, head)
    && m.Keys == Refs(t) + CtxRefs(c, head)
  }

  /** The entries to the left of the hole, and to the right. */
  ghost function LeftOf(c: Ctx): seq<Entry> {
    match c
    case Top => []
    case InLeft(_, _, _, _, up) => LeftOf(up)
    case InRight(_, l, entry, _, up) => LeftOf(up) + (Entries(l) + [entry])
  }

  ghost function RightOf(c: Ctx): seq<Entry> {
    match c
    case Top => []
    case InLeft(_, entry, _, r, up) => [entry] + Entries(r) + RightOf(up)
    case InRight(_, _, _, _, up) => RightOf(up)
  }

  lemma {:induction false} EntriesPlug(c: Ctx, t: Tree)
    ensures Entries(Plug(c, t)) == LeftOf(c) + Entries(t) + RightOf(c)
  {
    if !c.Top? {
      EntriesPlug(c.up, Frame(c, t));
    }
  }

  /** The balance factors around a hole are right for a subtree of height h in it. */
  ghost predicate BalancedCtx(c: Ctx, h: int) {
    c.Top? || (Balanced(Beside(c)) && -1 <= c.bal <= 1
               && c.bal == (if c.InLeft? then Height(c.r) - h else h - Height(c.l))
               && BalancedCtx(c.up, 1 + Max(h, Height(Beside(c)))))
  }

  lemma {:induction false} BalancedPlug(c: Ctx, t: Tree)
    ensures Balanced(t) && BalancedCtx(c, Height(t)) <==> Balanced(Plug(c, t))
  {
    if !c.Top? {
      BalancedPlug(c.up, Frame(c, t));
    }
  }

  // ---- up and down ----

  lemma GoUp(m: Mem, c: Ctx, t: Tree, head: Ref)
    requires Holds(m, c, t, head) && !c.Top?
    ensures Holds(m, c.up, Frame(c, t), head)
  {
  }

  lemma GoLeft(m: Mem, c: Ctx, t: Tree, head: Ref)
    requires Holds(m, c, t, head) && t.Node?
    ensures Holds(m, InLeft(t.ref, t.entry, t.bal, t.r, c), t.l, head)
    ensures Frame(InLeft(t.ref, t.entry, t.bal, t.r, c), t.l) == t
  {
  }

  lemma GoRight(m: Mem, c: Ctx, t: Tree, head: Ref)
    requires Holds(m, c, t, head) && t.Node?
    ensures Holds(m, InRight(t.ref, t.l, t.entry, t.bal, c), t.r, head)
    ensures Frame(InRight(t.ref, t.l, t.entry, t.bal, c), t.r) == t
  {
  }

  /** What the loops read at a node. */
  lemma Fields(m: Mem, c: Ctx, t: Tree, head: Ref)
    requires Holds(m, c, t, head)
    ensures t.Node? ==>
      t.ref != NULL && t.ref in m && m[t.ref] == Varent(t.entry, Root(t.l), Root(t.r), Above(c, head), t.bal)
    ensures t.Leaf? <==> Root(t) == NULL
    ensures Above(c, head) != NULL && Above(c, head) in m && (m[Above(c, head)].parent == NULL <==> c.Top?)
    ensures t.Node? ==> (m[Above(c, head)].right == t.ref <==> c.InRight?)
    ensures t.Node? ==> t.ref != head
    ensures Above(c, head) == head <==> c.Top?
  {
    HeadInCtx(c, head);
    if !c.Top? {
      HeadInCtx(c.up, head);
    }
    AboveIsNode(m, c, Root(t), head);
    match c
    case Top =>
    case InLeft(ref, _, _, r, up) => AboveIsNode(m, up, ref, head);
    case InRight(ref, _, _, _, up) => AboveIsNode(m, up, ref, head);
  }

  lemma {:induction false} HeadInCtx(c: Ctx, head: Ref)
    ensures head in CtxRefs(c, head)
  {
    if !c.Top? {
      HeadInCtx(c.up, head);
    }
  }

  /** A link is NULL just when there is no child. */
  lemma Childless(m: Mem, c: Ctx, t: Tree, head: Ref)
    requires Holds(m, c, t, head) && t.Node?
    ensures Root(t.l) == NULL <==> t.l.Leaf?
    ensures Root(t.r) == NULL <==> t.r.Leaf?
  {
    assert Rep(m, t.l, t.ref) && Rep(m, t.r, t.ref);
  }

  lemma AboveIsNode(m: Mem, c: Ctx, hole: Ref, head: Ref)
    requires RepCtx(m, c, hole, head)
    ensures Above(c, head) != NULL && Above(c, head) in m
  {
  }

  // ---- what an assignment leaves alone ----

  /** Memory has changed only at these nodes. */
  ghost predicate Only(m: Mem, m': Mem, s: set<Ref>) {
    forall x {:trigger x in m'} {:trigger x in m} :: x in m && x !in s ==> x in m' && m'[x] == m[x]
  }

  lemma {:induction false} RepFrame(m: Mem, m': Mem, t: Tree, parent: Ref, s: set<Ref>)
    requires Rep(m, t, parent) && Only(m, m', s) && Refs(t) !! s
    ensures Rep(m', t, parent)
  {
    if t.Node? {
      RepFrame(m, m', t.l, t.ref, s);
      RepFrame(m, m', t.r, t.ref, s);
    }
  }

  lemma {:induction false} RepCtxFrame(m: Mem, m': Mem, c: Ctx, hole: Ref, head: Ref, s: set<Ref>)
    requires RepCtx(m, c, hole, head) && Only(m, m', s) && CtxRefs(c, head) !! s
    ensures RepCtx(m', c, hole, head)
  {
    if !c.Top? {
      RepFrame(m, m', Beside(c), c.ref, s);
      RepCtxFrame(m, m', c.up, c.ref, head, s);
    }
  }

  /** The link above the hole is turned to another subtree. */
  lemma Relink(m: Mem, m': Mem, c: Ctx, hole: Ref, hole': Ref, head: Ref)
    requires RepCtx(m, c, hole, head) && SeparateCtx(c, head)
    requires Above(c, head) in m && m' == SetLink(m, Above(c, head), c.InRight?, hole')
    ensures RepCtx(m', c, hole', head)
  {
    var s := {Above(c, head)};
    assert Only(m, m', s);
    if !c.Top? {
      RepFrame(m, m', Beside(c), c.ref, s);
      RepCtxFrame(m, m', c.up, c.ref, head, s);
    }
  }

  // ---- nodes made, changed and freed ----

  /** A subtree whose root has been given another parent. */
  lemma Reparent(m: Mem, m': Mem, t: Tree, parent: Ref, parent': Ref, s: set<Ref>)
    requires Rep(m, t, parent) && Only(m, m', s)
    requires t.Node? ==> Refs(t.l) !! s && Refs(t.r) !! s && t.ref in m' && m'[t.ref] == m[t.ref].(parent := parent')
    ensures Rep(m', t, parent')
  {
    if t.Node? {
      RepFrame(m, m', t.l, t.ref, s);
      RepFrame(m, m', t.r, t.ref, s);
    }
  }

  lemma AboveInCtx(c: Ctx, head: Ref)
    ensures Above(c, head) in CtxRefs(c, head)
  {
  }

  /** A new node is hung into an empty hole. */
  lemma NewLeaf(m: Mem, c: Ctx, head: Ref, x: Ref, e: Entry)
    requires Holds(m, c, Leaf, head) && x !in m && x != NULL
    ensures Above(c, head) in m
    ensures var m' := SetLink(m[x := Varent(e, NULL, NULL, Above(c, head), 0)], Above(c, head), c.InRight?, x);
            Holds(m', c, Node(x, Leaf, e, 0, Leaf), head)
  {
    AboveIsNode(m, c, NULL, head);
    AboveInCtx(c, head);
    var m1 := m[x := Varent(e, NULL, NULL, Above(c, head), 0)];
    RepCtxFrame(m, m1, c, NULL, head, {x});
    Relink(m1, SetLink(m1, Above(c, head), c.InRight?, x), c, NULL, x, head);
  }

  /** A node is given another entry. */
  lemma EntrySet(m: Mem, c: Ctx, t: Tree, head: Ref, e: Entry)
    requires Holds(m, c, t, head) && t.Node?
    ensures t.ref in m && Holds(m[t.ref := m[t.ref].(entry := e)], c, t.(entry := e), head)
  {
    var m' := m[t.ref := m[t.ref].(entry := e)];
    RepFrame(m, m', t.l, t.ref, {t.ref});
    RepFrame(m, m', t.r, t.ref, {t.ref});
    RepCtxFrame(m, m', c, t.ref, head, {t.ref});
  }

  /** The child that takes the place of a node without two of them. */
  ghost function OnlyChild(t: Tree): Tree
    requires t.Node?
  {
    if t.r.Leaf? then t.l else t.r
  }

  /** Memory when the child of a node has been moved to where the node is, and the node freed. */
  function Freed(m: Mem, p: Ref, pp: Ref, f: bool, q: Ref): Mem
    requires pp in m && (q == NULL || q in m)
  {
    var m1 := SetLink(m, pp, f, q);
    (if q != NULL then SetParent(m1, q, pp) else m1) - {p}
  }

  lemma NodeFreed(m: Mem, c: Ctx, t: Tree, head: Ref)
    requires Holds(m, c, t, head) && t.Node? && (t.l.Leaf? || t.r.Leaf?)
    ensures var u := OnlyChild(t);
            && Above(c, head) in m && (Root(u) == NULL || Root(u) in m)
            && Holds(Freed(m, t.ref, Above(c, head), c.InRight?, Root(u)), c, u, head)
  {
    var u, p, pp := OnlyChild(t), t.ref, Above(c, head);
    assert Rep(m, u, p) && Separate(u) && p !in Refs(u) && Refs(t) == Refs(u) + {p};
    AboveIsNode(m, c, p, head);
    AboveInCtx(c, head);
    var m1 := SetLink(m, pp, c.InRight?, Root(u));
    Relink(m, m1, c, p, Root(u), head);
    RepFrame(m, m1, u, p, {pp});
    RestFreed(m1, c, u, head, p);
  }

  lemma {:induction false} RestFreed(m: Mem, c: Ctx, u: Tree, head: Ref, p: Ref)
    requires Rep(m, u, p) && Separate(u) && RepCtx(m, c, Root(u), head)
    requires SeparateCtx(c, head) && Refs(u) !! CtxRefs(c, head)
    requires p !in Refs(u) && p !in CtxRefs(c, head) && m.Keys == Refs(u) + {p} + CtxRefs(c, head)
    ensures (Root(u) == NULL || Root(u) in m)
    ensures Holds((if Root(u) != NULL then SetParent(m, Root(u), Above(c, head)) else m) - {p}, c, u, head)
  {
    var s := {p} + if u.Node? then {u.ref} else {};
    var m' := (if Root(u) != NULL then SetParent(m, Root(u), Above(c, head)) else m) - {p};
    assert Only(m, m', s);
    RepCtxFrame(m, m', c, Root(u), head, s);
    Reparent(m, m', u, p, Above(c, head), s);
  }

  /** The way from a subtree down to the node with a given address. */
  lemma {:induction false} Locate(m: Mem, c: Ctx, t: Tree, head: Ref, x: Ref) returns (c': Ctx, t': Tree)
    requires Holds(m, c, t, head) && x in Refs(t)
    ensures Holds(m, c', t', head) && t'.Node? && t'.ref == x && Plug(c', t') == Plug(c, t)
    decreases t
  {
    if x == t.ref {
      c', t' := c, t;
    } else if x in Refs(t.l) {
      GoLeft(m, c, t, head);
      c', t' := Locate(m, InLeft(t.ref, t.entry, t.bal, t.r, c), t.l, head, x);
    } else {
      GoRight(m, c, t, head);
      c', t' := Locate(m, InRight(t.ref, t.l, t.entry, t.bal, c), t.r, head, x);
    }
  }

  // ---- the predecessor ----

  /** The hole lies on the right edge of the left subtree of some node. */
  ghost predicate Spine(c: Ctx) {
    c.InLeft? || (c.InRight? && Spine(c.up))
  }

  /** That node, ... */
  ghost function SpineTop(c: Ctx): Ctx
    requires Spine(c)
    ensures SpineTop(c).InLeft?
  {
    if c.InLeft? then c else SpineTop(c.up)
  }

  /** ... and what surrounds the hole when the node has another entry. */
  ghost function WithEntry(c: Ctx, e: Entry): Ctx
    requires Spine(c)
  {
    if c.InLeft? then InLeft(c.ref, e, c.bal, c.r, c.up) else InRight(c.ref, c.l, c.entry, c.bal, WithEntry(c.up, e))
  }

  lemma {:induction false} WithEntryKeeps(c: Ctx, e: Entry, head: Ref, h: int)
    requires Spine(c)
    ensures CtxRefs(WithEntry(c, e), head) == CtxRefs(c, head) && Above(WithEntry(c, e), head) == Above(c, head)
    ensures SeparateCtx(WithEntry(c, e), head) == SeparateCtx(c, head)
    ensures BalancedCtx(WithEntry(c, e), h) == BalancedCtx(c, h)
    ensures LeftOf(WithEntry(c, e)) == LeftOf(c)
    ensures RightOf(c) != [] && RightOf(WithEntry(c, e)) == [e] + RightOf(c)[1..] && RightOf(c)[0] == SpineTop(c).entry
    ensures SpineTop(c).ref in CtxRefs(c, head) && WithEntry(c, e).InRight? == c.InRight?
  {
    if c.InRight? {
      WithEntryKeeps(c.up, e, head, 1 + Max(h, Height(c.l)));
    }
  }

  lemma {:induction false} SpineEntrySet(m: Mem, c: Ctx, hole: Ref, head: Ref, e: Entry)
    requires RepCtx(m, c, hole, head) && SeparateCtx(c, head) && Spine(c)
    ensures var p := SpineTop(c).ref;
            p in m && RepCtx(m[p := m[p].(entry := e)], WithEntry(c, e), hole, head)
  {
    var p := SpineTop(c).ref;
    WithEntryKeeps(c, e, head, 0);
    if c.InLeft? {
      var m' := m[p := m[p].(entry := e)];
      RepFrame(m, m', c.r, p, {p});
      RepCtxFrame(m, m', c.up, p, head, {p});
    } else {
      SpineEntrySet(m, c.up, c.ref, head, e);
      WithEntryKeeps(c.up, e, head, 0);
      var m' := m[p := m[p].(entry := e)];
      RepFrame(m, m', c.l, c.ref, {p});
    }
  }

  /** The node at the top of the spine is given another entry. */
  lemma SpineHolds(m: Mem, c: Ctx, t: Tree, head: Ref, e: Entry)
    requires Holds(m, c, t, head) && Spine(c)
    ensures var p := SpineTop(c).ref;
            p in m && Holds(m[p := m[p].(entry := e)], WithEntry(c, e), t, head)
  {
    var p := SpineTop(c).ref;
    SpineEntrySet(m, c, Root(t), head, e);
    WithEntryKeeps(c, e, head, 0);
    RepFrame(m, m[p := m[p].(entry := e)], t, Above(c, head), {p});
  }
}
