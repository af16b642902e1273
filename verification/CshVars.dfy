/** The table of variables, or of aliases: setq, unsetv1 and the walks over the tree. */
module CshVars {
  import Addresses
  import opened CshNames
  import opened CshTree
  import opened CshMemory
  import opened CshBalance
  import opened CshOrder

  datatype Op = Assign(name: Name, vec: Vec) | Remove(name: Name)

  /** What a run of operations does to a finite map. */
  ghost function Effect(m: map<Name, Vec>, ops: seq<Op>): map<Name, Vec> {
    if ops == [] then m
    else
      var before := Effect(m, ops[..|ops| - 1]);
      match ops[|ops| - 1]
      case Assign(name, vec) => before[name := vec]
      case Remove(name) => before - {name}
  }

  class VarTable {
    const head: Ref           // shvhed or aliases, above the root
    var mem: Mem
    ghost var tree: Tree

    /** A balanced search tree under the header, and no other node. */
    ghost predicate Valid()
      reads this
    {
      Holds(mem, Top, tree, head) && Balanced(tree) && Sorted(Entries(tree))
    }

    /** The names and their values. */
    ghost function Bindings(): map<Name, Vec>
      reads this
    {
      MapOf(Entries(tree))
    }

    constructor (header: Ref)
      requires header != NULL
      ensures Valid() && Bindings() == map[] && head == header
    {
      head, mem, tree := header, map[header := Varent(Entry([], []), NULL, NULL, NULL, 0)], Leaf;
    }

    // ---- balance ----

    /** rleft: the right child of p comes to the top, and the link from the node above gets it. */
    method RotateLeftAt(p: Ref, pp: Ref, ff: bool, ghost c: Ctx, ghost t: Tree) returns (q: Ref)
      requires Holds(mem, c, t, head) && t.Node? && t.r.Node? && p == t.ref && pp == Above(c, head) && ff == c.InRight?
      modifies this`mem
      ensures Holds(mem, c, RotateLeft(t), head) && q == t.r.ref
    {
      LeftTurn(mem, t, pp);
      RotateLeftKeeps(t);
      Replaced(mem, TurnedLeft(mem, p), c, t, RotateLeft(t), head);
      Fields(mem, c, t, head);
      q := mem[p].right;
      mem := SetParent(mem, q, mem[p].parent);
      mem := SetRight(mem, p, mem[q].left);
      if mem[q].left != NULL {
        mem := SetParent(mem, mem[q].left, p);
      }
      mem := SetLeft(mem, q, p);
      mem := SetParent(mem, p, q);
      mem := SetLink(mem, pp, ff, q);
    }

    /** rright(p), likewise. */
    method RotateRightAt(p: Ref, pp: Ref, ff: bool, ghost c: Ctx, ghost t: Tree) returns (q: Ref)
      requires Holds(mem, c, t, head) && t.Node? && t.l.Node? && p == t.ref && pp == Above(c, head) && ff == c.InRight?
      modifies this`mem
      ensures Holds(mem, c, RotateRight(t), head) && q == t.l.ref
    {
      RightTurn(mem, t, pp);
      RotateRightKeeps(t);
      Replaced(mem, TurnedRight(mem, p), c, t, RotateRight(t), head);
      Fields(mem, c, t, head);
      q := mem[p].left;
      mem := SetParent(mem, q, mem[p].parent);
      mem := SetLeft(mem, p, mem[q].right);
      if mem[q].right != NULL {
        mem := SetParent(mem, mem[q].right, p);
      }
      mem := SetRight(mem, q, p);
      mem := SetParent(mem, p, q);
      mem := SetLink(mem, pp, ff, q);
    }

    /** The balances of the three nodes at the top, after a double rotation. */
    method SetFactors(p: Ref, a: int, b: int, z: int, ghost c: Ctx, ghost t: Tree)
      requires Holds(mem, c, t, head) && t.Node? && t.l.Node? && t.r.Node? && p == t.ref
      modifies this`mem
      ensures Holds(mem, c, SetBal(t, a, b, z), head)
    {
      Fields(mem, c, t, head);
      LeftFactorSet(mem, c, t, head, a);
      mem := SetFactor(mem, mem[p].left, a);
      ghost var t1 := t.(l := t.l.(bal := a));
      Fields(mem, c, t1, head);
      RightFactorSet(mem, c, t1, head, z);
      mem := SetFactor(mem, mem[p].right, z);
      FactorSet(mem, c, t1.(r := t1.r.(bal := z)), head, b);
      mem := SetFactor(mem, p, b);
    }

    /** The balances of the top and its left child, after a single rotation to the left. */
    method SetLeftFactors(p: Ref, a: int, b: int, ghost c: Ctx, ghost t: Tree)
      requires Holds(mem, c, t, head) && t.Node? && t.l.Node? && p == t.ref
      modifies this`mem
      ensures Holds(mem, c, t.(l := t.l.(bal := a), bal := b), head)
    {
      Fields(mem, c, t, head);
      LeftFactorSet(mem, c, t, head, a);
      mem := SetFactor(mem, mem[p].left, a);
      FactorSet(mem, c, t.(l := t.l.(bal := a)), head, b);
      mem := SetFactor(mem, p, b);
    }

    method SetRightFactors(p: Ref, b: int, z: int, ghost c: Ctx, ghost t: Tree)
      requires Holds(mem, c, t, head) && t.Node? && t.r.Node? && p == t.ref
      modifies this`mem
      ensures Holds(mem, c, t.(r := t.r.(bal := z), bal := b), head)
    {
      Fields(mem, c, t, head);
      RightFactorSet(mem, c, t, head, z);
      mem := SetFactor(mem, mem[p].right, z);
      FactorSet(mem, c, t.(r := t.r.(bal := z)), head, b);
      mem := SetFactor(mem, p, b);
    }

    /** The double rotation to the left: first the right child turns right, then p turns left. */
    method RotateRightLeft(p: Ref, pp: Ref, ff: bool, ghost c: Ctx, ghost t: Tree) returns (q: Ref)
      requires Holds(mem, c, t, head) && t.Node? && t.r.Node? && t.r.l.Node?
      requires p == t.ref && pp == Above(c, head) && ff == c.InRight?
      modifies this`mem
      ensures Holds(mem, c, RotateLeft(t.(r := RotateRight(t.r))), head) && q == t.r.l.ref
    {
      GoRight(mem, c, t, head);
      Fields(mem, c, t, head);
      ghost var c1 := InRight(t.ref, t.l, t.entry, t.bal, c);
      var _ := RotateRightAt(mem[p].right, p, true, c1, t.r);
      GoUp(mem, c1, RotateRight(t.r), head);
      q := RotateLeftAt(p, pp, ff, c, t.(r := RotateRight(t.r)));
    }

    method RotateLeftRight(p: Ref, pp: Ref, ff: bool, ghost c: Ctx, ghost t: Tree) returns (q: Ref)
      requires Holds(mem, c, t, head) && t.Node? && t.l.Node? && t.l.r.Node?
      requires p == t.ref && pp == Above(c, head) && ff == c.InRight?
      modifies this`mem
      ensures Holds(mem, c, RotateRight(t.(l := RotateLeft(t.l))), head) && q == t.l.r.ref
    {
      GoLeft(mem, c, t, head);
      Fields(mem, c, t, head);
      ghost var c1 := InLeft(t.ref, t.entry, t.bal, t.r, c);
      var _ := RotateLeftAt(mem[p].left, p, false, c1, t.l);
      GoUp(mem, c1, RotateLeft(t.l), head);
      q := RotateRightAt(p, pp, ff, c, t.(l := RotateLeft(t.l)));
    }

    /** The branch of balance for a subtree that is right heavy. */
    method TurnRightHeavy(p: Ref, pp: Ref, ff: bool, ghost c: Ctx, ghost t: Tree) returns (q: Ref)
      requires Holds(mem, c, t, head) && Fixable(t, true) && p == t.ref && pp == Above(c, head) && ff == c.InRight?
      modifies this`mem
      ensures Holds(mem, c, RightHeavy(t), head) && q == RightHeavy(t).ref
    {
      Fields(mem, c, t, head);
      q := p;
      match mem[p].bal {
        case -1 =>
          FactorSet(mem, c, t, head, 0);
          mem := SetFactor(mem, p, 0);
        case 0 =>
          FactorSet(mem, c, t, head, 1);
          mem := SetFactor(mem, p, 1);
        case _ =>
          assert Rep(mem, t.r, p);
          match mem[mem[p].right].bal {
            case 1 =>
              q := RotateLeftAt(p, pp, ff, c, t);
              SetLeftFactors(q, 0, 0, c, RotateLeft(t));
            case 0 =>
              q := RotateLeftAt(p, pp, ff, c, t);
              SetLeftFactors(q, 1, -1, c, RotateLeft(t));
            case _ =>
              q := RotateRightLeft(p, pp, ff, c, t);
              ghost var u := RotateLeft(t.(r := RotateRight(t.r)));
              Fields(mem, c, u, head);
              SetFactors(q, if mem[q].bal < 1 then 0 else -1, 0, if mem[q].bal > -1 then 0 else 1, c, u);
          }
      }
    }

    /** The branch of balance for a subtree that is left heavy. */
    method TurnLeftHeavy(p: Ref, pp: Ref, ff: bool, ghost c: Ctx, ghost t: Tree) returns (q: Ref)
      requires Holds(mem, c, t, head) && Fixable(t, false) && p == t.ref && pp == Above(c, head) && ff == c.InRight?
      modifies this`mem
      ensures Holds(mem, c, LeftHeavy(t), head) && q == LeftHeavy(t).ref
    {
      Fields(mem, c, t, head);
      q := p;
      match mem[p].bal {
        case 1 =>
          FactorSet(mem, c, t, head, 0);
          mem := SetFactor(mem, p, 0);
        case 0 =>
          FactorSet(mem, c, t, head, -1);
          mem := SetFactor(mem, p, -1);
        case _ =>
          assert Rep(mem, t.l, p);
          match mem[mem[p].left].bal {
            case -1 =>
              q := RotateRightAt(p, pp, ff, c, t);
              SetRightFactors(q, 0, 0, c, RotateRight(t));
            case 0 =>
              q := RotateRightAt(p, pp, ff, c, t);
              SetRightFactors(q, 1, -1, c, RotateRight(t));
            case _ =>
              q := RotateLeftRight(p, pp, ff, c, t);
              ghost var u := RotateRight(t.(l := RotateLeft(t.l)));
              Fields(mem, c, u, head);
              SetFactors(q, if mem[q].bal < 1 then 0 else -1, 0, if mem[q].bal > -1 then 0 else 1, c, u);
          }
      }
    }

    /** The hole of c holds t, whose height has just changed; p is the node above, and f its side. */
    ghost predicate Climbing(p: Ref, f: bool, deleted: bool, c: Ctx, t: Tree, entries: seq<Entry>)
      reads this
    {
      && Holds(mem, c, t, head) && p == Above(c, head) && (!c.Top? ==> f == c.InRight?)
      && Balanced(t) && BalancedCtx(c, Height(t) - Delta(deleted)) && (!deleted ==> Grown(t))
      && Entries(Plug(c, t)) == entries
    }

    /** One turn of the loop of balance. */
    method Turn(p: Ref, pp: Ref, f: bool, d: bool, ghost c: Ctx, ghost t: Tree, ghost entries: seq<Entry>)
      returns (ff: bool, stop: bool, ghost u: Tree)
      requires Climbing(p, f, d, c, t, entries) && !c.Top? && pp == Above(c.up, head)
      modifies this`mem
      ensures stop ==>
        Holds(mem, c.up, u, head) && Balanced(u) && BalancedCtx(c.up, Height(u)) && Entries(Plug(c.up, u)) == entries
      ensures !stop ==> Climbing(pp, ff, d, c.up, u, entries)
    {
      hide RightHeavy, LeftHeavy, Balanced, BalancedCtx, Entries, Plug, Grown, RepCtx, Rep;
      GoUp(mem, c, t, head);
      TurnBalances(c, t, head, d);
      ghost var v := Frame(c, t);
      Fields(mem, c.up, v, head);
      ff := mem[pp].right == p;
      u := Fix(v, f, d);
      var q;
      if f != d {
        q := TurnRightHeavy(p, pp, ff, c.up, v);
      } else {
        q := TurnLeftHeavy(p, pp, ff, c.up, v);
      }
      Fields(mem, c.up, u, head);
      stop := (mem[q].bal == 0) != d;
    }

    /** balance: from the node above a subtree whose height has changed up to where nothing changes any
        more, or to the header. */
    method Balance(p0: Ref, f0: bool, d: bool, ghost c0: Ctx, ghost t0: Tree, ghost entries: seq<Entry>)
      returns (ghost t': Tree)
      requires Climbing(p0, f0, d, c0, t0, entries)
      modifies this`mem
      ensures Holds(mem, Top, t', head) && Balanced(t') && Entries(t') == entries
    {
      ghost var c, t := c0, t0;
      var p, f, stop := p0, f0, false;
      Fields(mem, c, t, head);
      var pp := mem[p].parent;
      while pp != NULL && !stop
        invariant stop ==>
          Holds(mem, c, t, head) && Balanced(t) && BalancedCtx(c, Height(t)) && Entries(Plug(c, t)) == entries
        invariant !stop ==> Climbing(p, f, d, c, t, entries) && p in mem && pp == mem[p].parent
        decreases c, !stop
      {
        Fields(mem, c, t, head);
        GoUp(mem, c, t, head);
        Fields(mem, c.up, Frame(c, t), head);
        f, stop, t := Turn(p, pp, f, d, c, t, entries);
        c := c.up;
        if !stop {
          p := pp;
          Fields(mem, c, t, head);
          pp := mem[p].parent;
        }
      }
      Fields(mem, c, t, head);
      PlugAll(mem, c, t, head);
      t' := Plug(c, t);
      BalancedPlug(c, t);
    }

    // ---- lookup and insertion ----

    /** The search for name has come to the hole of c, which holds t. */
    ghost predicate Searching(c: Ctx, t: Tree, name: Name)
      reads this
    {
      Holds(mem, c, t, head) && Sorted(Entries(t)) && Around(c, name) && Plug(c, t) == tree
    }

    lemma SearchStarts(name: Name)
      requires Valid()
      ensures Searching(Top, tree, name)
    {
    }

    /** One step of the search. */
    lemma SearchStep(c: Ctx, t: Tree, name: Name)
      requires Searching(c, t, name) && t.Node? && Cmp(name, t.entry.name) != 0
      ensures Cmp(name, t.entry.name) < 0 ==> Searching(InLeft(t.ref, t.entry, t.bal, t.r, c), t.l, name)
      ensures Cmp(name, t.entry.name) > 0 ==> Searching(InRight(t.ref, t.l, t.entry, t.bal, c), t.r, name)
    {
      TotalOrder(name, t.entry.name);
      TotalOrder(t.entry.name, name);
      if Cmp(name, t.entry.name) < 0 {
        GoLeft(mem, c, t, head);
        SearchLeft(c, t, name);
      } else {
        GoRight(mem, c, t, head);
        SearchRight(c, t, name);
      }
    }

    /** Where the search ends, one knows whether there is a binding. */
    lemma {:induction false} SearchEnds(c: Ctx, t: Tree, name: Name)
      requires Searching(c, t, name) && (t.Node? ==> t.entry.name == name)
      ensures Entries(tree) == LeftOf(c) + Entries(t) + RightOf(c)
      ensures t.Leaf? ==> !Has(Entries(tree), name)
      ensures t.Node? ==> Has(Entries(tree), name)
    {
      EntriesPlug(c, t);
      if t.Leaf? {
        NotThere(LeftOf(c), Entry(name, []), RightOf(c));
        assert LeftOf(c) + [] + RightOf(c) == LeftOf(c) + RightOf(c);
      } else {
        assert Entries(tree)[|LeftOf(c)| + |Entries(t.l)|] == t.entry;
      }
    }

    /** adrof1: the node of a name, if it has a binding. */
    method Adrof1(name: Name) returns (v: Ref)
      requires Valid()
      ensures v == NULL <==> name !in Bindings()
      ensures v != NULL ==> v != head && v in mem && mem[v].entry == Entry(name, Bindings()[name])
    {
      ghost var c, t := Top, tree;
      SearchStarts(name);
      Fields(mem, c, t, head);
      v := mem[head].left;
      while v != NULL && Cmp(name, mem[v].entry.name) != 0
        invariant Searching(c, t, name) && v == Root(t) && (v != NULL ==> v in mem && mem[v].entry == t.entry)
        decreases t
      {
        Fields(mem, c, t, head);
        SearchStep(c, t, name);
        if Cmp(name, mem[v].entry.name) < 0 {
          v := mem[v].left;
          c, t := InLeft(t.ref, t.entry, t.bal, t.r, c), t.l;
        } else {
          v := mem[v].right;
          c, t := InRight(t.ref, t.l, t.entry, t.bal, c), t.r;
        }
        Fields(mem, c, t, head);
      }
      Fields(mem, c, t, head);
      if v != NULL {
        TotalOrder(name, t.entry.name);
      }
      SearchEnds(c, t, name);
      MapOfHas(Entries(tree), name);
      if v != NULL {
        MapOfAt(Entries(tree), |LeftOf(c)| + |Entries(t.l)|);
      }
    }

    /** The loop of setq: where name is, or the empty link where it belongs. */
    method FindLink(name: Name) returns (p: Ref, f: bool, q: Ref, ghost c: Ctx, ghost t: Tree)
      requires Valid()
      ensures Searching(c, t, name) && p == Above(c, head) && (if c.Top? then !f else f == c.InRight?) && q == Root(t)
      ensures t.Node? ==> t.entry.name == name && q in mem
    {
      p, f, c, t := head, false, Top, tree;
      SearchStarts(name);
      Fields(mem, c, t, head);
      q := mem[p].left;
      while q != NULL && Cmp(name, mem[q].entry.name) != 0
        invariant Searching(c, t, name) && p == Above(c, head)
        invariant (if c.Top? then !f else f == c.InRight?) && q == Root(t)
        invariant q != NULL ==> t.Node? && q in mem && mem[q].entry == t.entry
        decreases t
      {
        Fields(mem, c, t, head);
        SearchStep(c, t, name);
        p, f := q, Cmp(name, mem[q].entry.name) > 0;
        if f {
          q := mem[p].right;
          c, t := InRight(t.ref, t.l, t.entry, t.bal, c), t.r;
        } else {
          q := mem[p].left;
          c, t := InLeft(t.ref, t.entry, t.bal, t.r, c), t.l;
        }
        Fields(mem, c, t, head);
      }
      Fields(mem, c, t, head);
      if q != NULL {
        TotalOrder(name, t.entry.name);
      }
    }

    /** The branch of setq for a name that has a value already. */
    method Revalue(q: Ref, name: Name, vec: Vec, ghost c: Ctx, ghost t: Tree)
      requires Valid() && Searching(c, t, name) && t.Node? && t.entry.name == name && q == t.ref && q in mem
      modifies this
      ensures Valid() && Bindings() == old(Bindings())[name := vec] && mem.Keys == old(mem.Keys)
    {
      ghost var u := t.(entry := Entry(name, vec));
      Revalued(c, t, vec);
      EntrySet(mem, c, t, head, Entry(name, vec));
      mem := mem[q := mem[q].(entry := Entry(name, vec))];
      PlugAll(mem, c, u, head);
      tree := Plug(c, u);
    }

    /** The node of a new binding, which balance then finds a place for.  (The value is stored with the
        node and not after balance, which does not read it.) */
    method AddNode(p: Ref, f: bool, name: Name, vec: Vec, ghost c: Ctx)
      requires Valid() && Searching(c, Leaf, name) && p == Above(c, head) && (if c.Top? then !f else f == c.InRight?)
      modifies this
      ensures Valid() && Bindings() == old(Bindings())[name := vec]
    {
      hide Rep, RepCtx, Separate, SeparateCtx, Sorted, Around, MapOf;
      Addresses.FreshAddress(mem.Keys);
      var x :| x !in mem && x != NULL;
      ghost var t := Node(x, Leaf, Entry(name, vec), 0, Leaf);
      Inserted(c, Entry(name, vec), x);
      NewLeaf(mem, c, head, x, Entry(name, vec));
      mem := mem[x := Varent(Entry(name, vec), NULL, NULL, p, 0)];
      mem := SetLink(mem, p, f, x);
      tree := Balance(p, f, false, c, t, Entries(Plug(c, t)));
    }

    /** setq */
    method SetQ(name: Name, vec: Vec)
      requires Valid()
      modifies this
      ensures Valid() && Bindings() == old(Bindings())[name := vec]
    {
      ghost var c, t;
      var p, f, q;
      p, f, q, c, t := FindLink(name);
      Fields(mem, c, t, head);
      if q != NULL {
        Revalue(q, name, vec, c, t);
      } else {
        AddNode(p, f, name, vec, c);
      }
    }

    // ---- removal ----

    /** The end of unsetv1: the child q of p is moved to where p is, p is freed, and the tree rebalanced. */
    method FreeNode(p: Ref, q: Ref, ghost c: Ctx, ghost t: Tree) returns (ghost t': Tree)
      requires Holds(mem, c, t, head) && Balanced(Plug(c, t))
      requires t.Node? && (t.l.Leaf? || t.r.Leaf?) && p == t.ref && q == Root(OnlyChild(t))
      modifies this`mem
      ensures Holds(mem, Top, t', head) && Balanced(t')
      ensures Entries(t') == LeftOf(c) + Entries(OnlyChild(t)) + RightOf(c)
    {
      hide Rep, RepCtx, Separate, SeparateCtx;
      BalancedPlug(c, t);
      NodeFreed(mem, c, t, head);
      Fields(mem, c, t, head);
      ghost var u := OnlyChild(t);
      EntriesPlug(c, u);
      var pp := mem[p].parent;
      var f := mem[pp].right == p;
      mem := SetLink(mem, pp, f, q);
      if q != NULL {
        mem := SetParent(mem, q, pp);
      }
      mem := mem - {p};
      t' := Balance(pp, f, true, c, u, Entries(Plug(c, u)));
    }

    /** The node before p in the order of the names: down its left child as far to the right as there is. */
    method Predecessor(p: Ref, ghost c: Ctx, ghost t: Tree) returns (q: Ref, ghost d: Ctx, ghost u: Tree)
      requires Holds(mem, c, t, head) && t.Node? && t.l.Node? && p == t.ref
      ensures Holds(mem, d, u, head) && Plug(d, u) == Plug(c, t) && u.Node? && u.r.Leaf? && q == u.ref
      ensures Spine(d) && SpineTop(d).ref == p && SpineTop(d).entry == t.entry
    {
      Fields(mem, c, t, head);
      GoLeft(mem, c, t, head);
      d, u := InLeft(t.ref, t.entry, t.bal, t.r, c), t.l;
      q := mem[p].left;
      Fields(mem, d, u, head);
      while mem[q].right != NULL
        invariant Holds(mem, d, u, head) && Plug(d, u) == Plug(c, t) && u.Node?
        invariant q == u.ref && q in mem && mem[q].right == Root(u.r)
        invariant Spine(d) && SpineTop(d).ref == p && SpineTop(d).entry == t.entry
        decreases u
      {
        GoRight(mem, d, u, head);
        d, u := InRight(u.ref, u.l, u.entry, u.bal, d), u.r;
        Fields(mem, d, u, head);
        q := mem[q].right;
      }
      GoRight(mem, d, u, head);
      Fields(mem, InRight(u.ref, u.l, u.entry, u.bal, d), u.r, head);
    }

    /** The branch of unsetv1 for a node with two children: its predecessor's entry is copied into it, and
        the predecessor is freed in its place. */
    method FreePredecessor(p: Ref, ghost c: Ctx, ghost t: Tree) returns (ghost t': Tree)
      requires Holds(mem, c, t, head) && Balanced(Plug(c, t)) && Sorted(Entries(Plug(c, t)))
      requires t.Node? && t.l.Node? && t.r.Node? && p == t.ref
      modifies this`mem
      ensures Holds(mem, Top, t', head) && Balanced(t')
      ensures Sorted(Entries(t')) && MapOf(Entries(t')) == MapOf(Entries(Plug(c, t))) - {t.entry.name}
    {
      ghost var d, u;
      var q;
      q, d, u := Predecessor(p, c, t);
      Fields(mem, d, u, head);
      SpineHolds(mem, d, u, head, u.entry);
      EntryReplaced(d, u);
      BalancedPlug(d, u);
      WithEntryKeeps(d, u.entry, head, Height(u));
      BalancedPlug(WithEntry(d, u.entry), u);
      mem := mem[p := mem[p].(entry := mem[q].entry)];
      Fields(mem, WithEntry(d, u.entry), u, head);
      t' := FreeNode(q, mem[q].left, WithEntry(d, u.entry), u);
    }

    /** unsetv1 */
    method UnsetV1(p: Ref)
      requires Valid() && p in mem && p != head
      modifies this
      ensures Valid() && old(mem[p].entry.name) in old(Bindings())
      ensures Bindings() == old(Bindings()) - {old(mem[p].entry.name)}
    {
      ghost var c, t := Locate(mem, Top, tree, head, p);
      Fields(mem, c, t, head);
      EntryPresent(c, t);
      if mem[p].right == NULL || mem[p].left == NULL {
        Childless(mem, c, t, head);
        EntryGone(c, t);
        tree := FreeNode(p, if mem[p].right == NULL then mem[p].left else mem[p].right, c, t);
      } else {
        tree := FreePredecessor(p, c, t);
      }
    }

    lemma EntryPresent(c: Ctx, t: Tree)
      requires t.Node?
      ensures t.entry.name in MapOf(Entries(Plug(c, t)))
    {
      EntriesAround(c, t);
      assert Entries(Plug(c, t))[|LeftOf(c) + Entries(t.l)|] == t.entry;
      MapOfHas(Entries(Plug(c, t)), t.entry.name);
    }

    /** unsetv: the value of a variable that has none is an error. */
    method UnsetV(name: Name) returns (ok: bool)
      requires Valid()
      modifies this
      ensures Valid() && ok == (name in old(Bindings())) && Bindings() == old(Bindings()) - {name}
    {
      var vp := Adrof1(name);
      ok := vp != NULL;
      if ok {
        UnsetV1(vp);
      }
    }

    /** After any run of assignments and removals the tree is a balanced search tree of the bindings that
        the run leaves. */
    method Run(ops: seq<Op>)
      requires Valid()
      modifies this
      ensures Valid() && Bindings() == Effect(old(Bindings()), ops)
    {
      var i := 0;
      while i < |ops|
        invariant 0 <= i <= |ops| && Valid() && Bindings() == Effect(old(Bindings()), ops[..i])
      {
        match ops[i] {
          case Assign(name, vec) =>
            SetQ(name, vec);
          case Remove(name) =>
            var ok := UnsetV(name);
        }
        assert ops[..i + 1][..i] == ops[..i];
        i := i + 1;
      }
      assert ops[..|ops|] == ops;
    }

    // ---- walks ----

    /** madrof: the first entry, from left to right, whose name matches the pattern. */
    method Madrof(pat: Name -> bool, vp0: Ref, ghost t0: Tree, ghost parent: Ref) returns (vp: Ref)
      requires Rep(mem, t0, parent) && vp0 == Root(t0)
      ensures vp == NULL ==> NoMatch(Entries(t0), pat)
      ensures vp != NULL ==> vp in Refs(t0) && vp in mem && FirstMatch(Entries(t0), pat, mem[vp].entry)
      decreases t0
    {
      hide NoMatch, FirstMatch;
      vp := vp0;
      ghost var t, up, pre := t0, parent, [];
      NothingMatches(pat);
      assert [] + Entries(t0) == Entries(t0);
      while vp != NULL
        invariant Rep(mem, t, up) && vp == Root(t) && Refs(t) <= Refs(t0)
        invariant Entries(t0) == pre + Entries(t) && NoMatch(pre, pat)
        decreases t
      {
        if mem[vp].left != NULL {
          var vp1 := Madrof(pat, mem[vp].left, t.l, vp);
          if vp1 != NULL {
            MatchInLeft(pre, t, pat, mem[vp1].entry);
            return vp1;
          }
        } else {
          NothingMatches(pat);
          assert Rep(mem, t.l, vp) && Entries(t.l) == [];
        }
        MatchHere(pre, t, pat);
        if pat(mem[vp].entry.name) {
          return vp;
        }
        pre := pre + Entries(t.l) + [t.entry];
        vp, t, up := mem[vp].right, t.r, vp;
      }
      assert pre + Entries(t) == pre;
    }

    lemma NothingMatches(pat: Name -> bool)
      ensures NoMatch([], pat)
    {
    }

    /** The inner loop of unset1: every name that matches the pattern loses its binding. */
    method UnsetMatching(pat: Name -> bool) returns (cnt: nat)
      requires Valid()
      modifies this
      ensures Valid() && Bindings() == Unmatched(old(Bindings()), pat)
      ensures cnt == |old(Bindings())| - |Bindings()| && (cnt == 0 ==> Bindings() == old(Bindings()))
    {
      cnt := 0;
      ghost var m := Bindings();
      var vp := FirstToUnset(pat);
      while vp != NULL
        invariant Valid() && (vp != NULL ==> vp in mem && vp != head && pat(mem[vp].entry.name))
        invariant vp == NULL ==> NoMatch(Entries(tree), pat)
        invariant Unmatched(m, pat) == Unmatched(Bindings(), pat) && cnt == |m| - |Bindings()|
        invariant cnt == 0 ==> Bindings() == m
        decreases |Bindings()|
      {
        ghost var n, before := mem[vp].entry.name, Bindings();
        UnsetV1(vp);
        OneUnset(before, n, pat);
        cnt := cnt + 1;
        vp := FirstToUnset(pat);
      }
      AllUnset(Entries(tree), pat);
    }

    /** madrof of the whole table: of the names that match, the one that comes before all others. */
    method FirstToUnset(pat: Name -> bool) returns (vp: Ref)
      requires Valid()
      ensures vp == NULL ==> NoMatch(Entries(tree), pat) && forall n :: n in Bindings() ==> !pat(n)
      ensures vp != NULL ==>
        && vp in mem && vp != head && mem[vp].entry.name in Bindings() && pat(mem[vp].entry.name)
        && forall n :: n in Bindings() && pat(n) && n != mem[vp].entry.name ==> ComesBefore(mem[vp].entry.name, n)
    {
      hide Balanced, Sorted, FirstMatch;
      Fields(mem, Top, tree, head);
      vp := Madrof(pat, mem[head].left, tree, head);
      EntriesAre(Entries(tree));
      if vp != NULL {
        FirstMatchMeans(Entries(tree), pat, mem[vp].entry);
      }
      assert forall n :: n in Bindings() ==> Entry(n, Bindings()[n]) in Entries(tree);
    }

    /** unset1: of several patterns; what error messages will name is the last one that matched nothing. */
    method Unset1(pats: seq<Name -> bool>) returns (named: int)
      requires Valid()
      modifies this
      ensures Valid() && Bindings() == UnmatchedByAll(old(Bindings()), pats)
      ensures named == LastUnmatching(old(Bindings()), pats)
      ensures Survivors(old(Bindings()), pats, Bindings()) && LastMiss(old(Bindings()), pats, named)
    {
      hide Survivors, LastMiss, VarTable.Valid, VarTable.Bindings;
      SurvivorsOf(Bindings(), pats);
      LastMissOf(Bindings(), pats);
      var i := 0;
      named := -1;
      while i < |pats|
        invariant 0 <= i <= |pats| && Valid() && Bindings() == UnmatchedByAll(old(Bindings()), pats[..i])
        invariant named == LastUnmatching(old(Bindings()), pats[..i])
      {
        var cnt := UnsetMatching(pats[i]);
        if cnt == 0 {
          named := i;
        }
        assert pats[..i + 1][..i] == pats[..i];
        i := i + 1;
      }
      assert pats[..|pats|] == pats;
    }

    // ---- printing ----

    /** plist is about to walk down from p, having printed what lies to the left. */
    ghost predicate GoingDown(p: Ref, out: seq<Entry>, c: Ctx, t: Tree)
      reads this
    {
      && Holds(mem, c, t, head) && Plug(c, t) == tree && out == LeftOf(c)
      && if p == head then c.Top? else t.Node? && p == t.ref
    }

    /** plist is about to print the node p, or has come back to the header. */
    ghost predicate AtNode(p: Ref, out: seq<Entry>, c: Ctx, t: Tree)
      reads this
    {
      && Holds(mem, c, t, head) && Plug(c, t) == tree
      && if p == head then out == Entries(tree) else t.Node? && p == t.ref && out == LeftOf(c) + Entries(t.l)
    }

    /** Down to the left as far as there is. */
    method Leftmost(p0: Ref, ghost out: seq<Entry>, ghost c0: Ctx, ghost t0: Tree)
      returns (p: Ref, ghost c: Ctx, ghost t: Tree)
      requires GoingDown(p0, out, c0, t0)
      ensures AtNode(p, out, c, t) && p in mem
    {
      p, c, t := p0, c0, t0;
      Fields(mem, c, t, head);
      while mem[p].left != NULL
        invariant GoingDown(p, out, c, t) && p in mem && mem[p].left == Root(if p == head then t else t.l)
        decreases t, p == head
      {
        Fields(mem, c, t, head);
        if p != head {
          GoLeft(mem, c, t, head);
          c, t := InLeft(t.ref, t.entry, t.bal, t.r, c), t.l;
          Fields(mem, c, t, head);
        }
        p := mem[p].left;
        Fields(mem, c, t, head);
      }
      if p == head {
        assert t.Leaf?;
      } else {
        Childless(mem, c, t, head);
        assert LeftOf(c) + [] == LeftOf(c);
      }
    }

    /** Up from right children, and then from a left child to its parent, the next in order. */
    method Climb(p0: Ref, ghost out: seq<Entry>, ghost c0: Ctx, ghost t0: Tree)
      returns (p: Ref, ghost c: Ctx, ghost t: Tree)
      requires Holds(mem, c0, t0, head) && Plug(c0, t0) == tree && t0.Node?
      requires p0 == t0.ref && out == LeftOf(c0) + Entries(t0)
      ensures AtNode(p, out, c, t) && p in mem
    {
      var q := p0;
      c, t := c0, t0;
      Fields(mem, c, t, head);
      p := mem[q].parent;
      while mem[p].right == q
        invariant Holds(mem, c, t, head) && Plug(c, t) == tree && t.Node? && q == t.ref && out == LeftOf(c) + Entries(t)
        invariant p == Above(c, head) && p in mem
        decreases c
      {
        Fields(mem, c, t, head);
        GoUp(mem, c, t, head);
        assert LeftOf(c) + Entries(t) == LeftOf(c.up) + (Entries(c.l) + [c.entry] + Entries(t));
        c, t := c.up, Frame(c, t);
        Fields(mem, c, t, head);
        q := p;
        p := mem[q].parent;
      }
      Fields(mem, c, t, head);
      if !c.Top? {
        GoUp(mem, c, t, head);
        c, t := c.up, Frame(c, t);
      } else {
        assert Plug(c, t) == t && LeftOf(c) == [];
      }
    }

    /** Something is left to print. */
    lemma PrintOne(out: seq<Entry>, c: Ctx, t: Tree)
      requires Plug(c, t) == tree && t.Node? && out == LeftOf(c) + Entries(t.l)
      ensures |out| < |Entries(tree)|
    {
      EntriesPlug(c, t);
    }

    /** plist: every binding once, in the order of the names. */
    method Plist() returns (out: seq<Entry>)
      requires Valid()
      ensures out == Entries(tree) && Sorted(out) && MapOf(out) == Bindings()
      ensures forall i, j :: 0 <= i < j < |out| ==> ComesBefore(out[i].name, out[j].name)
      ensures forall n, v :: Entry(n, v) in out <==> n in Bindings() && Bindings()[n] == v
    {
      out := Walk();
      SortedMeans(out);
      EntriesAre(out);
    }

    /** The walk of plist. */
    method Walk() returns (out: seq<Entry>)
      requires Valid()
      ensures out == Entries(tree) && Sorted(out) && MapOf(out) == Bindings()
    {
      hide Balanced, Sorted, RepCtx, Rep, Separate, SeparateCtx;
      out := [];
      ghost var c, t := Top, tree;
      Fields(mem, c, t, head);
      var p;
      p, c, t := Leftmost(head, out, c, t);
      while p in mem && mem[p].parent != NULL
        invariant AtNode(p, out, c, t) && p in mem
        decreases |Entries(tree)| - |out|
      {
        Fields(mem, Top, tree, head);
        PrintOne(out, c, t);
        Fields(mem, c, t, head);
        out := out + [mem[p].entry];
        if mem[p].right != NULL {
          GoRight(mem, c, t, head);
          Childless(mem, c, t, head);
          p := mem[p].right;
          assert LeftOf(c) + Entries(t.l) + [t.entry] == LeftOf(c) + (Entries(t.l) + [t.entry]);
          c, t := InRight(t.ref, t.l, t.entry, t.bal, c), t.r;
          Fields(mem, c, t, head);
          p, c, t := Leftmost(p, out, c, t);
        } else {
          Childless(mem, c, t, head);
          assert LeftOf(c) + Entries(t.l) + [t.entry] == LeftOf(c) + (Entries(t.l) + [t.entry] + []);
          p, c, t := Climb(p, out, c, t);
        }
      }
      Fields(mem, c, t, head);
    }
  }

  /** A sorted list holds exactly the bindings of its map. */
  lemma {:induction false} EntriesAre(s: seq<Entry>)
    requires Sorted(s)
    ensures forall n, v :: Entry(n, v) in s <==> n in MapOf(s) && MapOf(s)[n] == v
  {
    forall i | 0 <= i < |s| ensures s[i].name in MapOf(s) && MapOf(s)[s[i].name] == s[i].vec {
      MapOfAt(s, i);
    }
    forall n ensures n in MapOf(s) <==> Has(s, n) {
      MapOfHas(s, n);
    }
  }

  /** What a run of operations leaves, name by name: the last operation on a name decides. */
  lemma {:induction false} EffectMeans(m: map<Name, Vec>, before: seq<Op>, op: Op, after: seq<Op>, name: Name)
    requires op.name == name && forall i :: 0 <= i < |after| ==> after[i].name != name
    ensures var r := Effect(m, before + [op] + after);
            if op.Assign? then name in r && r[name] == op.vec else name !in r
  {
    var ops := before + [op] + after;
    if after == [] {
      assert ops[..|ops| - 1] == before && ops[|ops| - 1] == op;
    } else {
      var n := |after| - 1;
      assert ops[..|ops| - 1] == before + [op] + after[..n] && ops[|ops| - 1] == after[n];
      EffectMeans(m, before, op, after[..n], name);
    }
  }

  /** A name that no operation touches is left as it was. */
  lemma {:induction false} EffectOthers(m: map<Name, Vec>, ops: seq<Op>, name: Name)
    requires forall i :: 0 <= i < |ops| ==> ops[i].name != name
    ensures var r := Effect(m, ops); name in r <==> name in m
    ensures var r := Effect(m, ops); name in r ==> r[name] == m[name]
  {
    if ops != [] {
      EffectOthers(m, ops[..|ops| - 1], name);
    }
  }

  /** The bindings whose names do not match. */
  ghost function Unmatched(m: map<Name, Vec>, pat: Name -> bool): map<Name, Vec> {
    map n | n in m && !pat(n) :: m[n]
  }

  ghost function UnmatchedByAll(m: map<Name, Vec>, pats: seq<Name -> bool>): map<Name, Vec> {
    if pats == [] then m else Unmatched(UnmatchedByAll(m, pats[..|pats| - 1]), pats[|pats| - 1])
  }

  /** The last pattern that no name matched when its turn came, or -1. */
  ghost function LastUnmatching(m: map<Name, Vec>, pats: seq<Name -> bool>): int {
    if pats == [] then -1
    else
      var n := |pats| - 1;
      var before := UnmatchedByAll(m, pats[..n]);
      if Unmatched(before, pats[n]) == before then n else LastUnmatching(m, pats[..n])
  }

  /** The bindings that are left are those whose names no pattern matches, with their values. */
  ghost predicate Survivors(m: map<Name, Vec>, pats: seq<Name -> bool>, left: map<Name, Vec>) {
    && (forall n :: n in left <==> n in m && forall i :: 0 <= i < |pats| ==> !pats[i](n))
    && (forall n :: n in left ==> left[n] == m[n])
  }

  /** Pattern i matches a name that no pattern before it does. */
  ghost predicate Hits(m: map<Name, Vec>, pats: seq<Name -> bool>, i: nat)
    requires i < |pats|
  {
    exists n :: n in m && pats[i](n) && forall j :: 0 <= j < i ==> !pats[j](n)
  }

  /** Pattern k has matched none of the names that the patterns before it left, and each after it has. */
  ghost predicate LastMiss(m: map<Name, Vec>, pats: seq<Name -> bool>, k: int) {
    && -1 <= k < |pats| && (k >= 0 ==> !Hits(m, pats, k))
    && forall i :: k < i < |pats| ==> Hits(m, pats, i)
  }

  lemma {:induction false} SurvivorsOf(m: map<Name, Vec>, pats: seq<Name -> bool>)
    ensures Survivors(m, pats, UnmatchedByAll(m, pats))
  {
    if pats != [] {
      var n := |pats| - 1;
      SurvivorsOf(m, pats[..n]);
      assert forall i :: 0 <= i < n ==> pats[..n][i] == pats[i];
    }
  }

  lemma {:induction false} LastMissOf(m: map<Name, Vec>, pats: seq<Name -> bool>)
    ensures LastMiss(m, pats, LastUnmatching(m, pats))
  {
    if pats != [] {
      var n := |pats| - 1;
      var before := UnmatchedByAll(m, pats[..n]);
      LastMissOf(m, pats[..n]);
      SurvivorsOf(m, pats[..n]);
      assert forall i :: 0 <= i < n ==> pats[..n][i] == pats[i];
      forall i: nat | i < n ensures Hits(m, pats[..n], i) <==> Hits(m, pats, i) {
        HitsPrefix(m, pats, n, i);
      }
      LastHits(m, pats, before);
    }
  }

  lemma {:induction false} HitsPrefix(m: map<Name, Vec>, pats: seq<Name -> bool>, n: nat, i: nat)
    requires i < n <= |pats|
    ensures Hits(m, pats[..n], i) <==> Hits(m, pats, i)
  {
    assert forall j :: 0 <= j < n ==> pats[..n][j] == pats[j];
  }

  /** The last pattern hits just when it takes a binding away. */
  lemma {:induction false} LastHits(m: map<Name, Vec>, pats: seq<Name -> bool>, before: map<Name, Vec>)
    requires pats != [] && Survivors(m, pats[..|pats| - 1], before)
    ensures Hits(m, pats, |pats| - 1) <==> Unmatched(before, pats[|pats| - 1]) != before
  {
    var n := |pats| - 1;
    assert forall i :: 0 <= i < n ==> pats[..n][i] == pats[i];
    var after := Unmatched(before, pats[n]);
    if Hits(m, pats, n) {
      var x :| x in m && pats[n](x) && forall j :: 0 <= j < n ==> !pats[j](x);
      assert x in before && x !in after;
    } else {
      assert forall x :: x in before ==> x in after;
      assert after == before;
    }
  }

  lemma OneUnset(m: map<Name, Vec>, n: Name, pat: Name -> bool)
    requires n in m && pat(n)
    ensures Unmatched(m - {n}, pat) == Unmatched(m, pat) && |m - {n}| == |m| - 1
  {
    assert (m - {n}).Keys == m.Keys - {n};
    assert |m - {n}| == |(m - {n}).Keys| && |m| == |m.Keys|;
  }

  lemma AllUnset(s: seq<Entry>, pat: Name -> bool)
    requires NoMatch(s, pat)
    ensures Unmatched(MapOf(s), pat) == MapOf(s)
  {
    forall n | n in MapOf(s) ensures !pat(n) {
      MapOfHas(s, n);
    }
  }
}
