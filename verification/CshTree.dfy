/** The balanced trees in which csh keeps variables and aliases, as values: what a rotation does, and
    why one may stop rebalancing early. */
module CshTree {
  import Addresses
  import opened CshNames
  import opened Sequences

  /** The address of a struct varent. */
  type Ref = Addresses.Address

  const NULL := Addresses.NULL

  type Vec = seq<Name>

  /** A name and its value. */
  datatype Entry = Entry(name: Name, vec: Vec)

  datatype Tree = Leaf | Node(ref: Ref, l: Tree, entry: Entry, bal: int, r: Tree)

  function Root(t: Tree): Ref {
    if t.Leaf? then NULL else t.ref
  }

  ghost function Max(a: int, b: int): int {
    if a < b then b else a
  }

  ghost function Height(t: Tree): nat {
    if t.Leaf? then 0 else 1 + Max(Height(t.l), Height(t.r))
  }

  /** Every balance factor is the height of the right side minus that of the left, and at most 1
      either way. */
  ghost predicate Balanced(t: Tree) {
    t.Leaf? || (Balanced(t.l) && Balanced(t.r) && t.bal == Height(t.r) - Height(t.l) && -1 <= t.bal <= 1)
  }

  /** The entries from left to right. */
  ghost function Entries(t: Tree): seq<Entry> {
    if t.Leaf? then [] else Entries(t.l) + [t.entry] + Entries(t.r)
  }

  ghost function Refs(t: Tree): set<Ref> {
    if t.Leaf? then {} else Refs(t.l) + {t.ref} + Refs(t.r)
  }

  /** No two nodes have the same address. */
  ghost predicate Separate(t: Tree) {
    t.Leaf? || (Separate(t.l) && Separate(t.r) && t.ref !in Refs(t.l) && t.ref !in Refs(t.r) && Refs(t.l) !! Refs(t.r))
  }

  ghost function Pow2(n: nat): nat {
    if n == 0 then 1 else 2 * Pow2(n - 1)
  }

  /** What balance buys: the height is at most about twice the logarithm of the number of entries. */
  lemma {:induction false} Shallow(t: Tree)
    requires Balanced(t)
    ensures Pow2(Height(t) / 2) <= |Entries(t)| + 1
  {
    if t.Node? {
      Shallow(t.l);
      Shallow(t.r);
      Pow2Grows(Height(t) / 2, Height(t.l) / 2 + 1);
      Pow2Grows(Height(t) / 2, Height(t.r) / 2 + 1);
    }
  }

  lemma {:induction false} Pow2Grows(m: nat, n: nat)
    requires m <= n
    ensures Pow2(m) <= Pow2(n)
  {
    if m < n {
      Pow2Grows(m, n - 1);
    }
  }

  // ---- rotations ----

  ghost function RotateLeft(t: Tree): Tree
    requires t.Node? && t.r.Node?
  {
    Node(t.r.ref, Node(t.ref, t.l, t.entry, t.bal, t.r.l), t.r.entry, t.r.bal, t.r.r)
  }

  ghost function RotateRight(t: Tree): Tree
    requires t.Node? && t.l.Node?
  {
    Node(t.l.ref, t.l.l, t.l.entry, t.l.bal, Node(t.ref, t.l.r, t.entry, t.bal, t.r))
  }

  ghost function SetBal(t: Tree, a: int, b: int, c: int): Tree
    requires t.Node? && t.l.Node? && t.r.Node?
  {
    t.(l := t.l.(bal := a), bal := b, r := t.r.(bal := c))
  }

  /** What one turn of balance makes of the subtree at p, when its right side has become one higher than
      v_bal says, relative to the left: the cases of the switch. */
  ghost function RightHeavy(t: Tree): Tree
    requires Fixable(t, true)
  {
    if t.bal < 1 then t.(bal := t.bal + 1)
    else if t.r.bal == 1 then var u := RotateLeft(t); u.(l := u.l.(bal := 0), bal := 0)
    else if t.r.bal == 0 then var u := RotateLeft(t); u.(l := u.l.(bal := 1), bal := -1)
    else
      var u := RotateLeft(t.(r := RotateRight(t.r)));
      SetBal(u, if u.bal < 1 then 0 else -1, 0, if u.bal > -1 then 0 else 1)
  }

  ghost function LeftHeavy(t: Tree): Tree
    requires Fixable(t, false)
  {
    if t.bal > -1 then t.(bal := t.bal - 1)
    else if t.l.bal == -1 then var u := RotateRight(t); u.(r := u.r.(bal := 0), bal := 0)
    else if t.l.bal == 0 then var u := RotateRight(t); u.(r := u.r.(bal := -1), bal := 1)
    else
      var u := RotateRight(t.(l := RotateLeft(t.l)));
      SetBal(u, if u.bal < 1 then 0 else -1, 0, if u.bal > -1 then 0 else 1)
  }

  /** f ^ d, with f the side on which the height has changed. */
  ghost function Fix(t: Tree, right: bool, deleted: bool): Tree
    requires Fixable(t, right != deleted)
  {
    if right != deleted then RightHeavy(t) else LeftHeavy(t)
  }

  /** The nodes that a turn of balance looks at are there. */
  ghost predicate Fixable(t: Tree, heavyRight: bool) {
    && t.Node? && -1 <= t.bal <= 1
    && if heavyRight then t.bal == 1 ==> t.r.Node? && -1 <= t.r.bal <= 1 && (t.r.bal == -1 ==> t.r.l.Node?)
       else t.bal == -1 ==> t.l.Node? && -1 <= t.l.bal <= 1 && (t.l.bal == 1 ==> t.l.r.Node?)
  }

  /** By how much the height of the side changed. */
  ghost function Delta(deleted: bool): int {
    if deleted then -1 else 1
  }

  /** One side of t has just changed its height, and v_bal is still that of before. */
  ghost predicate Pending(t: Tree, right: bool, deleted: bool) {
    && t.Node? && Balanced(t.l) && Balanced(t.r) && -1 <= t.bal <= 1
    && t.bal == Height(t.r) - Height(t.l) - (if right then Delta(deleted) else -Delta(deleted))
  }

  /** The height t had before. */
  ghost function OldHeight(t: Tree, right: bool, deleted: bool): int
    requires t.Node?
  {
    if right then 1 + Max(Height(t.r) - Delta(deleted), Height(t.l))
    else 1 + Max(Height(t.l) - Delta(deleted), Height(t.r))
  }

  /** A subtree that an insertion has made higher: the new node itself, or one that has become uneven. */
  ghost predicate Grown(t: Tree) {
    t.Node? && ((t.l.Leaf? && t.r.Leaf?) || t.bal != 0)
  }

  lemma PendingFixable(t: Tree, right: bool, deleted: bool)
    requires Pending(t, right, deleted)
    ensures Fixable(t, right != deleted)
  {
  }

  /** The rotations, by the height of what they leave. */
  lemma RightRotated(t: Tree)
    requires t.Node? && Balanced(t.l) && Balanced(t.r) && t.bal == 1 && Height(t.r) == Height(t.l) + 2
    ensures Fixable(t, true) && RightHeavy(t).Node? && Balanced(RightHeavy(t))
    ensures if t.r.bal == 0 then Height(RightHeavy(t)) == Height(t.l) + 3 && RightHeavy(t).bal == -1
            else Height(RightHeavy(t)) == Height(t.l) + 2 && RightHeavy(t).bal == 0
  {
    var u := RightHeavy(t);
    if t.r.bal == -1 {
      assert Balanced(t.r.l) && Balanced(u.l) && Balanced(u.r);
    } else {
      assert Balanced(u.l) && Balanced(u.r);
    }
  }

  lemma LeftRotated(t: Tree)
    requires t.Node? && Balanced(t.l) && Balanced(t.r) && t.bal == -1 && Height(t.l) == Height(t.r) + 2
    ensures Fixable(t, false) && LeftHeavy(t).Node? && Balanced(LeftHeavy(t))
    ensures if t.l.bal == 0 then Height(LeftHeavy(t)) == Height(t.r) + 3 && LeftHeavy(t).bal == 1
            else Height(LeftHeavy(t)) == Height(t.r) + 2 && LeftHeavy(t).bal == 0
  {
    var u := LeftHeavy(t);
    if t.l.bal == 1 {
      assert Balanced(t.l.r) && Balanced(u.l) && Balanced(u.r);
    } else {
      assert Balanced(u.l) && Balanced(u.r);
    }
  }

  /** A turn of balance leaves a balanced subtree, of the height it had before or changed by as much as
      its side; and which of the two, its balance factor tells: after an insertion the height is the old
      one just when the factor is 0, after a deletion just when it is not.  So the loop may stop there. */
  lemma FixBalances(t: Tree, right: bool, deleted: bool)
    requires Pending(t, right, deleted)
    requires !deleted ==> Grown(if right then t.r else t.l)
    ensures Fixable(t, right != deleted)
    ensures var u := Fix(t, right, deleted);
            && u.Node? && Balanced(u)
            && ((u.bal == 0) != deleted <==> Height(u) == OldHeight(t, right, deleted))
            && (!((u.bal == 0) != deleted) <==> Height(u) == OldHeight(t, right, deleted) + Delta(deleted))
            && (!deleted && u.bal != 0 ==> Grown(u))
  {
    PendingFixable(t, right, deleted);
    if right != deleted && t.bal == 1 {
      RightRotated(t);
    } else if right == deleted && t.bal == -1 {
      LeftRotated(t);
    }
  }

  /** Rebalancing changes no entry, and neither makes nor loses a node. */
  lemma FixKeeps(t: Tree, right: bool, deleted: bool)
    requires Fixable(t, right != deleted) && Separate(t)
    ensures var u := Fix(t, right, deleted);
            Entries(u) == Entries(t) && Refs(u) == Refs(t) && Separate(u)
  {
    var heavyRight := right != deleted;
    if heavyRight && t.bal == 1 {
      if t.r.bal == -1 {
        RotateRightKeeps(t.r);
        RotateLeftKeeps(t.(r := RotateRight(t.r)));
      } else {
        RotateLeftKeeps(t);
      }
    } else if !heavyRight && t.bal == -1 {
      if t.l.bal == 1 {
        RotateLeftKeeps(t.l);
        RotateRightKeeps(t.(l := RotateLeft(t.l)));
      } else {
        RotateRightKeeps(t);
      }
    }
  }

  lemma RotateLeftKeeps(t: Tree)
    requires t.Node? && t.r.Node? && Separate(t)
    ensures Entries(RotateLeft(t)) == Entries(t) && Refs(RotateLeft(t)) == Refs(t) && Separate(RotateLeft(t))
  {
    Regrouped(Entries(t.l) + [t.entry], Entries(t.r.l), [t.r.entry], Entries(t.r.r));
  }

  lemma RotateRightKeeps(t: Tree)
    requires t.Node? && t.l.Node? && Separate(t)
    ensures Entries(RotateRight(t)) == Entries(t) && Refs(RotateRight(t)) == Refs(t) && Separate(RotateRight(t))
  {
    Regrouped(Entries(t.l.l) + [t.l.entry], Entries(t.l.r), [t.entry], Entries(t.r));
  }
}
