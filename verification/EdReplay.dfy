/** What undo means for a whole history: replaying the stack gives the saved list back, replaying
    twice gives back everything, and every node has exactly one owner. */
module EdReplay {
  import opened EdLinks
  import opened EdHistory
  import opened Sequences

  // ---- the stack and its log, entry by entry ----

  /** Tags after the loop, one step. */
  ghost function Flipped(head: Line, st: Step): seq<Undo> {
    var es := Encode(head, st);
    if st.Mov? then [FlipEntry(es[0]), es[1]] else [FlipEntry(es[0])]
  }

  /** How high the stack is under step k. */
  ghost function Height(log: seq<Step>, k: nat): nat
    requires k <= |log|
  {
    if k == 0 then 0 else Height(log, k - 1) + if log[k - 1].Mov? then 2 else 1
  }

  lemma {:induction false} HeightOk(head: Line, log: seq<Step>, k: nat)
    requires k <= |log|
    ensures |EncodeUpTo(head, log, k)| == Height(log, k)
  {
    if k > 0 {
      HeightOk(head, log, k - 1);
    }
  }

  /** stk holds the entries of the first k steps of the log at their heights. */
  ghost predicate Holds(stk: seq<Undo>, head: Line, log: seq<Step>, k: nat)
    requires k <= |log|
  {
    && Height(log, k) <= |stk|
    && (k > 0 ==>
      && stk[Height(log, k - 1)..Height(log, k)] == Encode(head, log[k - 1])
      && Holds(stk, head, log, k - 1))
  }

  lemma {:induction false} HoldsOwn(head: Line, log: seq<Step>, k: nat, rest: seq<Undo>)
    requires k <= |log|
    ensures Holds(EncodeUpTo(head, log, k) + rest, head, log, k)
  {
    hide Encode;
    HeightOk(head, log, k);
    if k > 0 {
      HeightOk(head, log, k - 1);
      var below, es := EncodeUpTo(head, log, k - 1), Encode(head, log[k - 1]);
      HoldsOwn(head, log, k - 1, es + rest);
      assert below + (es + rest) == (below + es) + rest;
      assert ((below + es) + rest)[|below|..|below + es|] == es;
    }
  }

  /** The topmost entries of the stack under height k, and what the three walks make of them. */
  lemma Top(stk: seq<Undo>, head: Line, log: seq<Step>, k: nat)
    requires 0 < k <= |log| && StepsOk(head, log) && Holds(stk, head, log, k)
    requires Paired(stk, Height(log, k - 1))
    ensures Paired(stk, Height(log, k))
    ensures forall l :: Replay(l, stk, Height(log, k)) == Replay(UndoOne(l, head, log[k - 1]), stk, Height(log, k - 1))
    ensures FlipTags(stk, Height(log, k)) == FlipTags(stk, Height(log, k - 1)) + Flipped(head, log[k - 1])
  {
    var n, es := Height(log, k), Encode(head, log[k - 1]);
    assert stk[n - 1] == es[|es| - 1];
    if log[k - 1].Mov? {
      assert stk[n - 2] == es[0];
    }
  }

  lemma {:induction false} HoldsPaired(stk: seq<Undo>, head: Line, log: seq<Step>, k: nat)
    requires k <= |log| && StepsOk(head, log) && Holds(stk, head, log, k)
    ensures Paired(stk, Height(log, k))
  {
    if k > 0 {
      HoldsPaired(stk, head, log, k - 1);
      Top(stk, head, log, k);
    }
  }

  /** A stack left by a log is one the undo loop can walk. */
  lemma Walkable(head: Line, log: seq<Step>)
    requires StepsOk(head, log)
    ensures var stk := EncodeAll(head, log);
            Holds(stk, head, log, |log|) && |stk| == Height(log, |log|) && Paired(stk, |stk|)
  {
    var stk := EncodeAll(head, log);
    HoldsOwn(head, log, |log|, []);
    assert stk + [] == stk;
    HeightOk(head, log, |log|);
    HoldsPaired(stk, head, log, |log|);
  }

  // ---- undo restores the saved list ----

  lemma {:induction false} ReplayFrom(l: Links, stk: seq<Undo>, head: Line, log: seq<Step>, live: seq<Line>, k: nat)
    requires k <= |log| && History(head, log, live)
    requires Holds(stk, head, log, k) && Paired(stk, Height(log, k))
    requires Ring(l, head, At(log, live, k)) && DeadAt(l, head, log, k)
    ensures var l' := Replay(l, stk, Height(log, k));
            Ring(l', head, At(log, live, 0)) && DeadAt(l', head, log, 0) && SameNodes(l, l')
    decreases k
  {
    if k > 0 {
      HoldsPaired(stk, head, log, k - 1);
      Top(stk, head, log, k);
      var l1 := UndoStep(l, head, log, live, k);
      ReplayFrom(l1, stk, head, log, live, k - 1);
    }
  }

  /** Whatever was done since the stack was cleared, walking the stack gives the saved list back,
      and leaves links, inverted log and list in agreement again. */
  lemma ReplayRestores(l: Links, head: Line, log: seq<Step>, live: seq<Line>)
    requires Coherent(l, head, log, live)
    ensures Coherent(UndoLinks(l, EncodeAll(head, log)), head, InvertAll(log), At(log, live, 0))
    ensures SameNodes(l, UndoLinks(l, EncodeAll(head, log)))
  {
    var stk := EncodeAll(head, log);
    Walkable(head, log);
    ReplayFrom(l, stk, head, log, live, |log|);
    InvertHistory(head, log, live);
    InvertDead(Replay(l, stk, |stk|), head, log);
  }

  lemma InvertDead(l: Links, head: Line, log: seq<Step>)
    requires DeadAt(l, head, log, 0)
    ensures DeadAt(l, head, InvertAll(log), |log|)
  {
    var inv := InvertAll(log);
    forall i | 0 <= i < |inv| && inv[i].Del?
      ensures Detached(l, Pred(head, inv[i].pre), inv[i].seg, Succ(head, inv[i].post))
    {
      var st := log[|log| - 1 - i];
      assert inv[i] == Invert(st);
    }
  }

  // ---- the inverted history ----

  lemma InvertStep(head: Line, st: Step)
    requires StepOk(head, st)
    ensures StepOk(head, Invert(st))
    ensures Before(Invert(st)) == After(st) && After(Invert(st)) == Before(st)
    ensures Added(Invert(st)) == Removed(st) && Removed(Invert(st)) == Added(st)
  {
    if st.Mov? {
      DistinctCut4(head, st.pre, st.a, st.b, st.post);
    }
  }

  lemma InvertAt(head: Line, log: seq<Step>, live: seq<Line>, i: nat)
    requires i <= |log| && StepsOk(head, log) && Chained(log, live)
    ensures At(InvertAll(log), At(log, live, 0), i) == At(log, live, |log| - i)
  {
    if i < |log| {
      InvertStep(head, log[|log| - 1 - i]);
      assert After(log[|log| - 1 - i]) == At(log, live, |log| - i);
    }
  }

  /** Read backwards, a history is a history: of the way back to where it came from. */
  lemma {:induction false} InvertHistory(head: Line, log: seq<Step>, live: seq<Line>)
    requires History(head, log, live)
    ensures History(head, InvertAll(log), At(log, live, 0))
    ensures At(InvertAll(log), At(log, live, 0), 0) == live
  {
    var inv, first, n := InvertAll(log), At(log, live, 0), |log|;
    hide Before, After, Added, Removed, Disjoint;
    forall i | 0 <= i < n ensures StepOk(head, inv[i]) && After(inv[i]) == At(inv, first, i + 1) {
      InvertStep(head, log[n - 1 - i]);
      InvertAt(head, log, live, i + 1);
    }
    InvertAt(head, log, live, 0);
    forall i, j | 0 <= i < n && 0 <= j <= n
      ensures i < j ==> Disjoint(Removed(inv[i]), At(inv, first, j))
      ensures j <= i ==> Disjoint(Added(inv[i]), At(inv, first, j))
    {
      InvertLife(head, log, live, i, j);
    }
  }

  lemma {:induction false} InvertLife(head: Line, log: seq<Step>, live: seq<Line>, i: nat, j: nat)
    requires History(head, log, live) && i < |log| && j <= |log|
    ensures var inv, first := InvertAll(log), At(log, live, 0);
            && (i < j ==> Disjoint(Removed(inv[i]), At(inv, first, j)))
            && (j <= i ==> Disjoint(Added(inv[i]), At(inv, first, j)))
  {
    hide Before, After, Added, Removed, Disjoint;
    var n := |log|;
    InvertStep(head, log[n - 1 - i]);
    InvertAt(head, log, live, j);
    assert At(log, live, n - j) == At(InvertAll(log), At(log, live, 0), j);
  }

  // ---- the stack of the inverted history ----

  lemma ReverseConcat<T>(a: seq<T>, b: seq<T>)
    ensures Reverse(a + b) == Reverse(b) + Reverse(a)
  {
    if a == [] {
      assert a + b == b;
    } else {
      assert (a + b)[1..] == a[1..] + b;
      ReverseConcat(a[1..], b);
    }
  }

  lemma ReverseLength<T>(s: seq<T>)
    ensures |Reverse(s)| == |s|
  {
  }

  lemma {:induction false} ReverseAt<T>(s: seq<T>, i: nat)
    requires i < |s|
    ensures |Reverse(s)| == |s| && Reverse(s)[i] == s[|s| - 1 - i]
  {
    ReverseLength(s[1..]);
    if i < |s| - 1 {
      ReverseAt(s[1..], i);
    }
  }

  lemma EncodeInverse(head: Line, st: Step)
    requires StepOk(head, st)
    ensures StepOk(head, Invert(st)) && Encode(head, Invert(st)) == Reverse(Flipped(head, st))
  {
    InvertStep(head, st);
    var es := Flipped(head, st);
    if st.Mov? {
      assert es == [es[0]] + [es[1]];
      ReverseConcat([es[0]], [es[1]]);
    }
  }

  lemma TurnTop(stk: seq<Undo>, head: Line, log: seq<Step>, k: nat)
    requires 0 < k <= |log| && StepsOk(head, log)
    requires Holds(stk, head, log, k) && Paired(stk, Height(log, k - 1))
    ensures Paired(stk, Height(log, k))
    ensures Reverse(FlipTags(stk, Height(log, k)))
         == Encode(head, Invert(log[k - 1])) + Reverse(FlipTags(stk, Height(log, k - 1)))
  {
    Top(stk, head, log, k);
    ReverseConcat(FlipTags(stk, Height(log, k - 1)), Flipped(head, log[k - 1]));
    EncodeInverse(head, log[k - 1]);
  }

  lemma TurnedStep(stk: seq<Undo>, head: Line, log: seq<Step>, inv: seq<Step>, k: nat, i: nat)
    requires i + k == |log| && k > 0 && StepsOk(head, log) && Inverts(inv, log)
    requires Holds(stk, head, log, k) && Paired(stk, Height(log, k - 1))
    ensures Paired(stk, Height(log, k))
    ensures EncodeUpTo(head, inv, i) + Reverse(FlipTags(stk, Height(log, k)))
         == EncodeUpTo(head, inv, i + 1) + Reverse(FlipTags(stk, Height(log, k - 1)))
  {
    TurnTop(stk, head, log, k);
    assert inv[i] == Invert(log[k - 1]);
    Associate(EncodeUpTo(head, inv, i), Encode(head, inv[i]), Reverse(FlipTags(stk, Height(log, k - 1))));
  }

  lemma {:induction false} TurnedFrom(stk: seq<Undo>, head: Line, log: seq<Step>, inv: seq<Step>, k: nat, i: nat)
    requires i + k == |log| && StepsOk(head, log) && Inverts(inv, log)
    requires Holds(stk, head, log, k) && Paired(stk, Height(log, k))
    ensures EncodeUpTo(head, inv, i) + Reverse(FlipTags(stk, Height(log, k))) == EncodeUpTo(head, inv, |inv|)
    decreases k
  {
    if k == 0 {
      assert Reverse(FlipTags(stk, 0)) == [];
    } else {
      HoldsPaired(stk, head, log, k - 1);
      TurnedStep(stk, head, log, inv, k, i);
      TurnedFrom(stk, head, log, inv, k - 1, i + 1);
    }
  }

  /** Flipping the tags in place and then reversing the array turns the undo stack into the stack
      of the inverted history: the redo stack. */
  lemma RedoStack(head: Line, log: seq<Step>)
    requires StepsOk(head, log)
    ensures TurnRound(EncodeAll(head, log)) == EncodeAll(head, InvertAll(log))
  {
    var stk := EncodeAll(head, log);
    Walkable(head, log);
    TurnedFrom(stk, head, log, InvertAll(log), |log|, 0);
    assert EncodeUpTo(head, InvertAll(log), 0) == [];
  }
}
