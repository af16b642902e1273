/** How each edit extends the history: the forward steps of the buffer. */
module EdGrowth {
  import opened EdLinks
  import opened EdHistory
  import opened EdOwners

  /** INSQUE: insert elem in circular queue after pred. */
  ghost function Insque(l: Links, elem: Line, pred: Line): Links {
    Reque(Reque(l, elem, Forw(l, pred)), pred, elem)
  }

  /** The three REQUE steps of move_lines. */
  ghost function MoveLinks(l: Links, b1: Line, a1: Line, b2: Line, a2: Line): Links {
    var l1 := Reque(l, b2, Forw(l, b1));
    var l2 := Reque(l1, Back(l1, a1), a2);
    Reque(l2, b1, a1)
  }

  /** A history and a step from its list make a history, if what the step adds is new. */
  lemma Extend(head: Line, log: seq<Step>, live: seq<Line>, st: Step)
    requires History(head, log, live) && StepOk(head, st) && Before(st) == live
    requires forall x :: x in Added(st) ==> x !in Elems(live) + Dead(log, |log|)
    ensures History(head, log + [st], After(st))
  {
    var log', live', n := log + [st], After(st), |log|;
    forall j | 0 <= j <= n ensures At(log', live', j) == At(log, live, j) {
    }
    forall i | 0 <= i <= n ensures After(log'[i]) == At(log', live', i + 1) {
      if i < n {
        assert After(log[i]) == At(log, live, i + 1);
      }
    }
    forall i, j | 0 <= i <= n && 0 <= j <= n + 1
      ensures i < j ==> Disjoint(Removed(log'[i]), At(log', live', j))
      ensures j <= i ==> Disjoint(Added(log'[i]), At(log', live', j))
    {
      if j == n + 1 {
        if i < n {
          OldRemovedStaysOut(head, log, live, st, i);
        } else {
          RemovedIsOut(head, st);
        }
      } else if i == n {
        AtIn(log, live, j);
      } else {
        assert i < j ==> Disjoint(Removed(log[i]), At(log, live, j));
        assert j <= i ==> Disjoint(Added(log[i]), At(log, live, j));
      }
    }
  }

  lemma RemovedIsOut(head: Line, st: Step)
    requires StepOk(head, st)
    ensures Disjoint(Removed(st), After(st))
  {
    if st.Del? {
      assert st.pre + st.seg + [] + st.post == st.pre + st.seg + st.post;
      DistinctCut4(head, st.pre, st.seg, [], st.post);
    }
  }

  lemma OldRemovedStaysOut(head: Line, log: seq<Step>, live: seq<Line>, st: Step, i: nat)
    requires History(head, log, live) && Before(st) == live && i < |log|
    requires forall x :: x in Added(st) ==> x !in Elems(live) + Dead(log, |log|)
    ensures Disjoint(Removed(log[i]), After(st))
  {
    StepBalance(st);
    forall x | x in Removed(log[i]) ensures x !in After(st) {
      OneOwner(head, log, live, i, x);
      assert x !in Elems(live) && x !in Elems(Added(st));
    }
  }

  /** Two additions side by side are one: the entry is stretched, and no second one is pushed. */
  lemma Merge(head: Line, log: seq<Step>, live: seq<Line>, pre: seq<Line>, seg: seq<Line>, more: seq<Line>,
              post: seq<Line>)
    requires seg != [] && more != []
    requires History(head, log + [Add(pre, seg, post), Add(pre + seg, more, post)], live)
    ensures History(head, log + [Add(pre, seg + more, post)], live)
    ensures live == pre + seg + more + post
  {
    var a, b := Add(pre, seg, post), Add(pre + seg, more, post);
    var two, one, n := log + [a, b], log + [Add(pre, seg + more, post)], |log|;
    assert two[n] == a && two[n + 1] == b;
    assert StepOk(head, two[n + 1]);
    assert After(two[n + 1]) == At(two, live, n + 2);
    assert pre + (seg + more) + post == pre + seg + more + post;
    forall i | 0 <= i <= n ensures StepOk(head, one[i]) && After(one[i]) == At(one, live, i + 1) {
      if i < n {
        assert two[i] == log[i] && After(two[i]) == At(two, live, i + 1);
      }
    }
    forall i, j | 0 <= i <= n && 0 <= j <= n + 1
      ensures i < j ==> Disjoint(Removed(one[i]), At(one, live, j))
      ensures j <= i ==> Disjoint(Added(one[i]), At(one, live, j))
    {
      var j' := if j == n + 1 then n + 2 else j;
      assert At(one, live, j) == At(two, live, j');
      assert i < n ==> one[i] == two[i];
      assert i < j' ==> Disjoint(Removed(two[i]), At(two, live, j'));
      assert j' <= i ==> Disjoint(Added(two[i]), At(two, live, j'));
      if i == n && j <= n {
        assert Disjoint(Added(two[n]), At(two, live, j)) && Disjoint(Added(two[n + 1]), At(two, live, j));
      }
    }
  }

  /** A change confined to the list leaves every detached segment alone. */
  lemma DeadKept(l: Links, l': Links, head: Line, log: seq<Step>, live: seq<Line>)
    requires History(head, log, live) && DeadAt(l, head, log, |log|)
    requires forall x :: x in Dead(log, |log|) ==> Same(l, l', x)
    ensures DeadAt(l', head, log, |log|)
  {
    forall i | 0 <= i < |log| && log[i].Del?
      ensures Detached(l', Pred(head, log[i].pre), log[i].seg, Succ(head, log[i].post))
    {
      forall x | x in log[i].seg ensures Same(l, l', x) {
        DeadMember(log, |log|, x);
        assert x in Removed(log[i]);
      }
      DetachedKept(l, l', Pred(head, log[i].pre), log[i].seg, Succ(head, log[i].post));
    }
  }

  lemma LiveIsNotDead(head: Line, log: seq<Step>, live: seq<Line>, x: Line)
    requires History(head, log, live) && x in Dead(log, |log|)
    ensures x != head && x !in live
  {
    DeadMember(log, |log|, x);
    var i :| 0 <= i < |log| && x in Removed(log[i]);
    OneOwner(head, log, live, i, x);
  }

  // ---- the three forward steps ----

  lemma {:induction false} DeadPrefix(log: seq<Step>, more: seq<Step>, k: nat)
    requires k <= |log|
    ensures Dead(log + more, k) == Dead(log, k)
  {
    if k > 0 {
      DeadPrefix(log, more, k - 1);
      assert (log + more)[k - 1] == log[k - 1];
    }
  }

  /** Which nodes are detached after one more step. */
  lemma DeadAppend(log: seq<Step>, st: Step)
    ensures Dead(log + [st], |log| + 1) == Dead(log, |log|) + Elems(Removed(st))
  {
    DeadPrefix(log, [st], |log|);
    assert (log + [st])[|log|] == st;
  }

  lemma {:induction false} EncodePrefix(head: Line, log: seq<Step>, more: seq<Step>, k: nat)
    requires k <= |log|
    ensures EncodeUpTo(head, log + more, k) == EncodeUpTo(head, log, k)
  {
    if k > 0 {
      EncodePrefix(head, log, more, k - 1);
      assert (log + more)[k - 1] == log[k - 1];
    }
  }

  /** The stack after one more step. */
  lemma EncodeAppend(head: Line, log: seq<Step>, st: Step)
    ensures EncodeAll(head, log + [st]) == EncodeAll(head, log) + Encode(head, st)
  {
    EncodePrefix(head, log, [st], |log|);
    assert (log + [st])[|log|] == st;
  }

  /** The detached segments after one more step. */
  lemma DeadAtAppend(l: Links, head: Line, log: seq<Step>, st: Step)
    requires DeadAt(l, head, log, |log|)
    requires st.Del? ==> Detached(l, Pred(head, st.pre), st.seg, Succ(head, st.post))
    ensures DeadAt(l, head, log + [st], |log| + 1)
  {
    var log' := log + [st];
    forall i | 0 <= i < |log'| && log'[i].Del?
      ensures Detached(l, Pred(head, log'[i].pre), log'[i].seg, Succ(head, log'[i].post))
    {
      assert i < |log| ==> log'[i] == log[i];
    }
  }

  lemma DelStep(l: Links, head: Line, log: seq<Step>, live: seq<Line>, pre: seq<Line>, seg: seq<Line>, post: seq<Line>)
    requires Coherent(l, head, log, live) && live == pre + seg + post && seg != []
    ensures Coherent(Reque(l, Pred(head, pre), Succ(head, post)), head, log + [Del(pre, seg, post)], pre + post)
  {
    var st, l' := Del(pre, seg, post), Reque(l, Pred(head, pre), Succ(head, post));
    CutOut(l, head, pre, seg, post);
    Extend(head, log, live, st);
    forall x | x in Dead(log, |log|) ensures Same(l, l', x) {
      LiveIsNotDead(head, log, live, x);
    }
    DeadKept(l, l', head, log, live);
    DeadAtAppend(l', head, log, st);
  }

  lemma Insert(l: Links, head: Line, pre: seq<Line>, x: Line, post: seq<Line>)
    requires Ring(l, head, pre + post) && x != head && x !in pre + post
    ensures Ring(Insque(l, x, Pred(head, pre)), head, pre + [x] + post)
    ensures Linked(l, Pred(head, pre), Succ(head, post))
  {
    var p, n := Pred(head, pre), Succ(head, post);
    var a, b := [head] + pre, post + [head];
    RingGap(l, head, pre, post);
    assert pre + [] + [] + post == pre + post;
    DistinctCut4(head, pre, [], [], post);
    var l1 := Reque(l, x, n);
    PathFrame(l, x, n, a);
    PathFrame(l, x, n, b);
    var l2 := Reque(l1, p, x);
    PathFrame(l1, p, x, a);
    PathFrame(l1, p, x, b);
    PathGlue3(l2, a, [x], b);
    assert [head] + (pre + [x] + post) + [head] == a + [x] + b;
    DistinctCut(post, [head]);
    assert forall z :: z in pre || z in post ==> z in pre + post;
    DistinctGlue([x], post);
    DistinctGlue(a, [x] + post);
    assert [head] + (pre + [x] + post) == a + ([x] + post);
  }

  lemma AddStep(l: Links, head: Line, log: seq<Step>, live: seq<Line>, pre: seq<Line>, x: Line, post: seq<Line>)
    requires Coherent(l, head, log, live) && live == pre + post
    requires x != head && x !in Elems(live) + Dead(log, |log|)
    ensures Coherent(Insque(l, x, Pred(head, pre)), head, log + [Add(pre, [x], post)], pre + [x] + post)
  {
    var st, l' := Add(pre, [x], post), Insque(l, x, Pred(head, pre));
    assert x !in pre + post;
    Insert(l, head, pre, x, post);
    Extend(head, log, live, st);
    forall y | y in Dead(log, |log|) ensures Same(l, l', y) {
      LiveIsNotDead(head, log, live, y);
      EndsOutside(head, pre, post, y);
    }
    DeadKept(l, l', head, log, live);
    DeadAtAppend(l', head, log, st);
  }

  lemma EndsOutside(head: Line, pre: seq<Line>, post: seq<Line>, y: Line)
    requires y != head && y !in pre + post
    ensures y != Pred(head, pre) && y != Succ(head, post)
  {
    assert forall z :: z in pre || z in post ==> z in pre + post;
  }

  /** move_lines down: block a goes after block b. */
  lemma MoveDown(l: Links, head: Line, pre: seq<Line>, a: seq<Line>, b: seq<Line>, post: seq<Line>)
    requires a != [] && b != [] && Ring(l, head, pre + a + b + post)
    ensures var l' := MoveLinks(l, Pred(head, pre), b[0], Last(b), Succ(head, post));
            Ring(l', head, pre + b + a + post) && l' == Exchanged(l, Pred(head, pre), a, b, Succ(head, post))
  {
    var p, n := Pred(head, pre), Succ(head, post);
    Exchange(l, head, pre, a, b, post);
    Gaps(l, head, pre, a, b, post);
    var e, m := Exchanged(l, p, a, b, n), MoveLinks(l, p, b[0], Last(b), n);
    assert m.forw == e.forw;
    assert m.back == e.back;
  }

  /** move_lines up: block b goes before block a. */
  lemma MoveUp(l: Links, head: Line, pre: seq<Line>, a: seq<Line>, b: seq<Line>, post: seq<Line>)
    requires a != [] && b != [] && Ring(l, head, pre + a + b + post)
    ensures var l' := MoveLinks(l, Last(a), Succ(head, post), Pred(head, pre), a[0]);
            Ring(l', head, pre + b + a + post) && l' == Exchanged(l, Pred(head, pre), a, b, Succ(head, post))
  {
    var p, n := Pred(head, pre), Succ(head, post);
    Exchange(l, head, pre, a, b, post);
    Gaps(l, head, pre, a, b, post);
    var e, m := Exchanged(l, p, a, b, n), MoveLinks(l, Last(a), n, p, a[0]);
    assert m.forw == e.forw;
    assert m.back == e.back;
  }

  lemma MovStep(l: Links, head: Line, log: seq<Step>, live: seq<Line>, pre: seq<Line>, a: seq<Line>, b: seq<Line>,
                post: seq<Line>, up: bool)
    requires Coherent(l, head, log, live) && live == pre + a + b + post && a != [] && b != []
    ensures Coherent(Exchanged(l, Pred(head, pre), a, b, Succ(head, post)), head,
                     log + [Mov(pre, a, b, post, up, UMOV, UMOV)], pre + b + a + post)
  {
    var p, n := Pred(head, pre), Succ(head, post);
    var st, l' := Mov(pre, a, b, post, up, UMOV, UMOV), Exchanged(l, p, a, b, n);
    Exchange(l, head, pre, a, b, post);
    Extend(head, log, live, st);
    forall y | y in Dead(log, |log|) ensures Same(l, l', y) {
      LiveIsNotDead(head, log, live, y);
      assert pre + a + b + post == pre + (a + b + post);
      EndsOutside(head, pre, a + b + post, y);
      EndsOutside(head, pre + a + b, post, y);
      assert Last(a) in a && Last(b) in b && a[0] in a && b[0] in b;
    }
    DeadKept(l, l', head, log, live);
    DeadAtAppend(l', head, log, st);
  }
}
