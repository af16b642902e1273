/** Who owns which line node: every node the editor has allocated is in the list or in exactly one
    detached segment, whichever way the history is read; and how a history grows. */
module EdOwners {
  import opened EdLinks
  import opened EdHistory
  import opened EdReplay

  /** The nodes of the detached segments, which clear_undo_stack will free. */
  ghost function Dead(log: seq<Step>, k: nat): set<Line>
    requires k <= |log|
  {
    if k == 0 then {} else Dead(log, k - 1) + Elems(Removed(log[k - 1]))
  }

  /** The nodes that the first k steps brought in. */
  ghost function Born(log: seq<Step>, k: nat): set<Line>
    requires k <= |log|
  {
    if k == 0 then {} else Born(log, k - 1) + Elems(Added(log[k - 1]))
  }

  /** One step neither makes nor loses a node, except by adding and removing. */
  lemma StepBalance(st: Step)
    ensures Elems(Before(st)) + Elems(Added(st)) == Elems(After(st)) + Elems(Removed(st))
  {
    match st
    case Add(pre, seg, post) =>
      assert pre + seg + post == pre + (seg + post);
    case Del(pre, seg, post) =>
      assert pre + seg + post == pre + (seg + post);
    case Mov(pre, a, b, post, _, _, _) =>
      assert pre + a + b + post == pre + (a + (b + post));
      assert pre + b + a + post == pre + (b + (a + post));
  }

  /** What was there at first and what came in is what is there and what went out. */
  lemma {:induction false} Balance(log: seq<Step>, live: seq<Line>, k: nat)
    requires k <= |log| && Chained(log, live)
    ensures Elems(At(log, live, 0)) + Born(log, k) == Elems(At(log, live, k)) + Dead(log, k)
  {
    if k > 0 {
      hide After, Before, Added, Removed, Elems;
      Balance(log, live, k - 1);
      StepBalance(log[k - 1]);
      assert After(log[k - 1]) == At(log, live, k);
      Carry(Elems(At(log, live, 0)), Born(log, k - 1), Elems(At(log, live, k - 1)), Dead(log, k - 1),
            Elems(Added(log[k - 1])), Elems(Removed(log[k - 1])), Elems(At(log, live, k)));
    }
  }

  lemma Carry(first: set<Line>, born: set<Line>, before: set<Line>, dead: set<Line>, added: set<Line>,
              removed: set<Line>, after: set<Line>)
    requires first + born == before + dead && before + added == after + removed
    ensures first + (born + added) == after + (dead + removed)
  {
    assert forall x :: x in first + (born + added) <==> x in (first + born) + added;
    assert forall x :: x in after + (dead + removed) <==> x in (after + removed) + dead;
  }

  lemma {:induction false} DeadMember(log: seq<Step>, k: nat, x: Line)
    requires k <= |log|
    ensures x in Dead(log, k) <==> exists i :: 0 <= i < k && x in Removed(log[i])
  {
    if k > 0 {
      DeadMember(log, k - 1, x);
    }
  }

  lemma {:induction false} BornMember(log: seq<Step>, k: nat, x: Line)
    requires k <= |log|
    ensures x in Born(log, k) <==> exists i :: 0 <= i < k && x in Added(log[i])
  {
    if k > 0 {
      BornMember(log, k - 1, x);
    }
  }

  /** The nodes detached on the way back are those that came in on the way here. */
  lemma DeadOfInverse(log: seq<Step>, inv: seq<Step>)
    requires Inverts(inv, log)
    ensures Dead(inv, |log|) == Born(log, |log|)
  {
    var n := |log|;
    forall x | x in Dead(inv, n) ensures x in Born(log, n) {
      DeadMember(inv, n, x);
      var i :| 0 <= i < n && x in Removed(inv[i]);
      var j := n - 1 - i;
      assert inv[i] == Invert(log[j]);
      BornMember(log, n, x);
    }
    forall x | x in Born(log, n) ensures x in Dead(inv, n) {
      BornMember(log, n, x);
      var i :| 0 <= i < n && x in Added(log[i]);
      var j := n - 1 - i;
      assert inv[j] == Invert(log[i]);
      DeadMember(inv, n, x);
    }
  }

  /** Undo changes which nodes are live and which are detached, but not the nodes there are. */
  lemma UndoKeepsNodes(head: Line, log: seq<Step>, live: seq<Line>)
    requires History(head, log, live)
    ensures Elems(live) + Dead(log, |log|)
         == Elems(At(log, live, 0)) + Dead(InvertAll(log), |log|)
  {
    Balance(log, live, |log|);
    DeadOfInverse(log, InvertAll(log));
  }

  /** No node is detached twice, and none is detached and in the list. */
  lemma OneOwner(head: Line, log: seq<Step>, live: seq<Line>, i: nat, x: Line)
    requires History(head, log, live)
    requires i < |log| && x in Removed(log[i])
    ensures x != head && x !in live && x in Dead(log, |log|)
    ensures forall j :: 0 <= j < |log| && j != i ==> x !in Removed(log[j])
  {
    DeadMember(log, |log|, x);
    assert At(log, live, |log|) == live;
    var pre, seg, post := log[i].pre, log[i].seg, log[i].post;
    assert StepOk(head, log[i]);
    assert pre + seg + [] + post == pre + seg + post;
    DistinctCut4(head, pre, seg, [], post);
    forall j | 0 <= j < |log| && j != i ensures x !in Removed(log[j]) {
      assert forall y :: y in Removed(log[j]) ==> y in At(log, live, j);
      assert forall y :: y in Removed(log[i]) ==> y in At(log, live, i);
    }
  }

  /** All entries of a stack point at nodes of the editor. */
  ghost predicate StackIn(stk: seq<Undo>, nodes: set<Line>) {
    forall i :: 0 <= i < |stk| ==> stk[i].h in nodes && stk[i].t in nodes
  }

  /** The list has always been made of the nodes there are. */
  lemma AtIn(log: seq<Step>, live: seq<Line>, k: nat)
    requires k <= |log| && Chained(log, live)
    ensures Elems(At(log, live, k)) <= Elems(live) + Dead(log, |log|)
  {
    Balance(log, live, k);
    Balance(log, live, |log|);
    BornGrows(log, k, |log|);
  }

  lemma {:induction false} BornGrows(log: seq<Step>, j: nat, k: nat)
    requires j <= k <= |log|
    ensures Born(log, j) <= Born(log, k)
  {
    if j < k {
      BornGrows(log, j, k - 1);
    }
  }

  lemma {:induction false} EncodedUpToIn(head: Line, log: seq<Step>, live: seq<Line>, k: nat, nodes: set<Line>)
    requires k <= |log| && History(head, log, live)
    requires nodes == {head} + Elems(live) + Dead(log, |log|)
    ensures StackIn(EncodeUpTo(head, log, k), nodes)
  {
    if k > 0 {
      EncodedUpToIn(head, log, live, k - 1, nodes);
      assert StepOk(head, log[k - 1]);
      EncodedTopIn(head, log, live, k, nodes);
      StackInConcat(EncodeUpTo(head, log, k - 1), Encode(head, log[k - 1]), nodes);
    }
  }

  /** All pointers on the stack of a history are to nodes that have not been freed. */
  lemma EncodedIn(head: Line, log: seq<Step>, live: seq<Line>, nodes: set<Line>)
    requires History(head, log, live)
    requires nodes == {head} + Elems(live) + Dead(log, |log|)
    ensures StackIn(EncodeAll(head, log), nodes)
  {
    EncodedUpToIn(head, log, live, |log|, nodes);
  }

  lemma StackInConcat(a: seq<Undo>, b: seq<Undo>, nodes: set<Line>)
    requires StackIn(a, nodes) && StackIn(b, nodes)
    ensures StackIn(a + b, nodes)
  {
  }

  lemma BeforeIn(log: seq<Step>, live: seq<Line>, i: nat, nodes: set<Line>)
    requires i < |log| && Chained(log, live) && Elems(live) + Dead(log, |log|) <= nodes
    ensures Elems(Before(log[i])) <= nodes
  {
    AtIn(log, live, i);
    assert At(log, live, i) == Before(log[i]);
  }

  lemma AfterIn(log: seq<Step>, live: seq<Line>, i: nat, nodes: set<Line>)
    requires i < |log| && Chained(log, live) && Elems(live) + Dead(log, |log|) <= nodes
    ensures Elems(After(log[i])) <= nodes
  {
    hide After, Before, Elems, Dead;
    AtIn(log, live, i + 1);
    assert After(log[i]) == At(log, live, i + 1);
  }

  lemma EncodedTopIn(head: Line, log: seq<Step>, live: seq<Line>, k: nat, nodes: set<Line>)
    requires 0 < k <= |log| && Chained(log, live) && Shaped(log[k - 1])
    requires nodes == {head} + Elems(live) + Dead(log, |log|)
    ensures StackIn(Encode(head, log[k - 1]), nodes)
  {
    BeforeIn(log, live, k - 1, nodes);
    AfterIn(log, live, k - 1, nodes);
    EncodedStepIn(head, log[k - 1], nodes);
  }

  lemma PiecesIn(a: seq<Line>, b: seq<Line>, nodes: set<Line>)
    requires Elems(a + b) <= nodes
    ensures Elems(a) <= nodes && Elems(b) <= nodes
  {
    ElemsConcat(a, b);
  }

  lemma EndsIn(head: Line, s: seq<Line>, nodes: set<Line>)
    requires head in nodes && Elems(s) <= nodes
    ensures Pred(head, s) in nodes && Succ(head, s) in nodes
  {
    if s != [] {
      assert s[0] in Elems(s) && Last(s) in Elems(s);
    }
  }

  lemma EncodedStepIn(head: Line, st: Step, nodes: set<Line>)
    requires head in nodes && Elems(Before(st)) <= nodes && Elems(After(st)) <= nodes && Shaped(st)
    ensures StackIn(Encode(head, st), nodes)
  {
    if st.Mov? {
      PiecesIn(st.pre + st.a + st.b, st.post, nodes);
      PiecesIn(st.pre + st.a, st.b, nodes);
      PiecesIn(st.pre, st.a, nodes);
      EndsIn(head, st.pre, nodes);
      EndsIn(head, st.a, nodes);
      EndsIn(head, st.b, nodes);
      EndsIn(head, st.post, nodes);
    } else {
      PiecesIn(st.pre + st.seg, st.post, nodes);
      PiecesIn(st.pre, st.seg, nodes);
      EndsIn(head, st.seg, nodes);
    }
  }

  /** The links of a coherent buffer are determined by its log and its list. */
  lemma LinksDetermined(l: Links, m: Links, head: Line, log: seq<Step>, live: seq<Line>)
    requires Ring(l, head, live) && DeadAt(l, head, log, |log|)
    requires Ring(m, head, live) && DeadAt(m, head, log, |log|)
    requires Covers(l, {head} + Elems(live) + Dead(log, |log|)) && Covers(m, {head} + Elems(live) + Dead(log, |log|))
    ensures l == m
  {
    forall x | x in l.forw ensures l.forw[x] == m.forw[x] && l.back[x] == m.back[x] {
      if x in [head] + live {
        RingDetermines(l, m, head, live, x);
      } else {
        DeadMember(log, |log|, x);
        var i :| 0 <= i < |log| && x in Removed(log[i]);
        DetachedDetermines(l, m, Pred(head, log[i].pre), log[i].seg, Succ(head, log[i].post), x);
      }
    }
    assert l.forw == m.forw && l.back == m.back;
  }

  lemma RingDetermines(l: Links, m: Links, head: Line, live: seq<Line>, x: Line)
    requires Ring(l, head, live) && Ring(m, head, live) && x in [head] + live
    ensures x in l.forw && x in m.forw && l.forw[x] == m.forw[x]
    ensures x in l.back && x in m.back && l.back[x] == m.back[x]
  {
    var c := [head] + live + [head];
    var i :| 0 <= i < |live| + 1 && ([head] + live)[i] == x;
    assert c[i] == x;
    assert Linked(l, c[i], c[i + 1]) && Linked(m, c[i], c[i + 1]);
    var k := if i == 0 then |live| + 1 else i;
    assert c[k] == x;
    assert Linked(l, c[k - 1], c[k]) && Linked(m, c[k - 1], c[k]);
  }

  lemma DetachedDetermines(l: Links, m: Links, p: Line, seg: seq<Line>, n: Line, x: Line)
    requires Detached(l, p, seg, n) && Detached(m, p, seg, n) && x in seg
    ensures x in l.forw && x in m.forw && l.forw[x] == m.forw[x]
    ensures x in l.back && x in m.back && l.back[x] == m.back[x]
  {
    var i :| 0 <= i < |seg| && seg[i] == x;
    if i + 1 < |seg| {
      assert Linked(l, seg[i], seg[i + 1]) && Linked(m, seg[i], seg[i + 1]);
    }
    if i > 0 {
      assert Linked(l, seg[i - 1], seg[i]) && Linked(m, seg[i - 1], seg[i]);
    }
  }

  // ---- undo is its own inverse ----

  /** A move whose pair has both tags flipped; undo treats UMOV and VMOV alike. */
  ghost function Retag(st: Step): Step {
    if st.Mov? then st.(lo := Flip(st.lo), hi := Flip(st.hi)) else st
  }

  ghost function RetagAll(log: seq<Step>): seq<Step> {
    seq(|log|, i requires 0 <= i < |log| => Retag(log[i]))
  }

  /** Two undos give the log back, with both tags of every move flipped. */
  lemma InvertTwice(log: seq<Step>)
    ensures InvertAll(InvertAll(log)) == RetagAll(log)
  {
    var inv := InvertAll(log);
    forall i | 0 <= i < |log| ensures InvertAll(inv)[i] == RetagAll(log)[i] {
      assert inv[|log| - 1 - i] == Invert(log[i]);
      assert InvertAll(inv)[i] == Invert(inv[|log| - 1 - i]);
    }
  }

  lemma RetagTwice(log: seq<Step>)
    ensures RetagAll(RetagAll(log)) == log
  {
  }

  /** One undo: links, list, log and stack agree again, over the same nodes. */
  lemma UndoAgrees(l: Links, head: Line, log: seq<Step>, live: seq<Line>, nodes: set<Line>)
    requires Coherent(l, head, log, live) && Covers(l, nodes)
    requires nodes == {head} + Elems(live) + Dead(log, |log|)
    ensures var first, inv := At(log, live, 0), InvertAll(log);
            && Coherent(UndoLinks(l, EncodeAll(head, log)), head, inv, first)
            && Covers(UndoLinks(l, EncodeAll(head, log)), nodes)
            && nodes == {head} + Elems(first) + Dead(inv, |inv|)
            && TurnRound(EncodeAll(head, log)) == EncodeAll(head, inv)
  {
    var stk := EncodeAll(head, log);
    ReplayRestores(l, head, log, live);
    RedoStack(head, log);
    UndoKeepsNodes(head, log, live);
  }

  /** Stacks that differ only in which of UMOV and VMOV an entry has. */
  ghost predicate Alike(s: seq<Undo>, t: seq<Undo>) {
    && |s| == |t|
    && forall i :: 0 <= i < |s| ==>
         && s[i].h == t[i].h && s[i].t == t[i].t
         && (s[i].kind == UADD <==> t[i].kind == UADD) && (s[i].kind == UDEL <==> t[i].kind == UDEL)
  }

  /** Such stacks undo alike. */
  lemma {:induction false} AlikeReplay(l: Links, s: seq<Undo>, t: seq<Undo>, n: nat)
    requires Alike(s, t) && n <= |s|
    ensures Paired(s, n) <==> Paired(t, n)
    ensures Paired(s, n) ==> Replay(l, s, n) == Replay(l, t, n)
    decreases n
  {
    if n > 0 {
      var e := s[n - 1];
      if e.kind == UADD {
        AlikeReplay(UndoAdd(l, e), s, t, n - 1);
        assert UndoAdd(l, e) == UndoAdd(l, t[n - 1]);
      } else if e.kind == UDEL {
        AlikeReplay(UndoDel(l, e), s, t, n - 1);
        assert UndoDel(l, e) == UndoDel(l, t[n - 1]);
      } else if n >= 2 {
        AlikeReplay(UndoMov(l, s[n - 2], e), s, t, n - 2);
        assert UndoMov(l, s[n - 2], e) == UndoMov(l, t[n - 2], t[n - 1]);
      }
    }
  }

  lemma {:induction false} AlikeEncode(head: Line, log: seq<Step>, k: nat)
    requires k <= |log| && StepsOk(head, log)
    ensures Alike(EncodeUpTo(head, RetagAll(log), k), EncodeUpTo(head, log, k))
  {
    if k > 0 {
      AlikeEncode(head, log, k - 1);
      assert Alike(Encode(head, Retag(log[k - 1])), Encode(head, log[k - 1]));
      AlikeConcat(EncodeUpTo(head, RetagAll(log), k - 1), EncodeUpTo(head, log, k - 1),
                  Encode(head, Retag(log[k - 1])), Encode(head, log[k - 1]));
    }
  }

  lemma AlikeConcat(s: seq<Undo>, t: seq<Undo>, s': seq<Undo>, t': seq<Undo>)
    requires Alike(s, t) && Alike(s', t')
    ensures Alike(s + s', t + t')
  {
  }

  /** Undo is its own inverse: a second undo restores every pointer of every node, live or detached, and
      turns the stack into what it was, but for the tags of moves; and that stack undoes alike. */
  lemma UndoTwice(l: Links, head: Line, log: seq<Step>, live: seq<Line>, nodes: set<Line>)
    requires Coherent(l, head, log, live) && Covers(l, nodes)
    requires nodes == {head} + Elems(live) + Dead(log, |log|)
    ensures var stk := EncodeAll(head, log);
            && UndoLinks(UndoLinks(l, stk), TurnRound(stk)) == l
            && TurnRound(TurnRound(stk)) == EncodeAll(head, RetagAll(log))
            && forall k :: UndoLinks(k, TurnRound(TurnRound(stk))) == UndoLinks(k, stk)
  {
    var inv, first := InvertAll(log), At(log, live, 0);
    var l1 := UndoLinks(l, EncodeAll(head, log));
    UndoAgrees(l, head, log, live, nodes);
    UndoAgrees(l1, head, inv, first, nodes);
    InvertTwice(log);
    InvertHistory(head, log, live);
    var l2 := UndoLinks(l1, EncodeAll(head, inv));
    RetagDead(l2, head, log);
    LinksDetermined(l, l2, head, log, live);
    AlikeEncode(head, log, |log|);
    var stk, stk' := EncodeAll(head, log), EncodeAll(head, RetagAll(log));
    forall k ensures UndoLinks(k, stk') == UndoLinks(k, stk) {
      AlikeReplay(k, stk', stk, |stk|);
    }
  }

  /** Four undos in a row leave the very stack they found. */
  lemma UndoFourTimes(l: Links, head: Line, log: seq<Step>, live: seq<Line>, nodes: set<Line>)
    requires Coherent(l, head, log, live) && Covers(l, nodes)
    requires nodes == {head} + Elems(live) + Dead(log, |log|)
    ensures TurnRound(TurnRound(TurnRound(TurnRound(EncodeAll(head, log))))) == EncodeAll(head, log)
  {
    var inv, first := InvertAll(log), At(log, live, 0);
    var l1 := UndoLinks(l, EncodeAll(head, log));
    UndoAgrees(l, head, log, live, nodes);
    UndoAgrees(l1, head, inv, first, nodes);
    InvertTwice(log);
    InvertHistory(head, log, live);
    UndoTwice(UndoLinks(l1, EncodeAll(head, inv)), head, RetagAll(log), live, nodes);
    RetagTwice(log);
  }

  lemma RetagDead(l: Links, head: Line, log: seq<Step>)
    requires DeadAt(l, head, RetagAll(log), |log|)
    ensures DeadAt(l, head, log, |log|)
  {
    forall i | 0 <= i < |log| && log[i].Del?
      ensures Detached(l, Pred(head, log[i].pre), log[i].seg, Succ(head, log[i].post))
    {
      assert RetagAll(log)[i] == log[i];
    }
  }
}
