/** What each edit does to the parts of the buffer's invariant, over plain values. */
module EdEffects {
  import opened EdLinks
  import opened EdHistory
  import opened EdReplay
  import opened EdOwners
  import opened EdGrowth
  import opened EdTables
  import opened Sequences

  /** Where the text of a line lies in the scratch file: the seek and len of its node. */
  datatype Span = Span(seek: nat, len: nat)

  /** The n-th node of the circular list. */
  ghost function Nth(head: Line, live: seq<Line>, n: nat): Line
    requires n <= |live|
  {
    if n == 0 then head else live[n - 1]
  }

  /** In the circular list the n-th node is followed by the next one, and the last by head. */
  lemma RingNeighbours(l: Links, head: Line, live: seq<Line>, n: nat)
    requires Ring(l, head, live) && n <= |live|
    ensures Nth(head, live, n) in l.forw && Nth(head, live, n) in l.back
    ensures l.forw[Nth(head, live, n)] == Nth(head, live, IncMod(n, |live|))
    ensures n > 0 ==> l.back[Nth(head, live, n)] == Nth(head, live, n - 1)
    ensures n == 0 ==> l.back[head] == Nth(head, live, |live|)
  {
    var c := [head] + live + [head];
    assert Linked(l, c[n], c[n + 1]);
    if n > 0 {
      assert Linked(l, c[n - 1], c[n]);
    } else {
      assert Linked(l, c[|live|], c[|live| + 1]);
    }
  }

  // ---- the parts of the invariant, over plain values ----

  /** The cursor is on a node of the list, and knows which. */
  ghost predicate CursorOk(head: Line, live: seq<Line>, addrLast: nat, lp: Line, on: nat) {
    addrLast == |live| && on <= addrLast && lp == Nth(head, live, on)
  }

  /** x is an allocated node. */
  ghost predicate IsNode(l: Links, x: Line) {
    x in l.forw && x in l.back
  }

  /** x belongs to the list or to a detached segment. */
  ghost predicate HasOwner(head: Line, log: seq<Step>, live: seq<Line>, x: Line) {
    x == head || x in live || x in Dead(log, |log|)
  }

  /** The allocated nodes are head, those in the list and those in detached segments. */
  ghost predicate Accounted(l: Links, head: Line, log: seq<Step>, live: seq<Line>) {
    && l.forw.Keys == l.back.Keys
    && forall x {:trigger IsNode(l, x)} {:trigger HasOwner(head, log, live, x)} ::
         IsNode(l, x) <==> HasOwner(head, log, live, x)
  }

  lemma AccountedCovers(l: Links, head: Line, log: seq<Step>, live: seq<Line>)
    ensures Accounted(l, head, log, live) <==> Covers(l, {head} + Elems(live) + Dead(log, |log|))
  {
    var nodes := {head} + Elems(live) + Dead(log, |log|);
    assert forall x :: HasOwner(head, log, live, x) <==> x in nodes;
    if Accounted(l, head, log, live) {
      forall x ensures x in l.forw.Keys <==> x in nodes {
        assert IsNode(l, x) <==> HasOwner(head, log, live, x);
      }
    }
  }

  /** Links, list and history agree, and every allocated node has its owner. */
  ghost predicate Owned(l: Links, head: Line, log: seq<Step>, live: seq<Line>) {
    && Coherent(l, head, log, live)
    && Accounted(l, head, log, live)
    && NULL !in l.forw
  }

  lemma OwnedRing(l: Links, head: Line, log: seq<Step>, live: seq<Line>)
    requires Owned(l, head, log, live)
    ensures Ring(l, head, live)
  {
  }

  /** The saved addresses belong to the saved list; -1 means there is nothing to undo. */
  ghost predicate AddressesOk(currentAddr: nat, uCurrentAddr: int, uAddrLast: int, live: seq<Line>, saved: seq<Line>) {
    && currentAddr <= |live|
    && -1 <= uCurrentAddr && -1 <= uAddrLast
    && (uAddrLast >= 0 ==> uAddrLast == |saved| && uCurrentAddr <= uAddrLast)
  }

  ghost predicate Has(nodes: set<Line>, x: Line) {
    x in nodes
  }

  /** Every node but head has a text, and the text lies in the scratch file. */
  ghost predicate TextsIn(spans: map<Line, Span>, sfile: seq<char>, head: Line, nodes: set<Line>) {
    forall x {:trigger Has(nodes, x)} :: Has(nodes, x) && x != head ==>
      x in spans && spans[x].seek + spans[x].len <= |sfile|
  }

  /** No mark is on a freed node. */
  ghost predicate MarksIn(mark: seq<Line>, head: Line, nodes: set<Line>) {
    forall i :: 0 <= i < |mark| && mark[i] != NULL ==> mark[i] in nodes && mark[i] != head
  }

  /** In s, line a comes before line b. */
  ghost predicate Precedes(s: seq<Line>, a: Line, b: Line) {
    exists i, j :: 0 <= i < j < |s| && s[i] == a && s[j] == b
  }

  /** The lines of a are lines of s, in the order they have there. */
  ghost predicate Ordered(a: seq<Line>, s: seq<Line>) {
    && (forall i :: 0 <= i < |a| && a[i] != NULL ==> a[i] in s)
    && (forall i, j :: 0 <= i < j < |a| && a[i] != NULL && a[j] != NULL ==> Precedes(s, a[i], a[j]))
  }

  // ---- insertion ----

  lemma CountersAdded(head: Line, pre: seq<Line>, x: Line, post: seq<Line>, u: int, v: int, saved: seq<Line>)
    ensures CursorOk(head, pre + [x] + post, |pre + post| + 1, Nth(head, pre + post, |pre|), |pre|)
    ensures AddressesOk(|pre|, u, v, pre + post, saved) ==> AddressesOk(|pre| + 1, u, v, pre + [x] + post, saved)
  {
  }

  lemma TextAdded(spans: map<Line, Span>, sfile: seq<char>, head: Line, nodes: set<Line>, x: Line, span: Span)
    requires TextsIn(spans, sfile, head, nodes) && x != head && span.seek + span.len <= |sfile|
    ensures TextsIn(spans[x := span], sfile, head, nodes + {x})
  {
    forall y | Has(nodes + {x}, y) && y != head
      ensures y in spans[x := span] && spans[x := span][y].seek + spans[x := span][y].len <= |sfile|
    {
      assert y != x ==> Has(nodes, y);
    }
  }

  /** Everything add_line_node needs to know of links and history. */
  lemma LineAdded(l: Links, head: Line, log: seq<Step>, live: seq<Line>, pre: seq<Line>, x: Line, post: seq<Line>)
    requires Owned(l, head, log, live) && live == pre + post
    requires x !in l.forw && x != NULL
    ensures var log', live', l' := log + [Add(pre, [x], post)], pre + [x] + post, Insque(l, x, Nth(head, live, |pre|));
            && Owned(l', head, log', live')
            && l'.forw.Keys == l.forw.Keys + {x}
            && At(log', live', 0) == At(log, live, 0)
  {
    assert Nth(head, live, |pre|) == Pred(head, pre);
    AccountedCovers(l, head, log, live);
    AddStep(l, head, log, live, pre, x, post);
    InsertKeys(l, head, pre, x, post);
    DeadAppend(log, Add(pre, [x], post));
    ElemsAdd(pre, x, post);
    var dead := Dead(log, |log|);
    NodesRegrouped({head}, Elems(live), dead, {x}, Elems(pre + [x] + post), dead + Elems([]));
    AccountedCovers(Insque(l, x, Pred(head, pre)), head, log + [Add(pre, [x], post)], pre + [x] + post);
  }

  lemma NodesRegrouped(h: set<Line>, e: set<Line>, d: set<Line>, x: set<Line>, e': set<Line>, d': set<Line>)
    requires e' == e + x && d' == d
    ensures h + e + d + x == h + e' + d'
  {
  }

  lemma InsertKeys(l: Links, head: Line, pre: seq<Line>, x: Line, post: seq<Line>)
    requires Ring(l, head, pre + post) && x != head && x !in pre + post
    ensures var l' := Insque(l, x, Pred(head, pre));
            l'.forw.Keys == l.forw.Keys + {x} && l'.back.Keys == l.back.Keys + {x}
  {
    Insert(l, head, pre, x, post);
  }

  lemma ElemsAdd(pre: seq<Line>, x: Line, post: seq<Line>)
    ensures Elems(pre + [x] + post) == Elems(pre + post) + {x}
  {
  }

  // ---- entering additions on the stack ----

  /** The log once x has entered after pre + seg: as a step of its own, ... */
  ghost function Entered(g: seq<Step>, pre: seq<Line>, seg: seq<Line>, x: Line, post: seq<Line>): seq<Step> {
    if seg == [] then g + [Add(pre, [x], post)] else g + [Add(pre, seg, post), Add(pre + seg, [x], post)]
  }

  /** ... and as part of the addition of seg, if there is one. */
  ghost function Grown(g: seq<Step>, pre: seq<Line>, seg: seq<Line>, post: seq<Line>): seq<Step> {
    if seg == [] then g else g + [Add(pre, seg, post)]
  }

  lemma EnteredIsGrown(g: seq<Step>, pre: seq<Line>, seg: seq<Line>, x: Line, post: seq<Line>)
    ensures Entered(g, pre, seg, x, post) == Grown(g, pre, seg, post) + [Add(pre + seg, [x], post)]
    ensures pre + (seg + [x]) + post == pre + seg + [x] + post
  {
    Associate(pre, seg, [x]);
    assert pre + [] == pre;
    if seg != [] {
      assert g + [Add(pre, seg, post), Add(pre + seg, [x], post)]
        == (g + [Add(pre, seg, post)]) + [Add(pre + seg, [x], post)];
    }
  }

  lemma MergeOwned(l: Links, head: Line, live: seq<Line>, g: seq<Step>, pre: seq<Line>, seg: seq<Line>, x: Line,
                   post: seq<Line>)
    requires Owned(l, head, Entered(g, pre, seg, x, post), live)
    ensures Owned(l, head, Grown(g, pre, seg + [x], post), live)
    ensures At(Grown(g, pre, seg + [x], post), live, 0) == At(Entered(g, pre, seg, x, post), live, 0)
  {
    if seg == [] {
      assert seg + [x] == [x];
    } else {
      var a, b, c := Add(pre, seg, post), Add(pre + seg, [x], post), Add(pre, seg + [x], post);
      Merge(head, g, live, pre, seg, [x], post);
      MergeDead(l, head, g, a, b, c);
      assert Grown(g, pre, seg + [x], post) == g + [c];
      forall y ensures HasOwner(head, g + [c], live, y) <==> HasOwner(head, g + [a, b], live, y) {
      }
    }
  }

  lemma MergeDead(l: Links, head: Line, g: seq<Step>, a: Step, b: Step, c: Step)
    requires a.Add? && b.Add? && c.Add?
    ensures Dead(g + [a, b], |g| + 2) == Dead(g + [c], |g| + 1)
    ensures DeadAt(l, head, g + [a, b], |g| + 2) ==> DeadAt(l, head, g + [c], |g| + 1)
  {
    DeadAppend(g, c);
    DeadAppend(g, a);
    DeadAppend(g + [a], b);
    assert g + [a, b] == (g + [a]) + [b];
    if DeadAt(l, head, g + [a, b], |g| + 2) {
      forall i | 0 <= i < |g| && g[i].Del?
        ensures Detached(l, Pred(head, g[i].pre), g[i].seg, Succ(head, g[i].post))
      {
        assert (g + [a, b])[i] == g[i];
      }
    }
  }

  /** The stack with its new entry, or with the tail of its top entry moved to x. */
  lemma StackGrown(head: Line, g: seq<Step>, pre: seq<Line>, seg: seq<Line>, x: Line, post: seq<Line>)
    ensures var stk, stk' := EncodeAll(head, Grown(g, pre, seg, post)), EncodeAll(head, Grown(g, pre, seg + [x], post));
            if seg == [] then stk' == stk + [Undo(UADD, x, x)]
            else stk != [] && stk' == stk[|stk| - 1 := stk[|stk| - 1].(t := x)]
  {
    EncodeAppend(head, g, Add(pre, seg + [x], post));
    EncodeAppend(head, g, Add(pre, seg, post));
  }

  // ---- the lines still active in a global command ----

  /** Lines keep their order when others are inserted... */
  lemma OrderedInsert(a: seq<Line>, pre: seq<Line>, seg: seq<Line>, post: seq<Line>)
    ensures Ordered(a, pre + post) ==> Ordered(a, pre + seg + post)
  {
    if Ordered(a, pre + post) {
      forall i, j | 0 <= i < j < |a| && a[i] != NULL && a[j] != NULL ensures Precedes(pre + seg + post, a[i], a[j]) {
        PrecedesInsert(pre, seg, post, a[i], a[j]);
      }
    }
  }

  lemma PrecedesInsert(pre: seq<Line>, seg: seq<Line>, post: seq<Line>, a: Line, b: Line)
    requires Precedes(pre + post, a, b)
    ensures Precedes(pre + seg + post, a, b)
  {
    var s, t := pre + post, pre + seg + post;
    var i, j :| 0 <= i < j < |s| && s[i] == a && s[j] == b;
    var i', j' := if i < |pre| then i else i + |seg|, if j < |pre| then j else j + |seg|;
    assert t[i'] == a && t[j'] == b;
  }

  /** ... and when others, struck off the list, are removed. */
  lemma OrderedCut(a: seq<Line>, pre: seq<Line>, seg: seq<Line>, post: seq<Line>)
    ensures Ordered(a, pre + seg + post) ==> Ordered(Struck(a, seg), pre + post)
  {
    if Ordered(a, pre + seg + post) {
      var b := Struck(a, seg);
      forall i, j | 0 <= i < j < |b| && b[i] != NULL && b[j] != NULL ensures Precedes(pre + post, b[i], b[j]) {
        PrecedesCut(pre, seg, post, a[i], a[j]);
      }
    }
  }

  lemma PrecedesCut(pre: seq<Line>, seg: seq<Line>, post: seq<Line>, a: Line, b: Line)
    requires Precedes(pre + seg + post, a, b) && a !in seg && b !in seg
    ensures Precedes(pre + post, a, b)
  {
    var s, t := pre + seg + post, pre + post;
    var i, j :| 0 <= i < j < |s| && s[i] == a && s[j] == b;
    assert forall k :: |pre| <= k < |pre| + |seg| ==> s[k] in seg;
    var i', j' := if i < |pre| then i else i - |seg|, if j < |pre| then j else j - |seg|;
    assert t[i'] == a && t[j'] == b;
  }

  lemma StruckSlice(a: seq<Line>, seg: seq<Line>, k: nat)
    requires k <= |a|
    ensures Struck(a, seg)[k..] == Struck(a[k..], seg)
  {
  }

  /** A block of the list leads to the node after it. */
  lemma BlockLeads(l: Links, head: Line, pre: seq<Line>, seg: seq<Line>, post: seq<Line>)
    requires Ring(l, head, pre + seg + post) && NULL !in l.forw
    ensures LeadsTo(l, seg, Succ(head, post))
  {
    if seg != [] {
      CutOut(l, head, pre, seg, post);
      assert pre + seg + [] + post == pre + seg + post;
      DistinctCut4(head, pre, seg, [], post);
      forall i | 0 <= i < |seg| ensures seg[i] in l.forw && l.forw[seg[i]] == Next(seg, i, Succ(head, post)) {
        if i + 1 < |seg| {
          assert Linked(l, seg[i], seg[i + 1]);
        }
      }
      assert Succ(head, post) in post + [head];
    }
  }

  // ---- deletion ----

  lemma OwnedDel(l: Links, head: Line, log: seq<Step>, live: seq<Line>, pre: seq<Line>, seg: seq<Line>, post: seq<Line>)
    requires Owned(l, head, log, live) && live == pre + seg + post && seg != []
    ensures var l' := Reque(l, Pred(head, pre), Succ(head, post));
            && Owned(l', head, log + [Del(pre, seg, post)], pre + post)
            && l'.forw.Keys == l.forw.Keys
  {
    DelStep(l, head, log, live, pre, seg, post);
    CutKeys(l, head, pre, seg, post);
    DeadAppend(log, Del(pre, seg, post));
    ElemsCut(pre, seg, post);
    Transfer({head}, Elems(live), Dead(log, |log|), Elems(seg), Elems(pre + post));
    AccountedCovers(l, head, log, live);
    AccountedCovers(Reque(l, Pred(head, pre), Succ(head, post)), head, log + [Del(pre, seg, post)], pre + post);
  }

  lemma LinesDeleted(l: Links, head: Line, log: seq<Step>, live: seq<Line>, from: nat, to: nat)
    requires Owned(l, head, log, live) && 1 <= from <= to <= |live|
    ensures var pre, seg, post := live[..from - 1], live[from - 1..to], live[to..];
            var st, p, n := Del(pre, seg, post), Nth(head, live, from - 1), Nth(head, live, IncMod(to, |live|));
            && Owned(Reque(l, p, n), head, log + [st], pre + post)
            && Reque(l, p, n).forw.Keys == l.forw.Keys
            && At(log + [st], pre + post, 0) == At(log, live, 0)
  {
    var pre, seg, post := live[..from - 1], live[from - 1..to], live[to..];
    assert live == pre + seg + post;
    assert Nth(head, live, from - 1) == Pred(head, pre) && Nth(head, live, IncMod(to, |live|)) == Succ(head, post);
    OwnedDel(l, head, log, live, pre, seg, post);
  }

  /** The segment that delete_lines walks along. */
  lemma DeletedBlock(l: Links, head: Line, live: seq<Line>, from: nat, to: nat)
    requires Ring(l, head, live) && NULL !in l.forw && 1 <= from <= to <= |live|
    ensures LeadsTo(l, live[from - 1..to], Nth(head, live, IncMod(to, |live|)))
    ensures Nth(head, live, from - 1) in l.forw && l.forw[Nth(head, live, from - 1)] == live[from - 1]
  {
    var pre, seg, post := live[..from - 1], live[from - 1..to], live[to..];
    assert live == pre + seg + post;
    assert Nth(head, live, IncMod(to, |live|)) == Succ(head, post);
    BlockLeads(l, head, pre, seg, post);
    RingNeighbours(l, head, live, from - 1);
  }

  /** What delete_lines has put on the stack. */
  lemma DeletedStack(head: Line, log: seq<Step>, live: seq<Line>, from: nat, to: nat)
    requires 1 <= from <= to <= |live|
    ensures EncodeAll(head, log + [Del(live[..from - 1], live[from - 1..to], live[to..])])
         == EncodeAll(head, log) + [Undo(UDEL, Nth(head, live, from), Nth(head, live, to))]
  {
    EncodeAppend(head, log, Del(live[..from - 1], live[from - 1..to], live[to..]));
  }

  lemma CutKeys(l: Links, head: Line, pre: seq<Line>, seg: seq<Line>, post: seq<Line>)
    requires Ring(l, head, pre + seg + post) && seg != []
    ensures var l' := Reque(l, Pred(head, pre), Succ(head, post));
            l'.forw.Keys == l.forw.Keys && l'.back.Keys == l.back.Keys
  {
    CutOut(l, head, pre, seg, post);
  }

  lemma ElemsCut(pre: seq<Line>, seg: seq<Line>, post: seq<Line>)
    ensures Elems(pre + seg + post) == Elems(pre + post) + Elems(seg)
  {
  }

  lemma Transfer(h: set<Line>, e: set<Line>, d: set<Line>, s: set<Line>, e': set<Line>)
    requires e == e' + s
    ensures h + e + d == h + e' + (d + s)
  {
  }

  lemma CountersDeleted(head: Line, live: seq<Line>, from: nat, to: nat, u: int, v: int, saved: seq<Line>)
    requires 1 <= from <= to <= |live|
    ensures CursorOk(head, live[..from - 1] + live[to..], |live| - (to - from + 1), Nth(head, live, from - 1), from - 1)
    ensures AddressesOk(from, u, v, live, saved) ==> AddressesOk(from - 1, u, v, live[..from - 1] + live[to..], saved)
  {
  }

  // ---- move ----

  /** The step that move_lines makes of its three addresses. */
  ghost function MoveStep(live: seq<Line>, first: nat, second: nat, addr: nat): Step
    requires 1 <= first <= second <= |live| && addr <= |live| && !(first - 1 <= addr <= second)
  {
    if addr < first then
      Mov(live[..addr], live[addr..first - 1], live[first - 1..second], live[second..], true, UMOV, UMOV)
    else
      Mov(live[..first - 1], live[first - 1..second], live[second..addr], live[addr..], false, UMOV, UMOV)
  }

  /** The list with lines first..second taken out and put after addr. */
  ghost function Moved<T>(s: seq<T>, first: nat, second: nat, addr: nat): seq<T>
    requires 1 <= first <= second <= |s| && addr <= |s| && !(first <= addr < second)
  {
    if addr < first then s[..addr] + s[first - 1..second] + s[addr..first - 1] + s[second..]
    else s[..first - 1] + s[second..addr] + s[first - 1..second] + s[addr..]
  }

  lemma OwnedMov(l: Links, head: Line, log: seq<Step>, live: seq<Line>, st: Step)
    requires Owned(l, head, log, live) && st.Mov? && Before(st) == live
    requires st.a != [] && st.b != [] && st.lo == st.hi == UMOV
    ensures var l' := Exchanged(l, Pred(head, st.pre), st.a, st.b, Succ(head, st.post));
            && Owned(l', head, log + [st], After(st))
            && l'.forw.Keys == l.forw.Keys
  {
    var pre, a, b, post := st.pre, st.a, st.b, st.post;
    MovStep(l, head, log, live, pre, a, b, post, st.up);
    ExchangedKeys(l, head, pre, a, b, post);
    DeadAppend(log, st);
    StepBalance(st);
    SameOwners({head}, Elems(live), Elems(After(st)), Dead(log, |log|));
    AccountedCovers(l, head, log, live);
    AccountedCovers(Exchanged(l, Pred(head, pre), a, b, Succ(head, post)), head, log + [st], After(st));
  }

  /** The four nodes that move_lines looks up. */
  ghost function MoveEnds(head: Line, live: seq<Line>, first: nat, second: nat, addr: nat): (Line, Line, Line, Line)
    requires 1 <= first <= second <= |live| && addr <= |live|
  {
    (Nth(head, live, first - 1), Nth(head, live, IncMod(second, |live|)),
     Nth(head, live, addr), Nth(head, live, IncMod(addr, |live|)))
  }

  lemma Quarters<T>(s: seq<T>, i: nat, j: nat, k: nat)
    requires i <= j <= k <= |s|
    ensures s == s[..i] + s[i..j] + s[j..k] + s[k..]
  {
  }

  /** The ends of two neighbouring blocks, as addresses. */
  lemma BlockEnds(head: Line, s: seq<Line>, i: nat, j: nat, k: nat)
    requires i < j < k <= |s|
    ensures Nth(head, s, i) == Pred(head, s[..i]) && Nth(head, s, IncMod(i, |s|)) == s[i..j][0]
    ensures Nth(head, s, j) == Last(s[i..j]) && Nth(head, s, IncMod(j, |s|)) == s[j..k][0]
    ensures Nth(head, s, k) == Last(s[j..k]) && Nth(head, s, IncMod(k, |s|)) == Succ(head, s[k..])
  {
  }

  /** The step of a move, from the list before to the list after. */
  lemma MoveStepOk(live: seq<Line>, first: nat, second: nat, addr: nat)
    requires 1 <= first <= second <= |live| && addr <= |live| && !(first - 1 <= addr <= second)
    ensures var st := MoveStep(live, first, second, addr);
            Before(st) == live && After(st) == Moved(live, first, second, addr) && st.a != [] && st.b != []
  {
    if addr < first {
      Quarters(live, addr, first - 1, second);
    } else {
      Quarters(live, first - 1, second, addr);
    }
  }

  lemma MoveIsExchange(l: Links, head: Line, live: seq<Line>, first: nat, second: nat, addr: nat)
    requires Ring(l, head, live)
    requires 1 <= first <= second <= |live| && addr <= |live| && !(first - 1 <= addr <= second)
    ensures var st, (b1, a1, b2, a2) := MoveStep(live, first, second, addr), MoveEnds(head, live, first, second, addr);
            && live == st.pre + st.a + st.b + st.post
            && MoveLinks(l, b1, a1, b2, a2) == Exchanged(l, Pred(head, st.pre), st.a, st.b, Succ(head, st.post))
            && Encode(head, st) == [Undo(UMOV, b1, a1), Undo(UMOV, b2, a2)]
            && After(st) == Moved(live, first, second, addr)
  {
    hide Ring, MoveLinks, Exchanged, Moved, Nth, Pred, Succ, Last;
    var st := MoveStep(live, first, second, addr);
    MoveStepOk(live, first, second, addr);
    MoveEntries(head, live, first, second, addr);
    if st.up {
      BlockEnds(head, live, addr, first - 1, second);
      MoveUp(l, head, st.pre, st.a, st.b, st.post);
    } else {
      BlockEnds(head, live, first - 1, second, addr);
      MoveDown(l, head, st.pre, st.a, st.b, st.post);
    }
  }

  /** The entries that move_lines pushes are those of its step. */
  lemma MoveEntries(head: Line, live: seq<Line>, first: nat, second: nat, addr: nat)
    requires 1 <= first <= second <= |live| && addr <= |live| && !(first - 1 <= addr <= second)
    ensures var (b1, a1, b2, a2) := MoveEnds(head, live, first, second, addr);
            Encode(head, MoveStep(live, first, second, addr)) == [Undo(UMOV, b1, a1), Undo(UMOV, b2, a2)]
  {
    if addr < first {
      BlockEnds(head, live, addr, first - 1, second);
    } else {
      BlockEnds(head, live, first - 1, second, addr);
    }
  }

  /** All that move_lines needs to know of the links it leaves. */
  lemma LinesMoved(l: Links, l': Links, head: Line, log: seq<Step>, live: seq<Line>, first: nat, second: nat,
                   addr: nat, ends: (Line, Line, Line, Line))
    requires Owned(l, head, log, live)
    requires 1 <= first <= second <= |live| && addr <= |live| && !(first - 1 <= addr <= second)
    requires ends == MoveEnds(head, live, first, second, addr)
    requires l' == MoveLinks(l, ends.0, ends.1, ends.2, ends.3)
    ensures var st := MoveStep(live, first, second, addr);
            && Owned(l', head, log + [st], Moved(live, first, second, addr))
            && [Undo(UMOV, ends.0, ends.1), Undo(UMOV, ends.2, ends.3)] == Encode(head, st)
    ensures l'.forw.Keys == l.forw.Keys
    ensures ends.2 in l'.forw && l'.forw[ends.2] == live[first - 1] && LeadsTo(l', live[first - 1..second], ends.3)
  {
    var st := MoveStep(live, first, second, addr);
    MoveIsExchange(l, head, live, first, second, addr);
    OwnedMov(l, head, log, live, st);
    MovedBlock(l', head, live, first, second, addr);
  }

  /** The stack and the saved list after the move. */
  lemma SavedMoved(head: Line, log: seq<Step>, live: seq<Line>, first: nat, second: nat, addr: nat)
    requires 1 <= first <= second <= |live| && addr <= |live| && !(first - 1 <= addr <= second)
    ensures var st := MoveStep(live, first, second, addr);
            && At(log + [st], Moved(live, first, second, addr), 0) == At(log, live, 0)
            && EncodeAll(head, log + [st]) == EncodeAll(head, log) + Encode(head, st)
  {
    hide Encode, MoveStep, Moved;
    var st := MoveStep(live, first, second, addr);
    MoveStepOk(live, first, second, addr);
    EncodeAppend(head, log, st);
  }

  /** The second REQUE of move_lines finds the end of its block where the first has not reached. */
  lemma MoveBackPointer(l: Links, head: Line, live: seq<Line>, first: nat, second: nat, addr: nat)
    requires Ring(l, head, live)
    requires 1 <= first <= second <= |live| && addr <= |live| && !(first - 1 <= addr <= second)
    ensures var (b1, a1, b2, a2) := MoveEnds(head, live, first, second, addr);
            b1 in l.forw && a1 in l.back && b2 in l.forw && l.forw[b2] == a2
  {
    RingNeighbours(l, head, live, first - 1);
    RingNeighbours(l, head, live, IncMod(second, |live|));
    RingNeighbours(l, head, live, addr);
  }

  /** After the move, the moved block leads to the node that followed addr. */
  lemma MovedBlock(l: Links, head: Line, live: seq<Line>, first: nat, second: nat, addr: nat)
    requires 1 <= first <= second <= |live| && addr <= |live| && !(first - 1 <= addr <= second)
    requires Ring(l, head, Moved(live, first, second, addr)) && NULL !in l.forw
    ensures var seg, (b1, a1, b2, a2) := live[first - 1..second], MoveEnds(head, live, first, second, addr);
            LeadsTo(l, seg, a2) && b2 in l.forw && l.forw[b2] == seg[0]
  {
    hide Ring, Detached, LeadsTo, Reque;
    var seg, b2 := live[first - 1..second], Nth(head, live, addr);
    if addr < first {
      var post := live[addr..first - 1] + live[second..];
      assert Moved(live, first, second, addr) == live[..addr] + seg + post;
      BlockLeads(l, head, live[..addr], seg, post);
      CutOut(l, head, live[..addr], seg, post);
      assert b2 == Pred(head, live[..addr]);
    } else {
      var pre := live[..first - 1] + live[second..addr];
      assert Moved(live, first, second, addr) == pre + seg + live[addr..];
      BlockLeads(l, head, pre, seg, live[addr..]);
      CutOut(l, head, pre, seg, live[addr..]);
      assert b2 == Pred(head, pre);
    }
  }

  lemma SameOwners(h: set<Line>, e: set<Line>, e': set<Line>, d: set<Line>)
    requires e + {} == e' + {}
    ensures h + e + d == h + e' + (d + {})
  {
  }

  lemma ExchangedKeys(l: Links, head: Line, pre: seq<Line>, a: seq<Line>, b: seq<Line>, post: seq<Line>)
    requires a != [] && b != [] && Ring(l, head, pre + a + b + post)
    ensures var l' := Exchanged(l, Pred(head, pre), a, b, Succ(head, post));
            l'.forw.Keys == l.forw.Keys && l'.back.Keys == l.back.Keys
  {
    Gaps(l, head, pre, a, b, post);
  }

  lemma OrderedDelete(x: seq<Line>, k: nat, live: seq<Line>, from: nat, to: nat)
    requires k <= |x| && 1 <= from <= to <= |live|
    ensures Ordered(x[k..], live) ==> Ordered(Struck(x, live[from - 1..to])[k..], live[..from - 1] + live[to..])
  {
    assert live == live[..from - 1] + live[from - 1..to] + live[to..];
    OrderedCut(x[k..], live[..from - 1], live[from - 1..to], live[to..]);
    StruckSlice(x, live[from - 1..to], k);
  }

  /** The node the cursor is left on keeps its address. */
  lemma CursorMoved(head: Line, live: seq<Line>, first: nat, second: nat, addr: nat)
    requires 1 <= first <= second <= |live| && addr <= |live| && !(first <= addr < second)
    ensures var on := if addr < first then addr else first - 1;
            CursorOk(head, Moved(live, first, second, addr), |live|, Nth(head, live, on), on)
  {
  }

  /** Where the last line of the range ends up. */
  lemma LastMoved<T>(s: seq<T>, first: nat, second: nat, addr: nat)
    requires 1 <= first <= second <= |s| && addr <= |s| && !(first <= addr < second)
    ensures |Moved(s, first, second, addr)| == |s|
    ensures var c := addr + if addr < first then second - first + 1 else 0;
            0 < c <= |s| && Moved(s, first, second, addr)[c - 1] == s[second - 1]
    ensures addr == first - 1 || addr == second ==> Moved(s, first, second, addr) == s
  {
    var i, j := first - 1, second;
    if addr < first {
      FourParts(s, addr, i, j);
    } else {
      FourParts(s, i, j, addr);
    }
  }

  lemma FourParts<T>(s: seq<T>, i: nat, j: nat, k: nat)
    requires i <= j <= k <= |s|
    ensures var t := s[..i] + s[j..k] + s[i..j] + s[k..];
            && |t| == |s| && (j < k ==> t[i + k - j - 1] == s[k - 1]) && (i < j ==> t[k - 1] == s[j - 1])
            && (i == j || j == k ==> t == s)
  {
  }

  /** Lines that stay keep their order when the moved ones are struck off. */
  lemma OrderedMove(x: seq<Line>, live: seq<Line>, first: nat, second: nat, addr: nat)
    requires 1 <= first <= second <= |live| && addr <= |live| && !(first <= addr < second)
    ensures Ordered(x, live) ==> Ordered(Struck(x, live[first - 1..second]), Moved(live, first, second, addr))
  {
    var seg := live[first - 1..second];
    var pre, post := live[..first - 1], live[second..];
    assert live == pre + seg + post;
    OrderedCut(x, pre, seg, post);
    var cut, struck := pre + post, Struck(x, seg);
    if addr < first {
      assert cut == live[..addr] + (live[addr..first - 1] + live[second..]);
      OrderedInsert(struck, live[..addr], seg, live[addr..first - 1] + live[second..]);
      assert Moved(live, first, second, addr) == live[..addr] + seg + (live[addr..first - 1] + live[second..]);
    } else {
      assert cut == (live[..first - 1] + live[second..addr]) + live[addr..];
      OrderedInsert(struck, live[..first - 1] + live[second..addr], seg, live[addr..]);
    }
  }

  // ---- undo ----

  /** One turn of the loop: from entry n - 1 of stk and links l to entry n' - 1 and links l'. */
  ghost predicate WalksTo(stk: seq<Undo>, n: nat, l: Links, n': nat, l': Links)
    requires 0 < n <= |stk|
  {
    match stk[n - 1].kind
    case UADD => n' == n - 1 && l' == UndoAdd(l, stk[n - 1])
    case UDEL => n' == n - 1 && l' == UndoDel(l, stk[n - 1])
    case _ => n >= 2 && n' == n - 2 && l' == UndoMov(l, stk[n - 2], stk[n - 1])
  }

  lemma SameTop(a: seq<Undo>, b: seq<Undo>, n: nat)
    requires 0 < n <= |a| && n <= |b| && a[..n] == b[..n] && Paired(b, n)
    ensures a[n - 1] == b[n - 1]
    ensures n >= 2 ==> a[n - 2] == b[n - 2]
    ensures b[n - 1].kind.UMOV? || b[n - 1].kind.VMOV? ==> n >= 2
  {
    assert a[n - 1] == a[..n][n - 1] && b[n - 1] == b[..n][n - 1];
    if n >= 2 {
      assert a[n - 2] == a[..n][n - 2] && b[n - 2] == b[..n][n - 2];
    }
  }

  /** What one turn does for the whole walk over stk; a and a' are the array before and after it. */
  lemma WalkOne(stk: seq<Undo>, a: seq<Undo>, n: nat, l: Links, n': nat, l': Links, a': seq<Undo>, all: nat)
    requires 0 < n <= |stk| == |a| && Paired(stk, n) && a[..n] == stk[..n]
    requires WalksTo(a, n, l, n', l') && a' == a[n' := FlipEntry(a[n'])]
    requires all <= |stk| && Paired(stk, all)
    ensures Paired(stk, n') && a'[..n'] == stk[..n']
    ensures Replay(l', stk, n') == Replay(l, stk, n)
    ensures FlipTags(stk, n) + a[n..] == FlipTags(stk, n') + a'[n'..]
  {
    SameTop(a, stk, n);
    FlipOne(stk, n, n', a');
    UpdateBelow(a, n', n, FlipEntry(a[n']));
    Associate(FlipTags(stk, n'), a'[n'..n], a[n..]);
  }

  lemma UpdateBelow(a: seq<Undo>, i: nat, j: nat, x: Undo)
    requires i < j <= |a|
    ensures a[i := x][i..] == a[i := x][i..j] + a[j..] && a[i := x][..i] == a[..i]
  {
  }

  lemma FlipOne(stk: seq<Undo>, n: nat, n': nat, a: seq<Undo>)
    requires 0 < n <= |stk| == |a| && Paired(stk, n)
    requires n' == if stk[n - 1].kind.UADD? || stk[n - 1].kind.UDEL? then n - 1 else n - 2
    requires a[n'] == FlipEntry(stk[n']) && (n' == n - 2 ==> a[n - 1] == stk[n - 1])
    ensures Paired(stk, n') && FlipTags(stk, n) == FlipTags(stk, n') + a[n'..n]
  {
    if n' == n - 2 {
      assert a[n'..n] == [a[n'], a[n - 1]];
    } else {
      assert a[n'..n] == [a[n']];
    }
  }

  /** The buffer after a whole undo: its list is the saved one, and the other way round. */
  lemma StackUndone(l: Links, head: Line, log: seq<Step>, live: seq<Line>)
    requires Owned(l, head, log, live)
    ensures var stk := EncodeAll(head, log);
            var l' := UndoLinks(l, stk);
            && Owned(l', head, InvertAll(log), At(log, live, 0))
            && l'.forw.Keys == l.forw.Keys
            && TurnRound(stk) == EncodeAll(head, InvertAll(log))
            && At(InvertAll(log), At(log, live, 0), 0) == live
  {
    var nodes := {head} + Elems(live) + Dead(log, |log|);
    AccountedCovers(l, head, log, live);
    UndoAgrees(l, head, log, live, nodes);
    InvertHistory(head, log, live);
    AccountedCovers(UndoLinks(l, EncodeAll(head, log)), head, InvertAll(log), At(log, live, 0));
  }

  /** The undo loop follows pointers of allocated nodes only. */
  lemma StackAllocated(l: Links, head: Line, log: seq<Step>, live: seq<Line>)
    requires Owned(l, head, log, live)
    ensures var stk := EncodeAll(head, log);
            StackIn(stk, l.forw.Keys) && l.forw.Keys == l.back.Keys && Paired(stk, |stk|)
  {
    var nodes := {head} + Elems(live) + Dead(log, |log|);
    AccountedCovers(l, head, log, live);
    EncodedIn(head, log, live, nodes);
    Walkable(head, log);
  }

  // ---- clear ----

  /** Links after the nodes of s are freed. */
  function Without(l: Links, s: set<Line>): Links {
    Links(l.forw - s, l.back - s)
  }

  lemma WithoutNone(l: Links, sp: map<Line, Span>)
    ensures Without(l, Elems([])) == l && sp - Elems([]) == sp
  {
    assert l.forw - Elems([]) == l.forw && l.back - Elems([]) == l.back;
  }

  /** One turn of the freeing loop: the next node of the segment is still there. */
  lemma OneMore(l: Links, sp: map<Line, Span>, seg: seq<Line>, i: nat, n: Line)
    requires i < |seg| && Distinct(seg) && LeadsTo(l, seg, n) && l.forw.Keys == l.back.Keys
    ensures var now := Without(l, Elems(seg[..i]));
            && seg[i] in now.forw && seg[i] in now.back && seg[i] != NULL
            && now.forw[seg[i]] == (if i + 1 < |seg| then seg[i + 1] else n)
            && Without(now, {seg[i]}) == Without(l, Elems(seg[..i + 1]))
            && (sp - Elems(seg[..i])) - {seg[i]} == sp - Elems(seg[..i + 1])
  {
    assert seg[i] !in seg[..i];
    assert l.forw[seg[i]] == Next(seg, i, n);
    assert seg[..i + 1] == seg[..i] + [seg[i]];
    ElemsConcat(seg[..i], [seg[i]]);
    assert Elems([seg[i]]) == {seg[i]};
    TakenAway(l, sp, Elems(seg[..i]), {seg[i]});
  }

  lemma TakenAway(l: Links, sp: map<Line, Span>, s: set<Line>, t: set<Line>)
    ensures Without(Without(l, s), t) == Without(l, s + t) && (sp - s) - t == sp - (s + t)
  {
    assert (l.forw - s) - t == l.forw - (s + t);
    assert (l.back - s) - t == l.back - (s + t);
  }

  /** The state of clear_undo_stack when the entries of the steps from k on are gone: the list
      stands, and the nodes that are left are head, the list and what the steps below k removed. */
  ghost predicate Clearing(l: Links, head: Line, log: seq<Step>, live: seq<Line>, k: nat)
    requires k <= |log|
  {
    && Ring(l, head, live) && l.forw.Keys == l.back.Keys && NULL !in l.forw
    && (forall i :: 0 <= i < k && log[i].Del? ==>
          Detached(l, Pred(head, log[i].pre), log[i].seg, Succ(head, log[i].post)))
    && (forall x {:trigger IsNode(l, x)} {:trigger Leftover(head, log, live, k, x)} ::
          IsNode(l, x) <==> Leftover(head, log, live, k, x))
  }

  ghost predicate Leftover(head: Line, log: seq<Step>, live: seq<Line>, k: nat, x: Line)
    requires k <= |log|
  {
    x == head || x in live || x in Dead(log, k)
  }

  lemma ClearingStarts(l: Links, head: Line, log: seq<Step>, live: seq<Line>)
    requires Owned(l, head, log, live)
    ensures Clearing(l, head, log, live, |log|)
  {
    forall x ensures IsNode(l, x) <==> Leftover(head, log, live, |log|, x) {
      assert IsNode(l, x) <==> HasOwner(head, log, live, x);
    }
  }

  lemma ClearingEnds(l: Links, head: Line, log: seq<Step>, live: seq<Line>)
    requires Clearing(l, head, log, live, 0)
    ensures Owned(l, head, [], live)
  {
    forall x ensures IsNode(l, x) <==> HasOwner(head, [], live, x) {
      assert IsNode(l, x) <==> Leftover(head, log, live, 0, x);
    }
  }

  /** An entry that is not UDEL takes nothing with it. */
  lemma ClearingSkips(l: Links, head: Line, log: seq<Step>, live: seq<Line>, k: nat)
    requires 0 < k <= |log| && Clearing(l, head, log, live, k) && !log[k - 1].Del?
    ensures Clearing(l, head, log, live, k - 1)
  {
    forall x ensures IsNode(l, x) <==> Leftover(head, log, live, k - 1, x) {
      assert IsNode(l, x) <==> Leftover(head, log, live, k, x);
    }
  }

  lemma PathWithout(l: Links, s: set<Line>, c: seq<Line>)
    requires Path(l, c) && forall i :: 0 <= i < |c| ==> c[i] !in s
    ensures Path(Without(l, s), c)
  {
    forall i, j | 0 <= i && j == i + 1 && j < |c| ensures Linked(Without(l, s), c[i], c[j]) {
      assert Linked(l, c[i], c[j]);
    }
  }

  lemma DetachedWithout(l: Links, s: set<Line>, p: Line, seg: seq<Line>, n: Line)
    requires Detached(l, p, seg, n) && forall i :: 0 <= i < |seg| ==> seg[i] !in s
    ensures Detached(Without(l, s), p, seg, n)
  {
    PathWithout(l, s, seg);
  }

  /** Freeing the segment of a UDEL entry leaves the list and the other segments whole. */
  lemma ClearingFrees(l: Links, head: Line, log: seq<Step>, live: seq<Line>, k: nat)
    requires 0 < k <= |log| && History(head, log, live) && Clearing(l, head, log, live, k) && log[k - 1].Del?
    ensures Clearing(Without(l, Elems(log[k - 1].seg)), head, log, live, k - 1)
  {
    var seg, s := log[k - 1].seg, Elems(log[k - 1].seg);
    var l' := Without(l, s);
    forall x | x in s
      ensures x != head && x !in live && forall j :: 0 <= j < |log| && j != k - 1 ==> x !in Removed(log[j])
    {
      assert x in Removed(log[k - 1]);
      OneOwner(head, log, live, k - 1, x);
    }
    PathWithout(l, s, [head] + live + [head]);
    forall i | 0 <= i < k - 1 && log[i].Del?
      ensures Detached(l', Pred(head, log[i].pre), log[i].seg, Succ(head, log[i].post))
    {
      assert Removed(log[i]) == log[i].seg;
      DetachedWithout(l, s, Pred(head, log[i].pre), log[i].seg, Succ(head, log[i].post));
    }
    forall x ensures IsNode(l', x) <==> Leftover(head, log, live, k - 1, x) {
      assert IsNode(l, x) <==> Leftover(head, log, live, k, x);
      DeadMember(log, k - 1, x);
    }
  }

  /** What the freeing loop needs of the segment it walks along. */
  lemma SegmentToFree(l: Links, head: Line, log: seq<Step>, live: seq<Line>, k: nat)
    requires 0 < k <= |log| && History(head, log, live) && Clearing(l, head, log, live, k) && log[k - 1].Del?
    ensures var st := log[k - 1];
            && LeadsTo(l, st.seg, Succ(head, st.post)) && Distinct(st.seg) && head !in st.seg && st.seg != []
            && l.forw.Keys == l.back.Keys
            && Encode(head, st) == [Undo(UDEL, st.seg[0], Last(st.seg))]
  {
    var st := log[k - 1];
    assert StepOk(head, st);
    assert st.pre + st.seg + [] + st.post == st.pre + st.seg + st.post;
    DistinctCut4(head, st.pre, st.seg, [], st.post);
    assert Succ(head, st.post) in st.post + [head];
    forall i | 0 <= i < |st.seg|
      ensures st.seg[i] in l.forw && l.forw[st.seg[i]] == Next(st.seg, i, Succ(head, st.post))
    {
      if i + 1 < |st.seg| {
        assert Linked(l, st.seg[i], st.seg[i + 1]);
      }
    }
  }

  /** Where clear_undo_stack stands, n entries high: above the first k steps, or half way into the
      pair of a move. */
  ghost predicate Standing(log: seq<Step>, k: nat, n: nat)
    requires k <= |log|
  {
    n == Height(log, k) || (k < |log| && log[k].Mov? && n == Height(log, k) + 1)
  }

  lemma {:induction false} HoldsAt(stk: seq<Undo>, head: Line, log: seq<Step>, k: nat, j: nat)
    requires 0 < j <= k <= |log| && Holds(stk, head, log, k)
    ensures Holds(stk, head, log, j)
    ensures Height(log, j) <= |stk| && stk[Height(log, j - 1)..Height(log, j)] == Encode(head, log[j - 1])
  {
    if j < k {
      HoldsAt(stk, head, log, k - 1, j);
    }
  }

  /** Which entry of which step stands at height n - 1. */
  lemma {:induction false} EntryAt(stk: seq<Undo>, head: Line, log: seq<Step>, j: nat, n: nat)
    requires 0 < j <= |log| && StepsOk(head, log) && stk == EncodeAll(head, log)
    requires Height(log, j - 1) < n <= Height(log, j)
    ensures n <= |stk| && stk[n - 1] == Encode(head, log[j - 1])[n - 1 - Height(log, j - 1)]
  {
    hide Encode, StepsOk;
    Walkable(head, log);
    HoldsAt(stk, head, log, |log|, j);
    assert stk[n - 1] == stk[Height(log, j - 1)..Height(log, j)][n - 1 - Height(log, j - 1)];
  }

  /** Only a deletion leaves an entry of type UDEL. */
  lemma KindOf(head: Line, st: Step, i: nat)
    requires StepOk(head, st) && i < |Encode(head, st)|
    ensures Encode(head, st)[i].kind == UDEL <==> st.Del?
  {
  }

  /** The entry on top tells what its step was, and where the loop stands once it is popped. */
  lemma TopEntry(stk: seq<Undo>, head: Line, log: seq<Step>, k: nat, n: nat) returns (k': nat)
    requires k <= |log| && 0 < n && StepsOk(head, log) && Standing(log, k, n)
    requires stk == EncodeAll(head, log)
    ensures n <= |stk| && k' <= k && Standing(log, k', n - 1)
    ensures stk[n - 1].kind == UDEL ==> k == k' + 1 && log[k'].Del? && [stk[n - 1]] == Encode(head, log[k'])
    ensures stk[n - 1].kind != UDEL ==> k' == k || (k == k' + 1 && !log[k'].Del?)
  {
    var j: nat := if n == Height(log, k) then k else k + 1;
    assert StepOk(head, log[j - 1]);
    EntryAt(stk, head, log, j, n);
    KindOf(head, log[j - 1], n - 1 - Height(log, j - 1));
    k' := j - 1;
    if n == Height(log, k) {
      k' := k - 1;
    } else {
      k' := k;
    }
  }

  lemma BottomOfStack(log: seq<Step>, k: nat)
    requires k <= |log| && Standing(log, k, 0)
    ensures k == 0
  {
  }

  lemma SegmentNotLive(head: Line, log: seq<Step>, live: seq<Line>, i: nat)
    requires History(head, log, live) && i < |log| && log[i].Del?
    ensures forall x :: x in live ==> x !in Elems(log[i].seg)
  {
    forall x | x in log[i].seg ensures x !in live {
      assert x in Removed(log[i]);
      OneOwner(head, log, live, i, x);
    }
  }

  lemma TextsWithout(spans: map<Line, Span>, sfile: seq<char>, head: Line, nodes: set<Line>, s: set<Line>)
    requires TextsIn(spans, sfile, head, nodes)
    ensures TextsIn(spans - s, sfile, head, nodes - s)
  {
    forall x | Has(nodes - s, x) && x != head
      ensures x in spans - s && (spans - s)[x].seek + (spans - s)[x].len <= |sfile|
    {
      assert Has(nodes, x);
    }
  }

  lemma MarksWithout(mark: seq<Line>, head: Line, nodes: set<Line>, x: Line)
    requires MarksIn(mark, head, nodes)
    ensures MarksIn(Cleared(mark, x), head, nodes - {x}) && Cleared(mark, x) == Within(mark, nodes - {x})
  {
  }

  lemma MarksWithin(mark: seq<Line>, head: Line, nodes: set<Line>)
    requires MarksIn(mark, head, nodes)
    ensures Within(mark, nodes) == mark
  {
  }

  /** The marks that are left when only the list is. */
  lemma MarksOfLines(mark: seq<Line>, head: Line, nodes: set<Line>, nodes': set<Line>, live: seq<Line>)
    requires MarksIn(mark, head, nodes) && forall x :: x in nodes' <==> x == head || x in live
    ensures Within(mark, nodes') == Within(mark, Elems(live))
  {
  }

  // ---- texts ----

  /** The characters of a line. */
  ghost function TextOf(spans: map<Line, Span>, sfile: seq<char>, x: Line): seq<char> {
    if x in spans && spans[x].seek + spans[x].len <= |sfile| then
      sfile[spans[x].seek..spans[x].seek + spans[x].len]
    else []
  }

  /** The texts of a list of lines: what the user sees. */
  ghost function TextsOf(spans: map<Line, Span>, sfile: seq<char>, s: seq<Line>): (r: seq<seq<char>>)
    ensures |r| == |s|
  {
    seq(|s|, i requires 0 <= i < |s| => TextOf(spans, sfile, s[i]))
  }

  lemma TextsConcat(spans: map<Line, Span>, sfile: seq<char>, s: seq<Line>, t: seq<Line>)
    ensures TextsOf(spans, sfile, s + t) == TextsOf(spans, sfile, s) + TextsOf(spans, sfile, t)
  {
  }

  /** The scratch file only grows, and the spans of lines never change. */
  ghost predicate Later(spans: map<Line, Span>, sfile: seq<char>, spans': map<Line, Span>, sfile': seq<char>,
                        s: seq<Line>) {
    && sfile <= sfile'
    && forall x :: x in s ==>
         x in spans && x in spans' && spans'[x] == spans[x] && spans[x].seek + spans[x].len <= |sfile|
  }

  lemma TextsStay(spans: map<Line, Span>, sfile: seq<char>, spans': map<Line, Span>, sfile': seq<char>, s: seq<Line>)
    requires Later(spans, sfile, spans', sfile', s)
    ensures TextsOf(spans', sfile', s) == TextsOf(spans, sfile, s)
  {
    forall i | 0 <= i < |s| ensures TextOf(spans', sfile', s[i]) == TextOf(spans, sfile, s[i]) {
      assert s[i] in s;
      assert sfile == sfile'[..|sfile|];
    }
  }

  lemma FileGrown(spans: map<Line, Span>, sfile: seq<char>, head: Line, nodes: set<Line>, more: seq<char>)
    requires TextsIn(spans, sfile, head, nodes)
    ensures TextsIn(spans, sfile + more, head, nodes)
  {
    forall x | Has(nodes, x) && x != head ensures x in spans && spans[x].seek + spans[x].len <= |sfile + more| {
    }
  }

  lemma HeadIsNode(l: Links, head: Line, live: seq<Line>)
    requires Ring(l, head, live)
    ensures head in l.forw
  {
    RingNeighbours(l, head, live, 0);
  }

  /** What was allocated keeps its text when the scratch file and the lines grow. */
  ghost predicate Extends(spans: map<Line, Span>, sfile: seq<char>, spans': map<Line, Span>, sfile': seq<char>,
                          nodes: set<Line>) {
    && sfile <= sfile'
    && forall x :: Has(nodes, x) && x in spans ==> x in spans' && spans'[x] == spans[x]
  }

  lemma ExtendsTrans(spans: map<Line, Span>, sfile: seq<char>, spans1: map<Line, Span>, sfile1: seq<char>,
                     nodes1: set<Line>,
                     spans2: map<Line, Span>, sfile2: seq<char>, nodes: set<Line>)
    requires Extends(spans, sfile, spans1, sfile1, nodes)
    requires Extends(spans1, sfile1, spans2, sfile2, nodes1) && nodes <= nodes1
    ensures Extends(spans, sfile, spans2, sfile2, nodes)
  {
    forall x | Has(nodes, x) && x in spans ensures x in spans2 && spans2[x] == spans[x] {
      assert Has(nodes1, x);
    }
  }

  lemma ExtendsOne(spans: map<Line, Span>, sfile: seq<char>, nodes: set<Line>, x: Line, span: Span, more: seq<char>)
    requires x !in nodes
    ensures Extends(spans, sfile, spans[x := span], sfile + more, nodes)
  {
  }

  lemma ExtendsTexts(spans: map<Line, Span>, sfile: seq<char>, spans': map<Line, Span>, sfile': seq<char>,
                     nodes: set<Line>, head: Line, s: seq<Line>)
    requires Extends(spans, sfile, spans', sfile', nodes) && TextsIn(spans, sfile, head, nodes)
    requires forall x :: x in s ==> x in nodes && x != head
    ensures TextsOf(spans', sfile', s) == TextsOf(spans, sfile, s)
  {
    forall x | x in s
      ensures x in spans && x in spans' && spans'[x] == spans[x] && spans[x].seek + spans[x].len <= |sfile|
    {
      assert Has(nodes, x);
    }
    TextsStay(spans, sfile, spans', sfile', s);
  }

  /** The text just written. */
  lemma NewText(spans: map<Line, Span>, sfile: seq<char>, x: Line, s: seq<char>)
    ensures TextOf(spans[x := Span(|sfile|, |s|)], sfile + s, x) == s
  {
  }

  /** All about texts when one line more is written. */
  lemma OneMoreText(sp0: map<Line, Span>, sf0: seq<char>, nodes0: set<Line>, sp: map<Line, Span>, sf: seq<char>,
                    nodes: set<Line>,
                    head: Line, seg: seq<Line>, x: Line, s: seq<char>)
    requires Extends(sp0, sf0, sp, sf, nodes0) && nodes0 <= nodes && TextsIn(sp, sf, head, nodes)
    requires x !in nodes && forall y :: y in seg ==> y in nodes && y != head
    ensures var sp', sf' := sp[x := Span(|sf|, |s|)], sf + s;
            Extends(sp0, sf0, sp', sf', nodes0) && TextsOf(sp', sf', seg + [x]) == TextsOf(sp, sf, seg) + [s]
  {
    var sp', sf' := sp[x := Span(|sf|, |s|)], sf + s;
    ExtendsOne(sp, sf, nodes, x, Span(|sf|, |s|), s);
    ExtendsTrans(sp0, sf0, sp, sf, nodes, sp', sf', nodes0);
    ExtendsTexts(sp, sf, sp', sf', nodes, head, seg);
    NewText(sp, sf, x, s);
    TextsConcat(sp', sf', seg, [x]);
  }

  // ---- copy ----

  /** The copies have the spans of the originals. */
  ghost predicate Copies(spans: map<Line, Span>, seg: seq<Line>, src: seq<Line>) {
    && |seg| == |src|
    && forall i :: 0 <= i < |seg| ==> seg[i] in spans && src[i] in spans && spans[seg[i]] == spans[src[i]]
  }

  lemma CopiesTexts(spans: map<Line, Span>, sfile: seq<char>, seg: seq<Line>, src: seq<Line>)
    requires Copies(spans, seg, src)
    ensures TextsOf(spans, sfile, seg) == TextsOf(spans, sfile, src)
  {
  }

  lemma CopiesMore(spans: map<Line, Span>, seg: seq<Line>, src: seq<Line>, x: Line, y: Line)
    requires Copies(spans, seg, src) && x !in seg && x !in src && y in spans && y != x
    ensures Copies(spans[x := spans[y]], seg + [x], src + [y])
  {
  }

  /** While copies go in between p and q, each original is followed by the next one, except across
      the place where the copies go. */
  lemma NextOriginal(l: Links, head: Line, p: seq<Line>, seg: seq<Line>, q: seq<Line>, j: nat)
    requires Ring(l, head, p + seg + q) && j + 1 < |p + q| && j + 1 != |p|
    ensures (p + q)[j] in l.forw && l.forw[(p + q)[j]] == (p + q)[j + 1]
  {
    var live, k := p + seg + q, if j < |p| then j + 1 else j + 1 + |seg|;
    RingNeighbours(l, head, live, k);
    assert Nth(head, live, k) == (p + q)[j];
    assert Nth(head, live, k + 1) == (p + q)[j + 1];
  }

  /** Each original is a line of the buffer with a text. */
  lemma OriginalIsLive(l: Links, head: Line, p: seq<Line>, seg: seq<Line>, q: seq<Line>, j: nat,
                       spans: map<Line, Span>, sfile: seq<char>)
    requires Ring(l, head, p + seg + q) && j < |p + q| && TextsIn(spans, sfile, head, l.forw.Keys)
    ensures var y := (p + q)[j];
            y in l.forw && y in spans && spans[y].seek + spans[y].len <= |sfile|
  {
    var live, k := p + seg + q, if j < |p| then j + 1 else j + 1 + |seg|;
    RingNeighbours(l, head, live, k);
    assert Nth(head, live, k) == (p + q)[j] == live[k - 1];
    DistinctCut([head], live);
    assert head in [head];
    assert Has(l.forw.Keys, live[k - 1]);
  }

  /** All about texts when one copy more is made. */
  lemma CopyKept(sp0: map<Line, Span>, nodes0: set<Line>, sp: map<Line, Span>, nodes: set<Line>, sfile: seq<char>,
                 seg: seq<Line>, src: seq<Line>, x: Line, y: Line)
    requires Extends(sp0, sfile, sp, sfile, nodes0) && nodes0 <= nodes && x !in nodes
    requires Copies(sp, seg, src) && y in sp && y in nodes
    requires (forall z :: z in seg ==> z in nodes) && (forall z :: z in src ==> z in nodes)
    ensures Extends(sp0, sfile, sp[x := sp[y]], sfile, nodes0)
    ensures Copies(sp[x := sp[y]], seg + [x], src + [y])
  {
    CopiesMore(sp, seg, src, x, y);
    ExtendsOne(sp, sfile, nodes, x, sp[y], []);
    assert sfile + [] == sfile;
    ExtendsTrans(sp0, sfile, sp, sfile, nodes, sp[x := sp[y]], sfile, nodes0);
  }

  lemma PrefixGrows(s: seq<Line>, j: nat, end: nat, src: seq<Line>, k: nat)
    requires j <= k < end <= |s| && |src| == k - j && src <= s[j..end]
    ensures src + [s[k]] <= s[j..end]
  {
    assert s[j..end][k - j] == s[k];
  }

  lemma WholePrefix(s: seq<Line>, j: nat, cnt: nat, src: seq<Line>)
    requires j + cnt <= |s| && |src| == cnt && src <= s[j..j + cnt]
    ensures src == s[j..j + cnt]
  {
  }

  lemma FirstOfRest(pre: seq<Line>, post: seq<Line>, m: nat)
    requires m <= |post|
    ensures post != [] ==> |pre| < |pre + post| && (pre + post)[|pre|] == post[0]
    ensures |pre| + m <= |pre + post| && (pre + post)[|pre|..|pre| + m] == post[..m]
  {
  }

  /** The two passes of copy_lines cover the range, and neither crosses addr. */
  lemma CopyRange(live: seq<Line>, first: nat, second: nat, addr: nat, n: nat, m: nat)
    returns (src1: seq<Line>, src2: seq<Line>)
    requires 1 <= first <= second <= |live| && addr <= |live|
    requires if first <= addr < second then n == addr - first + 1 && m == second - addr
             else n == second - first + 1 && m == 0
    ensures var pre, post, j := live[..addr], live[addr..], first - 1;
            && pre + post == live && 0 < n && j + n <= |live| && (addr <= j || j + n <= addr) && m <= |post|
            && src1 == live[j..j + n] && src2 == post[..m] && src1 + src2 == live[j..second]
  {
    src1, src2 := live[first - 1..first - 1 + n], live[addr..][..m];
  }

  /** The copies of two passes together. */
  lemma CopiesJoin(sp0: map<Line, Span>, nodes0: set<Line>, sp1: map<Line, Span>, nodes1: set<Line>,
                   sp2: map<Line, Span>, sfile: seq<char>,
                   seg: seq<Line>, part: seq<Line>, src1: seq<Line>, src2: seq<Line>)
    requires Copies(sp1, seg, src1) && Copies(sp2, part, src2) && nodes0 <= nodes1
    requires Extends(sp0, sfile, sp1, sfile, nodes0) && Extends(sp1, sfile, sp2, sfile, nodes1)
    requires (forall y :: y in seg ==> y in nodes1) && (forall y :: y in src1 ==> y in nodes1)
    ensures Copies(sp2, seg + part, src1 + src2) && Extends(sp0, sfile, sp2, sfile, nodes0)
  {
    ExtendsTrans(sp0, sfile, sp1, sfile, nodes1, sp2, sfile, nodes0);
    forall i | 0 <= i < |seg| ensures seg[i] in sp2 && src1[i] in sp2 && sp2[seg[i]] == sp2[src1[i]] {
      assert seg[i] in seg && src1[i] in src1;
      assert Has(nodes1, seg[i]) && Has(nodes1, src1[i]);
    }
  }
}
