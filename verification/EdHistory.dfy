/** The undo stack of ed as a history of the buffer.

    The stack holds only node pointers.  Its meaning is a log of steps, each saying which block of
    the list was added, deleted or moved; `EncodeAll` is the stack that a log leaves behind, and
    `Replay` is what the loop of pop_undo_stack does to the links when it walks such a stack. */
module EdHistory {
  import opened EdLinks

  /** Types of undo nodes. */
  datatype Kind = UADD | UDEL | UMOV | VMOV

  /** The tag that means the opposite. */
  function Flip(k: Kind): Kind {
    match k
    case UADD => UDEL
    case UDEL => UADD
    case UMOV => VMOV
    case VMOV => UMOV
  }

  /** undo_t */
  datatype Undo = Undo(kind: Kind, h: Line, t: Line)

  /** One change of the list.  Mov exchanges the neighbouring blocks a and b; `up` says which of
      the two was the block being moved (b up, or a down), and lo, hi are the tags of its pair. */
  datatype Step =
    | Add(pre: seq<Line>, seg: seq<Line>, post: seq<Line>)
    | Del(pre: seq<Line>, seg: seq<Line>, post: seq<Line>)
    | Mov(pre: seq<Line>, a: seq<Line>, b: seq<Line>, post: seq<Line>, up: bool, lo: Kind, hi: Kind)

  ghost function Before(st: Step): seq<Line> {
    match st
    case Add(pre, seg, post) => pre + post
    case Del(pre, seg, post) => pre + seg + post
    case Mov(pre, a, b, post, _, _, _) => pre + a + b + post
  }

  ghost function After(st: Step): seq<Line> {
    match st
    case Add(pre, seg, post) => pre + seg + post
    case Del(pre, seg, post) => pre + post
    case Mov(pre, a, b, post, _, _, _) => pre + b + a + post
  }

  ghost function Added(st: Step): seq<Line> {
    if st.Add? then st.seg else []
  }

  ghost function Removed(st: Step): seq<Line> {
    if st.Del? then st.seg else []
  }

  ghost predicate Shaped(st: Step) {
    if st.Mov? then st.a != [] && st.b != [] else st.seg != []
  }

  ghost predicate StepOk(head: Line, st: Step) {
    match st
    case Add(pre, seg, post) => seg != [] && Distinct([head] + (pre + seg + post))
    case Del(pre, seg, post) => seg != [] && Distinct([head] + (pre + seg + post))
    case Mov(pre, a, b, post, _, lo, hi) =>
      && a != [] && b != [] && Distinct([head] + (pre + a + b + post))
      && lo in {UMOV, VMOV} && hi in {UMOV, VMOV}
  }

  /** The stack entries a step leaves, bottom first. */
  ghost function Encode(head: Line, st: Step): seq<Undo> {
    match st
    case Add(_, seg, _) => [Undo(UADD, Succ(head, seg), Pred(head, seg))]
    case Del(_, seg, _) => [Undo(UDEL, Succ(head, seg), Pred(head, seg))]
    case Mov(pre, a, b, post, up, lo, hi) =>
      var p, n := Pred(head, pre), Succ(head, post);
      if up then
        [Undo(lo, Pred(head, a), n), Undo(hi, p, Succ(head, a))]
      else
        [Undo(lo, p, Succ(head, b)), Undo(hi, Pred(head, b), n)]
  }

  ghost predicate StepsOk(head: Line, log: seq<Step>) {
    forall i :: 0 <= i < |log| ==> StepOk(head, log[i])
  }

  /** The stack left by the first k steps of the log. */
  ghost function EncodeUpTo(head: Line, log: seq<Step>, k: nat): seq<Undo>
    requires k <= |log|
  {
    if k == 0 then [] else EncodeUpTo(head, log, k - 1) + Encode(head, log[k - 1])
  }

  ghost function EncodeAll(head: Line, log: seq<Step>): seq<Undo> {
    EncodeUpTo(head, log, |log|)
  }

  /** The list as it was before step i, when the list after the whole log is `live`. */
  ghost function At(log: seq<Step>, live: seq<Line>, i: nat): seq<Line>
    requires i <= |log|
  {
    if i == |log| then live else Before(log[i])
  }

  ghost predicate Chained(log: seq<Step>, live: seq<Line>) {
    forall i {:trigger After(log[i])} :: 0 <= i < |log| ==> After(log[i]) == At(log, live, i + 1)
  }

  /** A removed node never comes back, and an added node was never there before: within a log
      every node lives for one interval of time. */
  ghost predicate Lifetimes(log: seq<Step>, live: seq<Line>) {
    forall i, j {:trigger log[i], At(log, live, j)} :: 0 <= i < |log| && 0 <= j <= |log| ==>
      && (i < j ==> Disjoint(Removed(log[i]), At(log, live, j)))
      && (j <= i ==> Disjoint(Added(log[i]), At(log, live, j)))
  }

  ghost predicate History(head: Line, log: seq<Step>, live: seq<Line>) {
    StepsOk(head, log) && Chained(log, live) && Lifetimes(log, live)
  }

  /** The detached segments when the list stands as it was before step k: what the steps below k
      removed and what the steps from k on added. */
  ghost predicate DeadAt(l: Links, head: Line, log: seq<Step>, k: nat) {
    forall i :: 0 <= i < |log| && ((i < k && log[i].Del?) || (i >= k && log[i].Add?)) ==>
      Detached(l, Pred(head, log[i].pre), log[i].seg, Succ(head, log[i].post))
  }

  /** Links, log and list agree. */
  ghost predicate Coherent(l: Links, head: Line, log: seq<Step>, live: seq<Line>) {
    && Ring(l, head, live)
    && History(head, log, live)
    && DeadAt(l, head, log, |log|)
  }

  // ---- what the undo loop does ----

  ghost function Forw(l: Links, x: Line): Line {
    if x in l.forw then l.forw[x] else x
  }

  ghost function Back(l: Links, x: Line): Line {
    if x in l.back then l.back[x] else x
  }

  /** Undo of the topmost step, as three cases of REQUE. */
  ghost function UndoAdd(l: Links, e: Undo): Links {
    Reque(l, Back(l, e.h), Forw(l, e.t))
  }

  ghost function UndoDel(l: Links, e: Undo): Links {
    var l1 := Reque(l, Back(l, e.h), e.h);
    Reque(l1, e.t, Forw(l1, e.t))
  }

  ghost function UndoMov(l: Links, d: Undo, e: Undo): Links {
    var l1 := Reque(l, d.h, Forw(l, e.h));
    var l2 := Reque(l1, Back(l1, e.t), d.t);
    Reque(l2, e.h, e.t)
  }

  /** Every UMOV or VMOV below n has its partner under it. */
  ghost predicate Paired(stk: seq<Undo>, n: nat)
    requires n <= |stk|
  {
    n == 0 ||
    match stk[n - 1].kind
    case UADD => Paired(stk, n - 1)
    case UDEL => Paired(stk, n - 1)
    case _ => n >= 2 && Paired(stk, n - 2)
  }

  /** The links after the loop has walked the entries below n, reading nothing but pointers. */
  ghost function Replay(l: Links, stk: seq<Undo>, n: nat): Links
    requires n <= |stk| && Paired(stk, n)
    decreases n
  {
    if n == 0 then l else
    match stk[n - 1].kind
    case UADD => Replay(UndoAdd(l, stk[n - 1]), stk, n - 1)
    case UDEL => Replay(UndoDel(l, stk[n - 1]), stk, n - 1)
    case _ => Replay(UndoMov(l, stk[n - 2], stk[n - 1]), stk, n - 2)
  }

  /** The entries below n once the loop has changed their tags in place: an entry flips, but of a
      move pair only the lower one does. */
  ghost function FlipTags(stk: seq<Undo>, n: nat): seq<Undo>
    requires n <= |stk| && Paired(stk, n)
    decreases n
  {
    if n == 0 then [] else
    match stk[n - 1].kind
    case UADD => FlipTags(stk, n - 1) + [FlipEntry(stk[n - 1])]
    case UDEL => FlipTags(stk, n - 1) + [FlipEntry(stk[n - 1])]
    case _ => FlipTags(stk, n - 2) + [FlipEntry(stk[n - 2]), stk[n - 1]]
  }

  ghost function FlipEntry(e: Undo): Undo {
    e.(kind := Flip(e.kind))
  }

  ghost function Reverse<T>(s: seq<T>): seq<T> {
    if s == [] then [] else Reverse(s[1..]) + [s[0]]
  }

  /** pop_undo_stack on links: what the whole walk makes of them. */
  ghost function UndoLinks(l: Links, stk: seq<Undo>): Links {
    if Paired(stk, |stk|) then Replay(l, stk, |stk|) else l
  }

  /** pop_undo_stack on the stack: tags changed in place, then the array reversed. */
  ghost function TurnRound(stk: seq<Undo>): seq<Undo> {
    if Paired(stk, |stk|) then Reverse(FlipTags(stk, |stk|)) else stk
  }

  /** The step that leads back. */
  ghost function Invert(st: Step): Step {
    match st
    case Add(pre, seg, post) => Del(pre, seg, post)
    case Del(pre, seg, post) => Add(pre, seg, post)
    case Mov(pre, a, b, post, up, lo, hi) => Mov(pre, b, a, post, !up, hi, Flip(lo))
  }

  ghost function InvertAll(log: seq<Step>): seq<Step> {
    seq(|log|, i requires 0 <= i < |log| => Invert(log[|log| - 1 - i]))
  }

  ghost predicate Inverts(inv: seq<Step>, log: seq<Step>) {
    && |inv| == |log|
    && forall i, j {:trigger inv[i], log[j]} :: 0 <= i < |log| && j == |log| - 1 - i ==> inv[i] == Invert(log[j])
  }

  // ---- one step back, in each of its three forms ----

  /** A segment detached at step i has no node in the list around step k. */
  lemma Outside(head: Line, log: seq<Step>, live: seq<Line>, k: nat, i: nat)
    requires 0 < k <= |log| && i < |log|
    requires History(head, log, live)
    requires (i < k - 1 && log[i].Del?) || (i >= k && log[i].Add?)
    ensures Distinct(log[i].seg) && head !in log[i].seg
    ensures Disjoint(log[i].seg, At(log, live, k - 1)) && Disjoint(log[i].seg, At(log, live, k))
  {
    assert StepOk(head, log[i]);
    var pre, seg, post := log[i].pre, log[i].seg, log[i].post;
    assert pre + seg + [] + post == pre + seg + post;
    DistinctCut4(head, pre, seg, [], post);
    assert At(log, live, k) == At(log, live, k) && At(log, live, k - 1) == Before(log[k - 1]);
  }

  ghost predicate SameNodes(l: Links, l': Links) {
    l'.forw.Keys == l.forw.Keys && l'.back.Keys == l.back.Keys
  }

  lemma UndoAddStep(l: Links, head: Line, pre: seq<Line>, seg: seq<Line>, post: seq<Line>) returns (l': Links)
    requires seg != [] && Ring(l, head, pre + seg + post)
    ensures l' == UndoAdd(l, Undo(UADD, seg[0], Last(seg)))
    ensures l' == Reque(l, Pred(head, pre), Succ(head, post))
    ensures Ring(l', head, pre + post) && Detached(l', Pred(head, pre), seg, Succ(head, post))
    ensures SameNodes(l, l')
  {
    CutOut(l, head, pre, seg, post);
    l' := Reque(l, Pred(head, pre), Succ(head, post));
  }

  lemma UndoDelStep(l: Links, head: Line, pre: seq<Line>, seg: seq<Line>, post: seq<Line>) returns (l': Links)
    requires Ring(l, head, pre + post) && Detached(l, Pred(head, pre), seg, Succ(head, post))
    requires Distinct([head] + (pre + seg + post))
    ensures l' == UndoDel(l, Undo(UDEL, seg[0], Last(seg)))
    ensures l' == Reque(Reque(l, Pred(head, pre), seg[0]), Last(seg), Succ(head, post))
    ensures Ring(l', head, pre + seg + post)
    ensures SameNodes(l, l')
  {
    assert pre + seg + [] + post == pre + seg + post;
    DistinctCut4(head, pre, seg, [], post);
    PutBack(l, head, pre, seg, post);
    RingGap(l, head, pre, post);
    assert Last(seg) in seg && Pred(head, pre) in [head] + pre;
    l' := Reque(Reque(l, Pred(head, pre), seg[0]), Last(seg), Succ(head, post));
  }

  /** The six pointers at the three gaps of pre + a + b + post. */
  lemma Gaps(l: Links, head: Line, pre: seq<Line>, a: seq<Line>, b: seq<Line>, post: seq<Line>)
    requires a != [] && b != []
    requires Ring(l, head, pre + a + b + post)
    ensures Linked(l, Pred(head, pre), a[0]) && Linked(l, Last(a), b[0]) && Linked(l, Last(b), Succ(head, post))
    ensures Pred(head, pre) != Last(a) && Last(a) != Last(b) && Pred(head, pre) != Last(b)
    ensures a[0] != b[0] && b[0] != Succ(head, post) && a[0] != Succ(head, post)
  {
    DistinctCut4(head, pre, a, b, post);
    assert [head] + (pre + a + b + post) + [head] == ([head] + pre) + a + (b + (post + [head]));
    PathCut3(l, [head] + pre, a, b + (post + [head]));
    PathCut(l, b, post + [head]);
    assert Pred(head, pre) in [head] + pre && Succ(head, post) in post + [head];
    assert Last(a) in a && Last(b) in b && a[0] in a && b[0] in b;
  }

  lemma UndoMovStep(l: Links, head: Line, st: Step) returns (l': Links)
    requires st.Mov? && StepOk(head, st) && Ring(l, head, After(st))
    ensures l' == UndoMov(l, Encode(head, st)[0], Encode(head, st)[1])
    ensures l' == Exchanged(l, Pred(head, st.pre), st.b, st.a, Succ(head, st.post))
    ensures Ring(l', head, Before(st))
    ensures SameNodes(l, l')
  {
    var p, n, a, b := Pred(head, st.pre), Succ(head, st.post), st.a, st.b;
    Exchange(l, head, st.pre, b, a, st.post);
    Gaps(l, head, st.pre, b, a, st.post);
    l' := Exchanged(l, p, b, a, n);
    var m := UndoMov(l, Encode(head, st)[0], Encode(head, st)[1]);
    assert m.forw == l'.forw;
    assert m.back == l'.back;
  }

  /** Nothing about x differs between l and l'. */
  ghost predicate Same(l: Links, l': Links, x: Line) {
    && (x in l.forw ==> x in l'.forw && l'.forw[x] == l.forw[x])
    && (x in l.back ==> x in l'.back && l'.back[x] == l.back[x])
  }

  /** A change confined to the lists around step k leaves the other detached segments alone. */
  lemma OthersStayDetached(l: Links, l': Links, head: Line, log: seq<Step>, live: seq<Line>, k: nat)
    requires 0 < k <= |log|
    requires History(head, log, live) && DeadAt(l, head, log, k)
    requires forall x :: x != head && x !in At(log, live, k - 1) && x !in At(log, live, k) ==> Same(l, l', x)
    ensures forall i :: 0 <= i < |log| && ((i < k - 1 && log[i].Del?) || (i >= k && log[i].Add?)) ==>
              Detached(l', Pred(head, log[i].pre), log[i].seg, Succ(head, log[i].post))
  {
    forall i | 0 <= i < |log| && ((i < k - 1 && log[i].Del?) || (i >= k && log[i].Add?))
      ensures Detached(l', Pred(head, log[i].pre), log[i].seg, Succ(head, log[i].post))
    {
      Outside(head, log, live, k, i);
      var seg := log[i].seg;
      DetachedKept(l, l', Pred(head, log[i].pre), seg, Succ(head, log[i].post));
    }
  }

  lemma DetachedKept(l: Links, l': Links, p: Line, seg: seq<Line>, n: Line)
    requires Detached(l, p, seg, n)
    requires forall x :: x in seg ==> Same(l, l', x)
    ensures Detached(l', p, seg, n)
  {
    forall i, j | 0 <= i && j == i + 1 && j < |seg|
      ensures Linked(l', seg[i], seg[j])
    {
      assert Linked(l, seg[i], seg[j]);
      assert Same(l, l', seg[i]) && Same(l, l', seg[j]);
    }
    assert Same(l, l', seg[0]) && Same(l, l', Last(seg));
  }

  /** Undoing the step below k takes the list from At(k) to At(k - 1), detaches what the step had
      added and leaves every other detached segment alone. */
  lemma UndoStep(l: Links, head: Line, log: seq<Step>, live: seq<Line>, k: nat) returns (l': Links)
    requires 0 < k <= |log|
    requires History(head, log, live)
    requires Ring(l, head, At(log, live, k)) && DeadAt(l, head, log, k)
    ensures l' == UndoOne(l, head, log[k - 1]) && SameNodes(l, l')
    ensures Ring(l', head, At(log, live, k - 1)) && DeadAt(l', head, log, k - 1)
  {
    var st := log[k - 1];
    assert After(st) == At(log, live, k);
    l' := UndoOneStep(l, head, st);
    OthersStayDetached(l, l', head, log, live, k);
  }

  ghost function UndoOne(l: Links, head: Line, st: Step): Links {
    var es := Encode(head, st);
    match st
    case Add(_, _, _) => UndoAdd(l, es[0])
    case Del(_, _, _) => UndoDel(l, es[0])
    case Mov(_, _, _, _, _, _, _) => UndoMov(l, es[0], es[1])
  }

  lemma UndoOneStep(l: Links, head: Line, st: Step) returns (l': Links)
    requires StepOk(head, st) && Ring(l, head, After(st))
    requires st.Del? ==> Detached(l, Pred(head, st.pre), st.seg, Succ(head, st.post))
    ensures l' == UndoOne(l, head, st) && Ring(l', head, Before(st)) && SameNodes(l, l')
    ensures st.Add? ==> Detached(l', Pred(head, st.pre), st.seg, Succ(head, st.post))
    ensures forall x :: x != head && x !in Before(st) && x !in After(st) ==> Same(l, l', x)
  {
    match st
    case Add(pre, seg, post) => l' := UndoAddStep(l, head, pre, seg, post);
    case Del(pre, seg, post) => l' := UndoDelStep(l, head, pre, seg, post);
    case Mov(pre, a, b, post, _, _, _) => l' := UndoMovStep(l, head, st);
  }
}
