/** The global commands g and v: which lines they collect, and which of these they visit while the
    command list edits the very buffer they stand in. */
module EdGlobal {
  import opened EdLinks
  import opened EdTables
  import opened EdEffects
  import opened EdBuffer
  import opened EdEdits
  import opened EdCommands
  import opened EdTrace
  import opened EdTour
  import opened Sequences
  import M = EdModel

  // ---- executing ----

  /** Where a global command began: with these lines collected, this list and these marks, and this printed. */
  datatype Start = Start(matched: seq<Line>, first: seq<Line>, marks: seq<Line>, printed: seq<Text>)

  /** A global command is under way: the active list has followed all that was done. */
  ghost predicate GlobalOk(e: Editor, g: Start, deeds: seq<Deed>)
    reads e, e.marks, e.marks.mark, e.active
  {
    && e.Valid() && e.isGlobal
    && StruckOff(e.active.list, g.matched, deeds) && Consecutive(deeds, g.first)
    && e.live == ListAfter(deeds, g.first, |deeds|) && e.Saved() == SavedAfter(deeds, g.first, |deeds|)
    && e.marks.mark[..] == MarksRun(g.marks, deeds, |deeds|) && e.printed == g.printed + M.PrintedBy(Commands(deeds))
  }

  /** One command of the list. */
  method ExecOne(e: Editor, c: M.Command, ghost g: Start, ghost deeds: seq<Deed>) returns (status: int, ghost d: Deed)
    requires GlobalOk(e, g, deeds)
    modifies e, e.marks, e.marks.mark, e.active
    ensures GlobalOk(e, g, deeds + [d]) && (IsUndo(d) || e.active.ptr == old(e.active.ptr))
    ensures M.Wf(old(State(e))) && (State(e), status) == M.Execute(c, old(State(e)), true)
    ensures d.done == M.Done(c, old(Now(e)), status)
  {
    hide Relisted, Block, M.Execute, M.Output, M.PrintedBy, Consecutive, SavedAfter, ListAfter, MarkSet, Tracked;
    ghost var v, block := Now(e), Block(c, Now(e), e.live);
    ghost var gone, list, was := [], e.active.list, e.live;
    status, gone := ExecCommand(e, c);
    d := Deed(M.Done(c, v, status), was, e.live, block);
    assert !IsUndo(d) ==> Tracked(e, old(e.links).forw.Keys, was, list, block, gone);
    GoneAreHit(e, old(e.links).forw.Keys, list, d, gone);
    StruckOffOneMore(list, e.active.list, g.matched, deeds, d, gone);
    ConsecutiveOneMore(deeds, d, g.first);
    ListAfterOneMore(deeds, d, g.first);
    SavedOneMore(deeds, d, g.first, |deeds|);
    MarksOneMore(g.marks, deeds, d, |deeds|);
    PrintedOneMore(deeds, d, g.printed);
  }

  lemma {:induction false} PrintedOneMore(deeds: seq<Deed>, d: Deed, printed: seq<Text>)
    ensures printed + M.PrintedBy(Commands(deeds + [d]))
            == (printed + M.PrintedBy(Commands(deeds))) + M.Output(d.done.c, d.done.v)
  {
    CommandsOneMore(deeds, d);
    assert (Commands(deeds) + [d.done])[..|deeds|] == Commands(deeds);
  }

  lemma GoneAreHit(e: Editor, nodes: set<Line>, list: seq<Line>, d: Deed, gone: seq<Line>)
    requires d.now == e.live
    ensures Tracked(e, nodes, d.was, list, d.block, gone) ==>
              e.active.list == Struck(list, gone) && forall x :: x in gone <==> Hit(d, x)
  {
  }

  lemma {:induction false} ListOneMore(cs: seq<M.Command>, i: nat, j: nat, s: M.State)
    requires M.Wf(s) && i < |cs| && j == i + 1
    ensures var r := M.ExecList(cs[..i], s, true);
            r.1 >= 0 ==>
              && M.ExecList(cs[..j], s, true) == M.Execute(cs[i], r.0, true)
              && M.ListDone(cs[..j], s, true)
                 == M.ListDone(cs[..i], s, true) + [M.Done(cs[i], r.0.now, M.Execute(cs[i], r.0, true).1)]
  {
    hide M.Execute;
    assert cs[..j][..i] == cs[..i];
  }

  lemma {:induction false} ListStops(cs: seq<M.Command>, i: nat, s: M.State)
    requires M.Wf(s) && i <= |cs|
    ensures M.ExecList(cs[..i], s, true).1 < 0 ==>
              && M.ExecList(cs, s, true) == M.ExecList(cs[..i], s, true)
              && M.ListDone(cs, s, true) == M.ListDone(cs[..i], s, true)
  {
    hide M.Execute;
    if i == |cs| {
      assert cs[..i] == cs;
    } else {
      assert cs[..|cs| - 1][..i] == cs[..i];
      ListStops(cs[..|cs| - 1], i, s);
    }
  }

  /** The first i commands of the list have been executed. */
  ghost predicate ListUnderway(e: Editor, cs: seq<M.Command>, i: nat, s: M.State, status: int, g: Start,
                               deeds: seq<Deed>, done: seq<M.Done>)
    reads e, e.marks, e.marks.mark, e.active
  {
    && i <= |cs| && M.Wf(s) && GlobalOk(e, g, deeds) && (State(e), status) == M.ExecList(cs[..i], s, true)
    && Commands(deeds) == done + M.ListDone(cs[..i], s, true)
  }

  /** What one command more makes of the commands executed. */
  lemma {:induction false} UnderwayOneMore(cs: seq<M.Command>, i: nat, j: nat, s: M.State, deeds: seq<Deed>, d: Deed,
                                           done: seq<M.Done>)
    requires M.Wf(s) && i < |cs| && j == i + 1
    ensures var r := M.ExecList(cs[..i], s, true);
            r.1 >= 0 && d.done == M.Done(cs[i], r.0.now, M.Execute(cs[i], r.0, true).1)
            && Commands(deeds) == done + M.ListDone(cs[..i], s, true) ==>
              && M.ExecList(cs[..j], s, true) == M.Execute(cs[i], r.0, true)
              && Commands(deeds + [d]) == done + M.ListDone(cs[..j], s, true)
    ensures Undone(deeds) ==> Undone(deeds + [d])
    ensures IsUndo(d) ==> Undone(deeds + [d])
  {
    hide M.Execute;
    ListOneMore(cs, i, j, s);
    CommandsOneMore(deeds, d);
    UndoneOneMore(deeds, d);
  }

  lemma ListStarts(s: M.State)
    requires M.Wf(s)
    ensures M.ExecList([], s, true) == (s, 0) && M.ListDone([], s, true) == []
  {
  }

  /** The command list of one line, up to its end or the first error. */
  method ExecCommandList(e: Editor, cs: seq<M.Command>, ghost g: Start, ghost deeds: seq<Deed>)
    returns (status: int, ghost deeds': seq<Deed>)
    requires GlobalOk(e, g, deeds)
    modifies e, e.marks, e.marks.mark, e.active
    ensures deeds <= deeds' && GlobalOk(e, g, deeds')
    ensures (Undone(deeds') || e.active.ptr == old(e.active.ptr))
    ensures M.Wf(old(State(e))) && (State(e), status) == M.ExecList(cs, old(State(e)), true)
    ensures Commands(deeds') == Commands(deeds) + M.ListDone(cs, old(State(e)), true)
  {
    hide M.Execute, M.ExecList, M.ListDone, Editor.Valid, Undone, Commands, Consecutive, StruckOff, SavedAfter;
    hide MarksRun;
    StateWf(e);
    ghost var s, done := State(e), Commands(deeds);
    ListStarts(s);
    deeds' := deeds;
    status := 0;
    var i := 0;
    assert cs[..0] == [];
    while i < |cs|
      invariant 0 <= i <= |cs| && deeds <= deeds' && status >= 0
      invariant (Undone(deeds') || e.active.ptr == old(e.active.ptr))
      invariant ListUnderway(e, cs, i, s, status, g, deeds', done)
    {
      var next := i + 1;
      ghost var before := deeds';
      ghost var d;
      status, d := ExecOne(e, cs[i], g, before);
      UnderwayOneMore(cs, i, next, s, before, d, done);
      deeds' := before + [d];
      if status < 0 {
        ListStops(cs, next, s);
        return;
      }
      i := next;
    }
    assert cs[..|cs|] == cs;
  }

  // ---- exec_global ----

  /** get_line_node_addr of a line of the list is its true address, and makes it current. */
  method GoTo(e: Editor, lp: Line) returns (addr: int)
    requires e.Valid() && lp in e.live
    modifies e`currentAddr
    ensures e.Valid() && 1 <= addr <= |e.live| && e.live[addr - 1] == lp
    ensures KeptView(e) == old(KeptView(e)) && Now(e) == old(Now(e)).(dot := addr) && addr <= |Now(e).text|
  {
    addr := e.GetLineNodeAddr(lp);
    e.currentAddr := addr;
  }

  /** The same, during a global command. */
  method GoToLine(e: Editor, lp: Line, ghost g: Start, ghost deeds: seq<Deed>) returns (addr: int)
    requires GlobalOk(e, g, deeds) && lp in e.live
    modifies e`currentAddr
    ensures GlobalOk(e, g, deeds) && 1 <= addr <= |e.live| && e.live[addr - 1] == lp
    ensures KeptView(e) == old(KeptView(e)) && Now(e) == old(Now(e)).(dot := addr) && addr <= |Now(e).text|
  {
    hide Editor.Valid, Consecutive, StruckOff, SavedAfter, MarksRun, ListAfter;
    addr := GoTo(e, lp);
  }

  lemma OrderedSuffix(list: seq<Line>, p: nat, q: nat, live: seq<Line>)
    requires p <= q <= |list| && Ordered(list[p..], live)
    ensures Ordered(list[q..], live)
    ensures p < q && list[q - 1] != NULL ==> list[q - 1] in live
  {
    assert list[q..] == list[p..][q - p..];
    if p < q {
      assert list[q - 1] == list[p..][q - 1 - p];
    }
  }

  /** What it means that entries of the active list are empty, and that one is not. */
  lemma PassedOver(list: seq<Line>, matched: seq<Line>, deeds: seq<Deed>, p: nat, k: nat)
    requires StruckOff(list, matched, deeds) && NULL !in matched
    requires p <= k <= |list| && forall i :: p <= i < k ==> list[i] == NULL
    ensures Undone(deeds) ==> k == |list|
    ensures !Undone(deeds) ==> |list| == |matched| && forall m :: p <= m < k ==> HitBy(deeds, |deeds|, matched[m])
    ensures k < |list| && list[k] != NULL ==> list[k] == matched[k] && !HitBy(deeds, |deeds|, matched[k])
  {
  }

  /** next_active_node, in a buffer where every active line is in the list. */
  method NextLive(e: Editor) returns (lp: Line, ghost k: nat)
    requires e.Valid() && e.isGlobal
    modifies e.active`ptr
    ensures e.Valid() && old(e.active.ptr) <= k <= |e.active.list|
    ensures forall i :: old(e.active.ptr) <= i < k ==> e.active.list[i] == NULL
    ensures if lp == NULL then k == |e.active.list|
            else k < |e.active.list| && e.active.list[k] == lp && lp in e.live && e.active.ptr == k + 1
  {
    ghost var list, p := e.active.list, e.active.ptr;
    lp := e.active.NextActiveNode();
    k := if lp == NULL then e.active.ptr else e.active.ptr - 1;
    OrderedSuffix(list, p, e.active.ptr, e.live);
  }

  /** The next line to visit: in the list, not hit by any command so far, and all that were passed over
      have been hit. */
  method NextLineToVisit(e: Editor, ghost g: Start, ghost deeds: seq<Deed>)
    returns (lp: Line, ghost k: nat)
    requires GlobalOk(e, g, deeds) && NULL !in g.matched
    modifies e.active`ptr
    ensures GlobalOk(e, g, deeds) && old(e.active.ptr) <= k
    ensures Undone(deeds) ==> lp == NULL
    ensures !Undone(deeds) ==> k <= |g.matched|
    ensures !Undone(deeds) ==> forall m :: old(e.active.ptr) <= m < k ==> HitBy(deeds, |deeds|, g.matched[m])
    ensures lp == NULL && !Undone(deeds) ==> k == |g.matched|
    ensures lp != NULL ==>
      lp in e.live && k < |g.matched| && lp == g.matched[k] && e.active.ptr == k + 1 && !HitBy(deeds, |deeds|, lp)
  {
    ghost var list, p := e.active.list, e.active.ptr;
    lp, k := NextLive(e);
    PassedOver(list, g.matched, deeds, p, k);
  }

  /** The loop of exec_global after these visits. */
  ghost predicate GlobalLoop(e: Editor, script: seq<seq<M.Command>>, s: M.State, status: int, g: Start,
                             deeds: seq<Deed>, visits: seq<Visit>)
    reads e, e.marks, e.marks.mark, e.active
  {
    && GlobalOk(e, g, deeds) && VisitsOk(visits, g.matched, deeds, g.first)
    && (Undone(deeds) || e.active.ptr == Resume(visits, |visits|))
    && M.Wf(s) && (State(e), status) == M.RunVisits(Route(visits), script, s)
    && Commands(deeds) == M.VisitsDone(Route(visits), script, s) && Timed(visits, script, s)
  }

  /** One turn of the loop of exec_global. */
  method VisitLine(e: Editor, lp: Line, cs: seq<M.Command>, ghost k: nat, ghost script: seq<seq<M.Command>>,
                   ghost s: M.State, ghost status: int, ghost g: Start, ghost deeds: seq<Deed>,
                   ghost visits: seq<Visit>)
    returns (status': int, ghost deeds': seq<Deed>, ghost visits': seq<Visit>)
    requires GlobalOk(e, g, deeds) && VisitsOk(visits, g.matched, deeds, g.first)
    requires M.Wf(s) && (State(e), status) == M.RunVisits(Route(visits), script, s) && status >= 0
    requires Commands(deeds) == M.VisitsDone(Route(visits), script, s) && Timed(visits, script, s)
    requires Resume(visits, |visits|) <= k < |g.matched| && lp == g.matched[k] && lp in e.live && e.active.ptr == k + 1
    requires !Undone(deeds) && !HitBy(deeds, |deeds|, lp)
    requires forall m :: Resume(visits, |visits|) <= m < k ==> HitBy(deeds, |deeds|, g.matched[m])
    requires cs == M.ListFor(script, |visits|)
    modifies e, e.marks, e.marks.mark, e.active
    ensures deeds <= deeds' && |visits'| == |visits| + 1
    ensures visits' == visits + [visits'[|visits|]] && visits'[|visits|].k == k
    ensures GlobalLoop(e, script, s, status', g, deeds', visits')
  {
    hide DeedOk, M.Execute, M.ExecList, M.RunVisits, M.ListDone, M.VisitsDone, Timed, VisitsOk, Editor.Valid;
    var addr := GoToLine(e, lp, g, deeds);
    ghost var v := Visit(k, addr, |deeds|);
    assert deeds[..|deeds|] == deeds;
    status', deeds' := ExecCommandList(e, cs, g, deeds);
    visits' := visits + [v];
    VisitsOneMore(visits, v, g.matched, deeds, deeds', g.first);
    ResumeOneMore(visits, v, |visits|);
    RunOneMore(visits, v, script, s);
    TimedOneMore(visits, v, script, s);
  }

  lemma StartOfGlobal(list: seq<Line>, live: seq<Line>, marks: seq<Line>, script: seq<seq<M.Command>>, s: M.State)
    requires M.Wf(s)
    ensures StruckOff(list, list, []) && Consecutive([], live) && ListAfter([], live, 0) == live
    ensures SavedAfter([], live, 0) == live && MarksRun(marks, [], 0) == marks
    ensures VisitsOk([], list, [], live) && Timed([], script, s)
    ensures M.RunVisits(Route([]), script, s) == (s, 0)
    ensures Commands([]) == M.VisitsDone(Route([]), script, s) && M.PrintedBy(Commands([])) == []
  {
  }

  /** exec_global: the command list is run on a subsequence of the lines collected, in their order, each
      visited once and at its true address; passed over are exactly those that were deleted or moved
      before their turn, and, once a u has emptied the active list, all that are left (`VisitedExactly`). */
  method ExecGlobal(e: Editor, script: seq<seq<M.Command>>)
    returns (status: int, ghost deeds: seq<Deed>, ghost visits: seq<Visit>)
    requires e.Valid() && e.isGlobal && e.active.ptr == 0 && NULL !in e.active.list
    modifies e, e.marks, e.marks.mark, e.active
    ensures e.Valid() && e.isGlobal
    ensures VisitsRight(script, old(Now(e)), old(e.live), old(e.active.list), deeds, visits)
    ensures e.live == ListAfter(deeds, old(e.live), |deeds|) && e.Saved() == SavedAfter(deeds, old(e.live), |deeds|)
    ensures e.marks.mark[..] == MarksRun(Within(old(e.marks.mark[..]), Elems(old(e.live))), deeds, |deeds|)
    ensures e.printed == old(e.printed) + M.PrintedBy(Commands(deeds))
    ensures var v := old(Now(e));
            && M.Wf(M.State(v, M.Kept(v)))
            && (State(e), status) == M.RunVisits(Route(visits), script, M.State(v, M.Kept(v)))
  {
    hide Editor.Valid, VisitsOk, Timed, Undone, M.VisitsDone, M.RunVisits;
    ghost var matched, first := e.active.list, e.live;
    StateWf(e);
    ClearStack(e);
    ghost var s, g := State(e), Start(matched, first, e.marks.mark[..], e.printed);
    StateWf(e);
    StartOfGlobal(matched, first, g.marks, script, s);
    status, deeds, visits := 0, [], [];
    var i := 0;
    while true
      invariant i == |visits| && status >= 0
      invariant GlobalLoop(e, script, s, status, g, deeds, visits)
      decreases |matched| - Resume(visits, |visits|)
    {
      var lp;
      ghost var k;
      lp, k := NextLineToVisit(e, g, deeds);
      if lp == NULL {
        break;
      }
      status, deeds, visits := VisitLine(e, lp, M.ListFor(script, i), k, script, s, status, g, deeds, visits);
      if status < 0 {
        return;
      }
      i := i + 1;
    }
  }

  // ---- build_active_list ----

  /** The loop of build_active_list has come to line n. */
  ghost predicate Collecting(e: Editor, lp: Line, first: nat, n: nat, second: nat, s: M.State, pat: Text -> bool,
                             sense: bool)
    reads e, e.marks, e.marks.mark, e.active
  {
    && e.Valid() && !e.isGlobal && State(e) == s && |e.live| == |s.now.text| && e.active.ptr == 0
    && 1 <= n <= second + 1 && second <= |e.live| && (n <= second ==> lp == e.live[n - 1])
    && Collected(e.live, s.now.text, first, n, pat, sense, e.active.list)
  }

  /** The line joins the active list if its text is of the kind sought. */
  method CollectIf(e: Editor, lp: Line, pat: Text -> bool, sense: bool, ghost n: nat)
    requires e.Valid() && !e.isGlobal && 1 <= n <= e.addrLast && lp == e.live[n - 1] && lp !in e.active.list
    modifies e`sfseek, e`sfpos, e`seekWrite, e.active`list
    ensures e.Valid() && State(e) == old(State(e)) && n <= |Now(e).text|
    ensures e.active.list == old(e.active.list) + if pat(Now(e).text[n - 1]) == sense then [lp] else []
  {
    NodeNotNull(e, n);
    var text := ReadNode(e, lp, n);
    if pat(text) == sense {
      e.active.SetActiveNode(lp);
    }
  }

  lemma ListIsRing(e: Editor)
    requires e.Valid()
    ensures Ring(e.links, e.head, e.live) && e.addrLast == |e.live|
  {
  }

  /** One turn of that loop. */
  method CollectLine(e: Editor, lp: Line, pat: Text -> bool, sense: bool, ghost first: nat, ghost n: nat,
                     ghost n': nat, ghost second: nat, ghost s: M.State)
    returns (lp': Line)
    requires Collecting(e, lp, first, n, second, s, pat, sense) && n <= second && n' == n + 1
    modifies e`sfseek, e`sfpos, e`seekWrite, e.active`list
    ensures Collecting(e, lp', first, n', second, s, pat, sense)
  {
    hide Collected, Editor.Valid;
    ListIsRing(e);
    CollectNext(e.live, e.head, s.now.text, first, n, n', pat, sense, e.active.list);
    RangeWalk(e.links, e.head, e.live, n, second);
    CollectIf(e, lp, pat, sense, n);
    lp' := e.links.forw[lp];
  }

  method StartCollecting(e: Editor, first: nat, second: nat, ghost pat: Text -> bool, ghost sense: bool)
    returns (lp: Line)
    requires e.Valid() && !e.isGlobal && 1 <= first <= second <= e.addrLast
    modifies e`lp, e`on, e.active
    ensures Collecting(e, lp, first, first, second, old(State(e)), pat, sense)
  {
    e.active.Clear();
    lp := e.GetAddressedLineNode(first);
  }

  /** build_active_list */
  method BuildActiveList(e: Editor, first: nat, second: nat, pat: Text -> bool, sense: bool)
    requires e.Valid() && !e.isGlobal && 1 <= first <= second <= e.addrLast
    modifies e`lp, e`on, e`sfseek, e`sfpos, e`seekWrite, e.active
    ensures e.Valid() && State(e) == old(State(e))
    ensures Collected(e.live, Now(e).text, first, second + 1, pat, sense, e.active.list) && e.active.ptr == 0
  {
    hide Collected, Editor.Valid;
    ghost var s := State(e);
    var lp := StartCollecting(e, first, second, pat, sense);
    var n := first;
    while n <= second
      invariant n <= second + 1 && Collecting(e, lp, first, n, second, s, pat, sense)
    {
      var next := n + 1;
      lp := CollectLine(e, lp, pat, sense, first, n, next, second, s);
      n := next;
    }
  }

  // ---- the top level ----

  method MarkGlobal(e: Editor, first: nat, n: nat, ghost pat: Text -> bool, ghost sense: bool)
    requires e.Valid() && e.active.ptr == 0 && Collected(e.live, Now(e).text, first, n, pat, sense, e.active.list)
    modifies e`isGlobal
    ensures e.Valid() && e.isGlobal && State(e) == old(State(e)) && NULL !in e.active.list
  {
    CollectedInOrder(e.live, e.head, Now(e).text, first, n, pat, sense, e.active.list);
    if NULL in e.active.list {
      assert NULL in e.live[first - 1..n - 1];
      NullNotLive(e);
    }
    e.isGlobal := true;
  }

  lemma NullNotLive(e: Editor)
    requires e.Valid()
    ensures NULL !in e.live
  {
    NullOutside(e);
  }

  lemma LiveDistinct(e: Editor)
    requires e.Valid()
    ensures Distinct(e.live) && |Now(e).text| == e.addrLast
  {
    DistinctCut([e.head], e.live);
  }

  /** What a global command has done on lines first to second, from view v, list live and marks m on: its trace,
      the lists and the marks it leaves, and the state and status of its model. */
  ghost predicate Performed(g: M.Entry, first: nat, second: nat, v: M.View, live: seq<Line>, m: seq<Line>, e: Editor,
                            status: int, matched: seq<Line>, deeds: seq<Deed>, visits: seq<Visit>)
    requires g.Global?
    reads e, e.marks, e.marks.mark
  {
    var s := M.State(v, M.Kept(v));
    && Collected(live, v.text, first, second + 1, g.pat, g.sense, matched)
    && VisitsRight(g.script, v, live, matched, deeds, visits)
    && e.live == ListAfter(deeds, live, |deeds|) && e.Saved() == SavedAfter(deeds, live, |deeds|)
    && e.marks.mark[..] == MarksRun(Within(m, Elems(live)), deeds, |deeds|)
    && M.Wf(s) && (State(e), status) == M.RunVisits(Route(visits), g.script, s)
  }

  /** The lines of the range that match are collected, and visited. */
  method GlobalOnRange(e: Editor, g: M.Entry, first: nat, second: nat)
    returns (status: int, ghost matched: seq<Line>, ghost deeds: seq<Deed>, ghost visits: seq<Visit>)
    requires e.Valid() && !e.isGlobal && 1 <= first <= second <= e.addrLast && |Now(e).text| == e.addrLast
    requires g.Global?
    modifies e, e.marks, e.marks.mark, e.active
    ensures e.Valid()
    ensures var v, m := old(Now(e)), old(e.marks.mark[..]);
            Performed(g, first, second, v, old(e.live), m, e, status, matched, deeds, visits)
    ensures e.printed == old(e.printed) + M.PrintedBy(Commands(deeds))
  {
    hide Editor.Valid, Collected, M.RunVisits, M.GlobalRange, VisitsRight, ListAfter, SavedAfter, MarksRun, Within;
    BuildActiveList(e, first, second, g.pat, g.sense);
    matched := e.active.list;
    MarkGlobal(e, first, second + 1, g.pat, g.sense);
    status, deeds, visits := ExecGlobal(e, g.script);
  }

  lemma {:induction false} RightCommands(script: seq<seq<M.Command>>, v: M.View, live: seq<Line>, matched: seq<Line>,
                                         deeds: seq<Deed>, visits: seq<Visit>)
    requires VisitsRight(script, v, live, matched, deeds, visits)
    ensures var s := M.State(v, M.Kept(v)); M.Wf(s) && Commands(deeds) == M.VisitsDone(Route(visits), script, s)
  {
  }

  /** g and v: what the command list does to the lines of the range that match, or do not. */
  method GlobalCommand(e: Editor, g: M.Entry)
    returns (status: int, ghost matched: seq<Line>, ghost deeds: seq<Deed>, ghost visits: seq<Visit>)
    requires e.Valid() && !e.isGlobal && g.Global?
    modifies e, e.marks, e.marks.mark, e.active
    ensures e.Valid() && M.Wf(old(State(e))) && (State(e), status) == M.ExecuteGlobal(g, old(State(e)))
    ensures e.printed == old(e.printed) + M.Prints(g, old(State(e)))
    ensures var v := old(Now(e));
            var first, second := if g.at.cnt == 0 then 1 else g.at.first,
                                 if g.at.cnt == 0 then |v.text| else g.at.second;
            if 1 <= first <= second <= |v.text| then
              Performed(g, first, second, v, old(e.live), old(e.marks.mark[..]), e, status, matched, deeds, visits)
            else
              && status == ERR && State(e) == old(State(e)) && e.printed == old(e.printed)
              && e.live == old(e.live) && e.Saved() == old(e.Saved()) && e.marks.mark[..] == old(e.marks.mark[..])
  {
    hide Editor.Valid, Collected, M.RunVisits, M.Visited, VisitsRight, ListAfter, SavedAfter, MarksRun, Distinct;
    hide M.GlobalRange;
    StateWf(e);
    LiveDistinct(e);
    RangeTyped(g.at, e.addrLast);
    ghost var v, live := Now(e), e.live;
    status, matched, deeds, visits := ERR, [], [], [];
    var range := M.GlobalRange(g.at, e.addrLast);
    if range.Some? {
      status, matched, deeds, visits := GlobalOnRange(e, g, range.value.0, range.value.1);
      Determined(g, v, live, matched, deeds, visits);
      RightCommands(g.script, v, live, matched, deeds, visits);
    } else {
      NothingPrinted(g, State(e));
    }
  }

  /** Without addresses g and v look at all lines, with addresses at those, and if there are none, at nothing. */
  lemma RangeTyped(at: M.Addrs, last: nat)
    ensures var first := if at.cnt == 0 then 1 else at.first;
            var second := if at.cnt == 0 then last else at.second;
            M.GlobalRange(at, last) == if 1 <= first <= second <= last then M.Some((first, second)) else M.None
  {
  }

  lemma NothingPrinted(g: M.Entry, s: M.State)
    requires g.Global? && M.Wf(s) && M.GlobalRange(g.at, |s.now.text|).None?
    ensures M.Prints(g, s) == []
  {
  }

  // ---- sessions ----

  /** The list, and the one that u would bring back. */
  datatype Lists = Lists(now: seq<Line>, saved: seq<Line>)

  /** What a command does to them. */
  ghost predicate CommandLists(c: M.Command, s: M.State, was: Lists, now: Lists)
    requires M.Wf(s)
  {
    && Relisted(c, s.now, was.now, now.now)
    && if !c.Undo? then now.saved == if M.Edits(c, s.now) then was.now else was.saved
       else now == if M.Execute(c, s, false).1 == 0 then Lists(was.saved, was.now) else was
  }

  ghost predicate GlobalLists(g: M.Entry, s: M.State, was: Lists, now: Lists)
    requires g.Global? && M.Wf(s)
  {
    var range := M.GlobalRange(g.at, |s.now.text|);
    if range.None? then now == was
    else exists matched, deeds, visits ::
      && Collected(was.now, s.now.text, range.value.0, range.value.1 + 1, g.pat, g.sense, matched)
      && VisitsRight(g.script, s.now, was.now, matched, deeds, visits)
      && now == Lists(ListAfter(deeds, was.now, |deeds|), SavedAfter(deeds, was.now, |deeds|))
  }

  ghost predicate EntryLists(entry: M.Entry, s: M.State, was: Lists, now: Lists)
    requires M.Wf(s)
  {
    if entry.One? then CommandLists(entry.c, s, was, now) else GlobalLists(entry, s, was, now)
  }

  /** The entry has a k in it that sets the n-th mark. */
  predicate Sets(entry: M.Entry, n: nat) {
    match entry
    case One(c) => SetsMark(c, n)
    case Global(_, _, _, script) =>
      exists i, j :: 0 <= i < |script| && 0 <= j < |script[i]| && SetsMark(script[i][j], n)
  }

  predicate SetsMark(c: M.Command, n: nat) {
    c.Mark? && c.name as int == 'a' as int + n
  }

  /** A mark that an entry does not set stays as it was; only that on a line that had left the list may
      be cleared. */
  ghost predicate MarksStay(entry: M.Entry, m: seq<Line>, m': seq<Line>, live: seq<Line>) {
    && |m'| == |m|
    && forall n :: 0 <= n < |m| && !Sets(entry, n) ==> m'[n] == m[n] || (m'[n] == NULL && m[n] !in live)
  }

  lemma CommandMarks(c: M.Command, status: int, m: seq<Line>, m': seq<Line>, v: M.View, live: seq<Line>)
    requires MarksExec(c, status, m, m', v, live, false)
    ensures MarksStay(M.One(c), m, m', live)
  {
  }

  /** The commands executed are commands of the lists. */
  lemma {:induction false} ListedCommands(cs: seq<M.Command>, s: M.State, i: nat)
    requires M.Wf(s) && i < |M.ListDone(cs, s, true)|
    ensures M.ListDone(cs, s, true)[i].c in cs
  {
    hide M.ExecList, M.Execute;
    var n := |cs| - 1;
    if i < |M.ListDone(cs[..n], s, true)| {
      ListedCommands(cs[..n], s, i);
    }
  }

  lemma {:induction false} ScriptCommands(addrs: seq<nat>, script: seq<seq<M.Command>>, s: M.State, i: nat)
    requires M.Wf(s) && i < |M.VisitsDone(addrs, script, s)|
    ensures exists k :: 0 <= k < |script| && M.VisitsDone(addrs, script, s)[i].c in script[k]
  {
    hide M.RunVisits, M.ListDone;
    var n := |addrs| - 1;
    var d, r := M.VisitsDone(addrs[..n], script, s), M.RunVisits(addrs[..n], script, s);
    if i < |d| {
      ScriptCommands(addrs[..n], script, s, i);
    } else {
      ListedCommands(M.ListFor(script, n), M.State(r.0.now.(dot := addrs[n]), r.0.saved), i - |d|);
    }
  }

  lemma {:induction false} MarksOfRun(m: seq<Line>, deeds: seq<Deed>, k: nat, n: nat)
    requires k <= |deeds| && n < |m| && forall i :: 0 <= i < k ==> !SetsMark(deeds[i].done.c, n)
    ensures |MarksRun(m, deeds, k)| == |m| && MarksRun(m, deeds, k)[n] == m[n]
  {
    if k > 0 {
      MarksOfRun(m, deeds, k - 1, n);
    }
  }

  lemma {:induction false} GlobalMarks(g: M.Entry, m: seq<Line>, live: seq<Line>, deeds: seq<Deed>, addrs: seq<nat>,
                                       s: M.State)
    requires g.Global? && M.Wf(s) && Commands(deeds) == M.VisitsDone(addrs, g.script, s)
    ensures MarksStay(g, m, MarksRun(Within(m, Elems(live)), deeds, |deeds|), live)
  {
    var w := Within(m, Elems(live));
    var m' := MarksRun(w, deeds, |deeds|);
    MarksLength(w, deeds, |deeds|);
    forall n | 0 <= n < |m| && !Sets(g, n) ensures m'[n] == m[n] || (m'[n] == NULL && m[n] !in live) {
      forall i | 0 <= i < |deeds| ensures !SetsMark(deeds[i].done.c, n) {
        assert Commands(deeds)[i] == deeds[i].done;
        ScriptCommands(addrs, g.script, s, i);
      }
      MarksOfRun(w, deeds, |deeds|, n);
    }
  }

  lemma {:induction false} MarksLength(m: seq<Line>, deeds: seq<Deed>, k: nat)
    requires k <= |deeds|
    ensures |MarksRun(m, deeds, k)| == |m|
  {
    if k > 0 {
      MarksLength(m, deeds, k - 1);
    }
  }

  /** One entry: each leaves the buffer in order, and the user sees what the model says. */
  method EnterOne(e: Editor, entry: M.Entry)
    requires e.Valid()
    modifies e, e.marks, e.marks.mark, e.active
    ensures e.Valid() && M.Wf(old(State(e))) && State(e) == M.Enter(entry, old(State(e)))
    ensures e.printed == old(e.printed) + M.Prints(entry, old(State(e)))
    ensures EntryLists(entry, old(State(e)), Lists(old(e.live), old(e.Saved())), Lists(e.live, e.Saved()))
    ensures MarksStay(entry, old(e.marks.mark[..]), e.marks.mark[..], old(e.live))
  {
    hide Editor.Valid, M.Execute, M.ExecuteGlobal, MarksStay, MarksExec, M.VisitsDone, Relisted, GlobalLists, M.Edits;
    StateWf(e);
    EndGlobal(e);
    ghost var s, m, live := State(e), e.marks.mark[..], e.live;
    if entry.One? {
      ghost var gone;
      var status;
      status, gone := ExecCommand(e, entry.c);
      CommandMarks(entry.c, status, m, e.marks.mark[..], s.now, live);
    } else {
      GlobalEntry(e, entry);
    }
  }

  method GlobalEntry(e: Editor, g: M.Entry)
    requires e.Valid() && !e.isGlobal && g.Global?
    modifies e, e.marks, e.marks.mark, e.active
    ensures e.Valid() && M.Wf(old(State(e))) && State(e) == M.ExecuteGlobal(g, old(State(e))).0
    ensures e.printed == old(e.printed) + M.Prints(g, old(State(e)))
    ensures GlobalLists(g, old(State(e)), Lists(old(e.live), old(e.Saved())), Lists(e.live, e.Saved()))
    ensures MarksStay(g, old(e.marks.mark[..]), e.marks.mark[..], old(e.live))
  {
    hide Editor.Valid, M.ExecuteGlobal, M.VisitsDone, M.RunVisits, MarksRun, Collected, ListAfter, SavedAfter;
    hide VisitsRight;
    ghost var v, m, live := Now(e), e.marks.mark[..], e.live;
    ghost var matched, deeds, visits;
    var status;
    status, matched, deeds, visits := GlobalCommand(e, g);
    RangeTyped(g.at, |v.text|);
    if M.GlobalRange(g.at, |v.text|).Some? {
      RightCommands(g.script, v, live, matched, deeds, visits);
      GlobalMarks(g, m, live, deeds, Route(visits), M.State(v, M.Kept(v)));
    }
  }

  /** The lists from before the first entry to after the last one. */
  ghost predicate Trail(entries: seq<M.Entry>, s: M.State, trail: seq<Lists>)
    requires M.Wf(s)
  {
    && |trail| == |entries| + 1
    && forall i :: 0 <= i < |entries| ==> StepOfTrail(entries, s, trail, i)
  }

  ghost predicate StepOfTrail(entries: seq<M.Entry>, s: M.State, trail: seq<Lists>, i: nat)
    requires M.Wf(s) && i < |entries| && i + 1 < |trail|
  {
    EntryLists(entries[i], M.Session(entries[..i], s), trail[i], trail[i + 1])
  }

  lemma {:induction false} TrailOneMore(entries: seq<M.Entry>, entry: M.Entry, s: M.State, trail: seq<Lists>,
                                        lists: Lists)
    requires M.Wf(s) && Trail(entries, s, trail)
    requires EntryLists(entry, M.Session(entries, s), trail[|entries|], lists)
    ensures Trail(entries + [entry], s, trail + [lists])
  {
    hide EntryLists;
    var all, ts := entries + [entry], trail + [lists];
    forall i | 0 <= i < |all| ensures StepOfTrail(all, s, ts, i) {
      assert all[..i] == if i < |entries| then entries[..i] else entries;
      assert i < |entries| ==> StepOfTrail(entries, s, trail, i);
    }
  }

  /** A mark that no entry has set is still the one it was, or else it has been cleared, its line having
      left one of the lists that the entries began with. */
  ghost predicate SessionMarks(entries: seq<M.Entry>, m: seq<Line>, m': seq<Line>, trail: seq<Lists>) {
    && |m'| == |m| && |trail| == |entries| + 1
    && forall n :: 0 <= n < |m| && (forall i :: 0 <= i < |entries| ==> !Sets(entries[i], n)) ==>
         m'[n] == m[n] || (m'[n] == NULL && exists i :: 0 <= i < |entries| && m[n] !in trail[i].now)
  }

  lemma {:induction false} SessionMarksOneMore(entries: seq<M.Entry>, entry: M.Entry, m: seq<Line>, m1: seq<Line>,
                                               m2: seq<Line>, trail: seq<Lists>, lists: Lists)
    requires SessionMarks(entries, m, m1, trail) && MarksStay(entry, m1, m2, trail[|entries|].now)
    ensures SessionMarks(entries + [entry], m, m2, trail + [lists])
  {
    hide Sets;
    var all, ts := entries + [entry], trail + [lists];
    forall n | 0 <= n < |m| && (forall i :: 0 <= i < |all| ==> !Sets(all[i], n))
      ensures m2[n] == m[n] || (m2[n] == NULL && exists i :: 0 <= i < |all| && m[n] !in ts[i].now)
    {
      assert all[|entries|] == entry && ts[|entries|] == trail[|entries|];
      assert forall i :: 0 <= i < |entries| ==> all[i] == entries[i] && ts[i] == trail[i];
    }
  }

  /** Entries typed one after another, which may fail or not. */
  method RunSession(e: Editor, entries: seq<M.Entry>) returns (ghost trail: seq<Lists>)
    requires e.Valid()
    modifies e, e.marks, e.marks.mark, e.active
    ensures e.Valid() && M.Wf(old(State(e))) && State(e) == M.Session(entries, old(State(e)))
    ensures e.printed == old(e.printed) + M.SessionPrints(entries, old(State(e)))
    ensures Trail(entries, old(State(e)), trail)
    ensures trail[0] == Lists(old(e.live), old(e.Saved())) && trail[|entries|] == Lists(e.live, e.Saved())
    ensures SessionMarks(entries, old(e.marks.mark[..]), e.marks.mark[..], trail)
  {
    hide Editor.Valid, M.Enter, M.Prints, SessionMarks, MarksStay, EntryLists, StepOfTrail;
    StateWf(e);
    ghost var s, m := State(e), e.marks.mark[..];
    trail := [Lists(e.live, e.Saved())];
    NoEntries(m, trail);
    var i := 0;
    while i < |entries|
      invariant 0 <= i <= |entries| && e.Valid() && State(e) == M.Session(entries[..i], s)
      invariant e.printed == old(e.printed) + M.SessionPrints(entries[..i], s)
      invariant Trail(entries[..i], s, trail)
      invariant trail[0] == Lists(old(e.live), old(e.Saved())) && trail[i] == Lists(e.live, e.Saved())
      invariant SessionMarks(entries[..i], m, e.marks.mark[..], trail)
    {
      ghost var m1, out := e.marks.mark[..], M.SessionPrints(entries[..i], s);
      Associate(old(e.printed), out, M.Prints(entries[i], State(e)));
      EnterOne(e, entries[i]);
      ghost var lists := Lists(e.live, e.Saved());
      assert entries[..i + 1] == entries[..i] + [entries[i]];
      M.SessionOneMore(entries[..i], entries[i], s);
      TrailOneMore(entries[..i], entries[i], s, trail, lists);
      SessionMarksOneMore(entries[..i], entries[i], m, m1, e.marks.mark[..], trail, lists);
      trail := trail + [lists];
      i := i + 1;
    }
    assert entries[..|entries|] == entries;
  }

  lemma NoEntries(m: seq<Line>, trail: seq<Lists>)
    requires |trail| == 1
    ensures SessionMarks([], m, m, trail)
  {
  }

  /** What the main loop does before it reads a line: no global command is under way. */
  method EndGlobal(e: Editor)
    requires e.Valid()
    modifies e`isGlobal
    ensures e.Valid() && !e.isGlobal && State(e) == old(State(e)) && Now(e) == old(Now(e))
  {
    e.isGlobal := false;
  }
}
