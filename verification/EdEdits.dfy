/** The edits of ed on the whole invariant of its buffer, and what the user sees of them. */
module EdEdits {
  import opened EdLinks
  import opened EdHistory
  import opened EdOwners
  import opened EdTables
  import opened EdEffects
  import opened EdBuffer
  import opened Sequences
  import M = EdModel

  type Text = M.Text

  // ---- what the user sees ----

  ghost function Now(e: Editor): M.View
    reads e
  {
    M.View(TextsOf(e.spans, e.sfile, e.live), e.currentAddr)
  }

  ghost function KeptView(e: Editor): M.Undoable
    reads e
  {
    if e.uCurrentAddr < 0 || e.uAddrLast < 0 then M.Nothing
    else M.Kept(M.View(TextsOf(e.spans, e.sfile, e.Saved()), e.uCurrentAddr))
  }

  ghost function State(e: Editor): M.State
    reads e
  {
    M.State(Now(e), KeptView(e))
  }

  // ---- which lines come and go ----

  /** From list was to list now, exactly the lines gone have left, and none that was allocated has
      come in. */
  ghost predicate Turnover(nodes: set<Line>, was: seq<Line>, now: seq<Line>, gone: seq<Line>) {
    && (forall x :: x in gone <==> x in was && x !in now)
    && (forall x :: x in now && x !in was ==> x !in nodes)
  }

  lemma TurnoverTrans(nodes: set<Line>, a: seq<Line>, b: seq<Line>, c: seq<Line>, nodes1: set<Line>, gone: seq<Line>,
                      gone1: seq<Line>)
    requires Turnover(nodes, a, b, gone) && Turnover(nodes1, b, c, gone1)
    requires nodes <= nodes1 && forall x :: x in a || x in gone1 ==> x in nodes
    ensures Turnover(nodes, a, c, gone + gone1)
  {
  }

  /** Of list was, the lines i to j - 1 have given way to lines that are not taken. */
  ghost predicate Spliced(taken: set<Line>, was: seq<Line>, now: seq<Line>, i: nat, j: nat) {
    var m := |now| - (|was| - j);
    && i <= j <= |was| && i <= m && now[..i] == was[..i] && now[m..] == was[j..]
    && forall k :: i <= k < m ==> now[k] !in taken
  }

  lemma SplicedBy(taken: set<Line>, was: seq<Line>, now: seq<Line>, i: nat, j: nat, seg: seq<Line>)
    requires i <= j <= |was| && now == was[..i] + seg + was[j..] && forall x :: x in seg ==> x !in taken
    ensures Spliced(taken, was, now, i, j)
  {
  }

  lemma SplicedLess(taken: set<Line>, taken': set<Line>, was: seq<Line>, now: seq<Line>, i: nat, j: nat)
    requires Spliced(taken, was, now, i, j) && taken' <= taken
    ensures Spliced(taken', was, now, i, j)
  {
  }

  lemma StruckTwice(a: seq<Line>, s: seq<Line>, t: seq<Line>)
    ensures Struck(Struck(a, s), t) == Struck(a, s + t)
    ensures Struck(a, []) == a
  {
  }

  /** Every line of the list, and of the list undo restores, is allocated. */
  lemma ListsAllocated(l: Links, head: Line, log: seq<Step>, live: seq<Line>)
    requires Owned(l, head, log, live)
    ensures forall x :: x in live ==> x in l.forw.Keys && x != head
    ensures forall x :: x in At(log, live, 0) ==> x in l.forw.Keys && x != head
  {
    AccountedCovers(l, head, log, live);
    AtIn(log, live, 0);
    DistinctCut([head], live);
    assert head in [head];
    forall x | x in At(log, live, 0) ensures x in l.forw.Keys && x != head {
      assert x in Elems(At(log, live, 0));
      if log != [] {
        assert StepOk(head, log[0]);
        HeadOutside(head, log[0]);
      }
    }
  }

  lemma HeadOutside(head: Line, st: Step)
    requires StepOk(head, st)
    ensures head !in Before(st)
  {
    if st.Mov? {
      DistinctCut([head], st.pre + st.a + st.b + st.post);
    } else {
      DistinctCut([head], st.pre + st.seg + st.post);
      assert forall x :: x in st.pre + st.post ==> x in st.pre + st.seg + st.post;
    }
    assert head in [head];
  }

  lemma MarksWiden(mark: seq<Line>, head: Line, nodes: set<Line>, nodes1: set<Line>)
    requires MarksIn(mark, head, nodes) && nodes <= nodes1
    ensures MarksIn(mark, head, nodes1)
  {
  }

  /** The texts of a list in which new lines have gone in between pre and post. */
  lemma SplicedTexts(sp: map<Line, Span>, sf: seq<char>, sp1: map<Line, Span>, sf1: seq<char>, nodes: set<Line>,
                     head: Line,
                     pre: seq<Line>, seg: seq<Line>, post: seq<Line>, saved: seq<Line>)
    requires Extends(sp, sf, sp1, sf1, nodes) && TextsIn(sp, sf, head, nodes)
    requires forall x :: x in pre || x in post || x in saved ==> x in nodes && x != head
    ensures TextsOf(sp1, sf1, pre + seg + post) == TextsOf(sp, sf, pre) + TextsOf(sp1, sf1, seg) + TextsOf(sp, sf, post)
    ensures TextsOf(sp1, sf1, saved) == TextsOf(sp, sf, saved)
  {
    ExtendsTexts(sp, sf, sp1, sf1, nodes, head, pre);
    ExtendsTexts(sp, sf, sp1, sf1, nodes, head, post);
    ExtendsTexts(sp, sf, sp1, sf1, nodes, head, saved);
    TextsConcat(sp1, sf1, pre + seg, post);
    TextsConcat(sp1, sf1, pre, seg);
  }

  lemma TextsSlice(sp: map<Line, Span>, sf: seq<char>, s: seq<Line>, i: nat, j: nat)
    requires i <= j <= |s|
    ensures TextsOf(sp, sf, s[i..j]) == TextsOf(sp, sf, s)[i..j]
  {
  }

  /** The lines that stay when others come in between are the same, and in the same order. */
  lemma LinesPut(nodes: set<Line>, pre: seq<Line>, seg: seq<Line>, post: seq<Line>)
    requires forall x :: x in seg ==> x !in nodes
    ensures Turnover(nodes, pre + post, pre + seg + post, [])
  {
  }

  lemma LinesCut(nodes: set<Line>, head: Line, live: seq<Line>, first: nat, second: nat)
    requires Distinct([head] + live) && 1 <= first <= second <= |live|
    ensures Turnover(nodes, live, live[..first - 1] + live[second..], live[first - 1..second])
  {
    var pre, seg, post := live[..first - 1], live[first - 1..second], live[second..];
    assert live == pre + seg + post;
    assert pre + seg + [] + post == live;
    DistinctCut4(head, pre, seg, [], post);
  }

  /** The texts of the list without a range of lines. */
  lemma RangeRemoved(sp: map<Line, Span>, sf: seq<char>, live: seq<Line>, first: nat, second: nat, dot: nat)
    requires 1 <= first <= second <= |live|
    ensures M.View(TextsOf(sp, sf, live[..first - 1] + live[second..]), first - 1)
            == M.Removed(M.View(TextsOf(sp, sf, live), dot), first, second)
  {
    TextsSlice(sp, sf, live, 0, first - 1);
    TextsSlice(sp, sf, live, second, |live|);
    TextsConcat(sp, sf, live[..first - 1], live[second..]);
    assert live[0..first - 1] == live[..first - 1] && live[second..|live|] == live[second..];
  }

  /** All that is to be known of deleting a range. */
  lemma RangeDeleted(l: Links, head: Line, log: seq<Step>, live: seq<Line>, first: nat, second: nat,
                     sp: map<Line, Span>, sf: seq<char>, dot: nat, list: seq<Line>, ptr: nat)
    requires Owned(l, head, log, live) && 1 <= first <= second <= |live| && ptr <= |list|
    ensures var live' := live[..first - 1] + live[second..];
            && Turnover(l.forw.Keys, live, live', live[first - 1..second])
            && M.View(TextsOf(sp, sf, live'), first - 1) == M.Removed(M.View(TextsOf(sp, sf, live), dot), first, second)
            && (Ordered(list[ptr..], live) ==> Ordered(Struck(list, live[first - 1..second])[ptr..], live'))
  {
    OrderedDelete(list, ptr, live, first, second);
    LinesCut(l.forw.Keys, head, live, first, second);
    RangeRemoved(sp, sf, live, first, second, dot);
  }

  /** All that is to be known of putting lines in after line n. */
  lemma LinesEntered(l: Links, head: Line, log: seq<Step>, live: seq<Line>, n: nat, seg: seq<Line>,
                     sp: map<Line, Span>, sf: seq<char>,
                     sp1: map<Line, Span>, sf1: seq<char>, dot: nat, list: seq<Line>, lines: seq<Text>)
    requires Owned(l, head, log, live) && n <= |live| && TextsIn(sp, sf, head, l.forw.Keys)
    requires Extends(sp, sf, sp1, sf1, l.forw.Keys) && TextsOf(sp1, sf1, seg) == lines
    requires forall x :: x in seg ==> x !in l.forw
    ensures var live' := live[..n] + seg + live[n..];
            && M.View(TextsOf(sp1, sf1, live'), n + |lines|) == M.Inserted(M.View(TextsOf(sp, sf, live), dot), n, lines)
            && TextsOf(sp1, sf1, At(log, live, 0)) == TextsOf(sp, sf, At(log, live, 0))
            && Turnover(l.forw.Keys, live, live', [])
            && (Ordered(list, live) ==> Ordered(list, live'))
  {
    ListsAllocated(l, head, log, live);
    var pre, post := live[..n], live[n..];
    assert live == pre + post;
    assert pre == live[0..n] && post == live[n..|live|];
    assert forall x :: x in live <==> x in pre || x in post;
    OrderedInsert(list, pre, seg, post);
    LinesPut(l.forw.Keys, pre, seg, post);
    SplicedTexts(sp, sf, sp1, sf1, l.forw.Keys, head, pre, seg, post, At(log, live, 0));
    TextsSlice(sp, sf, live, 0, n);
    TextsSlice(sp, sf, live, n, |live|);
  }

  /** All that is to be known of moving a range. */
  lemma RangeMoved(l: Links, head: Line, live: seq<Line>, first: nat, second: nat, addr: nat,
                   sp: map<Line, Span>, sf: seq<char>, dot: nat, list: seq<Line>, ptr: nat)
    requires 1 <= first <= second <= |live| && addr <= |live| && !(first <= addr < second) && ptr <= |list|
    ensures var live', c := Moved(live, first, second, addr), addr + if addr < first then second - first + 1 else 0;
            && M.View(TextsOf(sp, sf, live'), c) == M.Relocated(M.View(TextsOf(sp, sf, live), dot), first, second, addr)
            && Turnover(l.forw.Keys, live, live', [])
            && (Ordered(list[ptr..], live) ==> Ordered(Struck(list, live[first - 1..second])[ptr..], live'))
  {
    StruckSlice(list, live[first - 1..second], ptr);
    OrderedMove(list[ptr..], live, first, second, addr);
    MovedTexts(sp, sf, live, first, second, addr);
    MovedLines(l.forw.Keys, live, first, second, addr);
  }

  lemma MovedTexts(sp: map<Line, Span>, sf: seq<char>, live: seq<Line>, first: nat, second: nat, addr: nat)
    requires 1 <= first <= second <= |live| && addr <= |live| && !(first <= addr < second)
    ensures TextsOf(sp, sf, Moved(live, first, second, addr)) == Moved(TextsOf(sp, sf, live), first, second, addr)
  {
    if addr < first {
      BlocksSwapped(sp, sf, live, addr, first - 1, second);
    } else {
      BlocksSwapped(sp, sf, live, first - 1, second, addr);
    }
  }

  lemma BlocksSwapped(sp: map<Line, Span>, sf: seq<char>, s: seq<Line>, i: nat, j: nat, k: nat)
    requires i <= j <= k <= |s|
    ensures var t := TextsOf(sp, sf, s);
            TextsOf(sp, sf, s[..i] + s[j..k] + s[i..j] + s[k..]) == t[..i] + t[j..k] + t[i..j] + t[k..]
  {
    TextsSlice(sp, sf, s, 0, i);
    TextsSlice(sp, sf, s, i, j);
    TextsSlice(sp, sf, s, j, k);
    TextsSlice(sp, sf, s, k, |s|);
    assert s[0..i] == s[..i] && s[k..|s|] == s[k..];
    TextsConcat(sp, sf, s[..i], s[j..k]);
    TextsConcat(sp, sf, s[..i] + s[j..k], s[i..j]);
    TextsConcat(sp, sf, s[..i] + s[j..k] + s[i..j], s[k..]);
  }

  lemma MovedLines(nodes: set<Line>, live: seq<Line>, first: nat, second: nat, addr: nat)
    requires 1 <= first <= second <= |live| && addr <= |live| && !(first <= addr < second)
    ensures Turnover(nodes, live, Moved(live, first, second, addr), [])
  {
    var m := Moved(live, first, second, addr);
    if addr < first {
      assert live == live[..addr] + live[addr..first - 1] + live[first - 1..second] + live[second..];
    } else {
      assert live == live[..first - 1] + live[first - 1..second] + live[second..addr] + live[addr..];
    }
    assert forall x :: x in live <==> x in m;
  }

  /** The copies of a range have its texts. */
  lemma CopiedTexts(l: Links, head: Line, log: seq<Step>, live: seq<Line>, first: nat, second: nat, seg: seq<Line>,
                    sp: map<Line, Span>, sf: seq<char>, sp1: map<Line, Span>)
    requires Owned(l, head, log, live) && 1 <= first <= second <= |live| && TextsIn(sp, sf, head, l.forw.Keys)
    requires Extends(sp, sf, sp1, sf, l.forw.Keys) && Copies(sp1, seg, live[first - 1..second])
    ensures TextsOf(sp1, sf, seg) == TextsOf(sp, sf, live)[first - 1..second]
  {
    ListsAllocated(l, head, log, live);
    var src := live[first - 1..second];
    assert forall x :: x in src ==> x in live;
    CopiesTexts(sp1, sf, seg, src);
    ExtendsTexts(sp, sf, sp1, sf, l.forw.Keys, head, src);
    TextsSlice(sp, sf, live, first - 1, second);
  }

  lemma TextsUntouched(sp: map<Line, Span>, sf: seq<char>, head: Line, nodes: set<Line>, sp1: map<Line, Span>,
                       s: seq<Line>)
    requires TextsIn(sp, sf, head, nodes) && forall x :: x in s ==> x in nodes && x != head
    requires forall x :: x in sp && x in s ==> x in sp1 && sp1[x] == sp[x]
    ensures TextsOf(sp1, sf, s) == TextsOf(sp, sf, s)
  {
    forall x | x in s ensures x in sp && x in sp1 && sp1[x] == sp[x] && sp[x].seek + sp[x].len <= |sf| {
      assert Has(nodes, x);
    }
    TextsStay(sp, sf, sp1, sf, s);
  }

  // ---- the edits ----

  /** append_lines */
  method AppendAt(e: Editor, n: nat, input: seq<Text>)
    requires e.Valid() && n <= e.addrLast
    modifies e`sfile, e`sfseek, e`sfpos, e`seekWrite, e`ustack, e`modified
    modifies e`lp, e`on, e`addrLast, e`currentAddr, e`live, e`log, e`links, e`spans
    ensures e.Valid()
    ensures Now(e) == M.Inserted(old(Now(e)), n, input) && KeptView(e) == old(KeptView(e))
    ensures Turnover(old(e.links).forw.Keys, old(e.live), e.live, []) && old(e.links).forw.Keys <= e.links.forw.Keys
    ensures e.currentAddr <= |e.live| && e.live[e.currentAddr..] == old(e.live)[n..]
    ensures Spliced(old(e.links).forw.Keys, old(e.live), e.live, n, n)
    ensures e.Saved() == old(e.Saved())
  {
    ghost var seg := e.AppendLines(n, input);
    SplicedBy(old(e.links).forw.Keys, old(e.live), e.live, n, n, seg);
    MarksWiden(e.marks.mark[..], e.head, old(e.links).forw.Keys, e.links.forw.Keys);
    LinesEntered(old(e.links), e.head, old(e.log), old(e.live), n, seg,
                 old(e.spans), old(e.sfile), e.spans, e.sfile, old(e.currentAddr),
                 e.active.list[e.active.ptr..], input);
  }

  /** delete_lines, where texts and marks are concerned. */
  method DeleteKeepingTexts(e: Editor, first: nat, second: nat)
    requires e.Valid() && 1 <= first <= second <= e.addrLast
    modifies e`lp, e`on, e`ustack, e`links, e`addrLast, e`currentAddr, e`modified, e`live, e`log
    modifies e.active`list, e.active`ndx
    ensures e.Settled() && e.FileOk() && e.MarksOk() && e.active.Valid() && e.currentAddr == first - 1
    ensures e.live == old(e.live)[..first - 1] + old(e.live)[second..]
    ensures e.Saved() == old(e.Saved()) && e.links.forw.Keys == old(e.links).forw.Keys
    ensures e.active.list
            == if e.isGlobal then Struck(old(e.active.list), old(e.live)[first - 1..second]) else old(e.active.list)
  {
    e.DeleteLines(first, second);
  }

  /** delete_lines */
  method DeleteRange(e: Editor, first: nat, second: nat) returns (ghost gone: seq<Line>)
    requires e.Valid() && 1 <= first <= second <= e.addrLast
    modifies e`lp, e`on, e`ustack, e`links, e`addrLast, e`currentAddr, e`modified, e`live, e`log
    modifies e.active`list, e.active`ndx
    ensures e.Valid()
    ensures Now(e) == M.Removed(old(Now(e)), first, second) && KeptView(e) == old(KeptView(e))
    ensures gone == old(e.live)[first - 1..second]
    ensures Turnover(old(e.links).forw.Keys, old(e.live), e.live, gone) && old(e.links).forw.Keys <= e.links.forw.Keys
    ensures e.active.list == if e.isGlobal then Struck(old(e.active.list), gone) else old(e.active.list)
    ensures e.live == old(e.live)[..first - 1] + old(e.live)[second..]
    ensures e.Saved() == old(e.Saved())
  {
    RangeDeleted(e.links, e.head, e.log, e.live, first, second, e.spans, e.sfile, e.currentAddr, e.active.list,
                 e.active.ptr);
    gone := e.live[first - 1..second];
    DeleteKeepingTexts(e, first, second);
  }

  /** move_lines, where texts and marks are concerned. */
  method MoveKeepingTexts(e: Editor, first: nat, second: nat, addr: nat)
    requires e.Valid() && 1 <= first <= second <= e.addrLast && addr <= e.addrLast && !(first <= addr < second)
    modifies e`lp, e`on, e`ustack, e`links, e`currentAddr, e`modified, e`live, e`log
    modifies e.active`list, e.active`ndx
    ensures e.Settled() && e.FileOk() && e.MarksOk() && e.active.Valid()
    ensures e.live == Moved(old(e.live), first, second, addr)
    ensures e.currentAddr == addr + if addr < first then second - first + 1 else 0
    ensures e.Saved() == old(e.Saved()) && e.links.forw.Keys == old(e.links).forw.Keys
    ensures e.active.list
            == if e.isGlobal then Struck(old(e.active.list), old(e.live)[first - 1..second]) else old(e.active.list)
  {
    e.MoveLines(first, second, addr);
  }

  /** move_lines */
  method MoveRange(e: Editor, first: nat, second: nat, addr: nat) returns (ghost gone: seq<Line>)
    requires e.Valid() && 1 <= first <= second <= e.addrLast && addr <= e.addrLast && !(first <= addr < second)
    modifies e`lp, e`on, e`ustack, e`links, e`currentAddr, e`modified, e`live, e`log
    modifies e.active`list, e.active`ndx
    ensures e.Valid()
    ensures Now(e) == M.Relocated(old(Now(e)), first, second, addr) && KeptView(e) == old(KeptView(e))
    ensures gone == old(e.live)[first - 1..second] && e.live == Moved(old(e.live), first, second, addr)
    ensures Turnover(old(e.links).forw.Keys, old(e.live), e.live, []) && old(e.links).forw.Keys <= e.links.forw.Keys
    ensures e.active.list == if e.isGlobal then Struck(old(e.active.list), gone) else old(e.active.list)
    ensures e.Saved() == old(e.Saved())
  {
    RangeMoved(e.links, e.head, e.live, first, second, addr, e.spans, e.sfile, e.currentAddr, e.active.list,
               e.active.ptr);
    gone := e.live[first - 1..second];
    MoveKeepingTexts(e, first, second, addr);
  }

  /** copy_lines */
  method CopyAt(e: Editor, first: nat, second: nat, addr: nat)
    requires e.Valid() && 1 <= first <= second <= e.addrLast && addr <= e.addrLast
    modifies e`ustack, e`modified
    modifies e`lp, e`on, e`addrLast, e`currentAddr, e`live, e`log, e`links, e`spans
    ensures e.Valid()
    ensures Now(e) == M.Inserted(old(Now(e)), addr, old(Now(e)).text[first - 1..second])
    ensures KeptView(e) == old(KeptView(e))
    ensures Turnover(old(e.links).forw.Keys, old(e.live), e.live, []) && old(e.links).forw.Keys <= e.links.forw.Keys
    ensures Spliced(old(e.links).forw.Keys, old(e.live), e.live, addr, addr)
    ensures e.Saved() == old(e.Saved())
  {
    ghost var seg := e.CopyLines(first, second, addr);
    SplicedBy(old(e.links).forw.Keys, old(e.live), e.live, addr, addr, seg);
    MarksWiden(e.marks.mark[..], e.head, old(e.links).forw.Keys, e.links.forw.Keys);
    CopiedTexts(old(e.links), e.head, old(e.log), old(e.live), first, second, seg, old(e.spans), e.sfile, e.spans);
    LinesEntered(old(e.links), e.head, old(e.log), old(e.live), addr, seg,
                 old(e.spans), e.sfile, e.spans, e.sfile, old(e.currentAddr),
                 e.active.list[e.active.ptr..], old(Now(e)).text[first - 1..second]);
  }

  /** clear_undo_stack */
  method ClearStack(e: Editor)
    requires e.Valid()
    modifies e`ustack, e`links, e`spans, e`uCurrentAddr, e`uAddrLast, e`log, e.marks, e.marks.mark
    ensures e.Valid()
    ensures Now(e) == old(Now(e)) && KeptView(e) == M.Kept(Now(e))
    ensures forall x :: x in e.links.forw <==> x == e.head || x in e.live
    ensures e.marks.mark[..] == Within(old(e.marks.mark[..]), Elems(e.live))
    ensures e.Saved() == e.live
  {
    ListsAllocated(e.links, e.head, e.log, e.live);
    e.ClearUndoStack();
    TextsUntouched(old(e.spans), e.sfile, e.head, old(e.links).forw.Keys, e.spans, e.live);
  }

  /** pop_undo_stack */
  method UndoLast(e: Editor) returns (status: int)
    requires e.Valid()
    modifies e`lp, e`on, e`links, e`ustack, e`modified, e`currentAddr, e`addrLast
    modifies e`uCurrentAddr, e`uAddrLast, e`live, e`log, e.active
    ensures e.Valid() && status == if old(KeptView(e)).Nothing? then ERR else 0
    ensures status == ERR ==> unchanged(e) && unchanged(e.active)
    ensures status == 0 ==> Now(e) == old(KeptView(e)).view && KeptView(e) == M.Kept(old(Now(e)))
    ensures status == 0 ==> e.live == old(e.Saved()) && e.Saved() == old(e.live)
    ensures status == 0 && e.isGlobal ==> e.active.list == []
    ensures e.links.forw.Keys == old(e.links).forw.Keys
  {
    status := e.PopUndoStack();
  }

  // ---- reading lines ----

  /** The text of the n-th line, which lies in the list and in the scratch file. */
  lemma NthText(l: Links, head: Line, log: seq<Step>, live: seq<Line>, sp: map<Line, Span>, sf: seq<char>, n: nat)
    requires Owned(l, head, log, live) && TextsIn(sp, sf, head, l.forw.Keys) && 1 <= n <= |live|
    ensures Has(l.forw.Keys, live[n - 1]) && live[n - 1] != head
    ensures TextOf(sp, sf, live[n - 1]) == TextsOf(sp, sf, live)[n - 1]
  {
    ListsAllocated(l, head, log, live);
    assert live[n - 1] in live;
  }

  /** The text of a node of the list. */
  method ReadNode(e: Editor, lp: Line, ghost n: nat) returns (s: Text)
    requires e.Valid() && 1 <= n <= e.addrLast && lp == e.live[n - 1]
    modifies e`sfseek, e`sfpos, e`seekWrite
    ensures e.Valid() && s == Now(e).text[n - 1]
  {
    NthText(e.links, e.head, e.log, e.live, e.spans, e.sfile, n);
    var found;
    found, s := e.GetSbufLine(lp);
  }

  method FindRange(e: Editor, first: nat, second: nat) returns (bp: Line, ep: Line)
    requires e.Valid() && 1 <= first <= second <= e.addrLast
    modifies e`lp, e`on
    ensures e.Valid() && bp == e.live[first - 1] && ep == Nth(e.head, e.live, IncMod(second, |e.live|))
  {
    ep := e.GetAddressedLineNode(IncMod(second, e.addrLast));
    bp := e.GetAddressedLineNode(first);
  }

  /** Following q_forw along the list, one meets the node after the range when the range is through,
      and not before. */
  lemma RangeWalk(l: Links, head: Line, live: seq<Line>, n: nat, second: nat)
    requires Ring(l, head, live) && 1 <= n <= second <= |live|
    ensures live[n - 1] != Nth(head, live, IncMod(second, |live|))
    ensures live[n - 1] in l.forw && l.forw[live[n - 1]] == Nth(head, live, IncMod(n, |live|))
  {
    RingNeighbours(l, head, live, n);
    DistinctCut([head], live);
    assert head in [head] && live[n - 1] in live;
  }

  /** The loop below has come to the n-th line, and has read those before it. */
  ghost predicate Reading(e: Editor, bp: Line, ep: Line, first: nat, n: nat, second: nat, text: seq<Text>,
                          texts: seq<Text>)
    reads e, e.marks, e.marks.mark, e.active
  {
    && e.Valid() && 1 <= first <= n <= second + 1 && second <= e.addrLast && text == Now(e).text
    && bp == (if n <= second then e.live[n - 1] else ep) && ep == Nth(e.head, e.live, IncMod(second, |e.live|))
    && texts == text[first - 1..n - 1]
  }

  method ReadNext(e: Editor, bp: Line, ep: Line, texts: seq<Text>, ghost first: nat, ghost n: nat, ghost n': nat,
                  ghost second: nat, ghost text: seq<Text>)
    returns (texts': seq<Text>, bp': Line)
    requires Reading(e, bp, ep, first, n, second, text, texts) && bp != ep && n' == n + 1
    modifies e`sfseek, e`sfpos, e`seekWrite
    ensures n <= second && Reading(e, bp', ep, first, n', second, text, texts')
  {
    RangeWalk(e.links, e.head, e.live, n, second);
    SliceGrows(text, first - 1, n - 1, n);
    var s := ReadNode(e, bp, n);
    texts', bp' := texts + [s], e.links.forw[bp];
  }

  lemma ReadToTheEnd(e: Editor, bp: Line, ep: Line, first: nat, n: nat, second: nat, text: seq<Text>, texts: seq<Text>)
    requires Reading(e, bp, ep, first, n, second, text, texts) && bp == ep
    ensures e.Valid() && second <= |text| && texts == text[first - 1..second] && text == Now(e).text
  {
    if n <= second {
      RangeWalk(e.links, e.head, e.live, n, second);
    }
  }

  method StartReading(e: Editor, first: nat, second: nat) returns (bp: Line, ep: Line)
    requires e.Valid() && 1 <= first <= second <= e.addrLast
    modifies e`lp, e`on
    ensures Reading(e, bp, ep, first, first, second, old(Now(e)).text, [])
  {
    bp, ep := FindRange(e, first, second);
  }

  /** The loop with which display_lines and join_lines read the lines of a range, up to the node after
      it, which is head when the range ends the list. */
  method ReadRange(e: Editor, first: nat, second: nat) returns (texts: seq<Text>)
    requires e.Valid() && 1 <= first <= second <= e.addrLast
    modifies e`lp, e`on, e`sfseek, e`sfpos, e`seekWrite
    ensures e.Valid() && State(e) == old(State(e)) && second <= |Now(e).text| && texts == Now(e).text[first - 1..second]
  {
    ghost var text := Now(e).text;
    var bp, ep := StartReading(e, first, second);
    texts := [];
    ghost var n := first;
    while bp != ep
      invariant Reading(e, bp, ep, first, n, second, text, texts)
      decreases second + 1 - n
    {
      ghost var next := n + 1;
      texts, bp := ReadNext(e, bp, ep, texts, first, n, next, second, text);
      n := next;
    }
    ReadToTheEnd(e, bp, ep, first, n, second, text, texts);
  }

  // ---- searching ----

  /** DEC_MOD(l, k) */
  function DecMod(l: nat, k: nat): nat {
    if l == 0 then k else l - 1
  }

  /** The k-th address a search comes to, from dot on and round the end of the buffer. */
  ghost function Visited(dot: nat, last: nat, k: nat, forwards: bool): (n: nat)
    requires dot <= last && k <= last + 1
    ensures n <= last
    ensures k == last + 1 || k == 0 <==> n == dot
  {
    if forwards then if dot + k <= last then dot + k else dot + k - last - 1
    else if k <= dot then dot - k else dot + last + 1 - k
  }

  ghost predicate NoMatch(text: seq<Text>, pat: Text -> bool, n: nat)
    requires n <= |text|
  {
    n == 0 || !pat(text[n - 1])
  }

  /** Address n is the k-th that a search comes to, and none before it has a match. */
  ghost predicate Reaches(v: M.View, pat: Text -> bool, forwards: bool, k: nat, n: nat) {
    && v.dot <= |v.text| && k <= |v.text| + 1 && n == Visited(v.dot, |v.text|, k, forwards)
    && forall j :: 1 <= j < k ==> NoMatch(v.text, pat, Visited(v.dot, |v.text|, j, forwards))
  }

  lemma ReachesNext(v: M.View, pat: Text -> bool, forwards: bool, k: nat, n: nat)
    requires Reaches(v, pat, forwards, k, n) && k <= |v.text| && n <= |v.text| && (k == 0 || NoMatch(v.text, pat, n))
    ensures Reaches(v, pat, forwards, k + 1, if forwards then IncMod(n, |v.text|) else DecMod(n, |v.text|))
  {
  }

  /** A search goes past every line. */
  lemma VisitsAll(dot: nat, last: nat, n: nat, forwards: bool) returns (k: nat)
    requires dot <= last && n <= last
    ensures 1 <= k <= last + 1 && Visited(dot, last, k, forwards) == n
  {
    k := if forwards then (if n > dot then n - dot else n + last + 1 - dot)
      else (if n < dot then dot - n else dot + last + 1 - n);
  }

  /** The n-th line of the buffer. */
  method TextAt(e: Editor, n: nat) returns (s: Text)
    requires e.Valid() && 1 <= n <= e.addrLast
    modifies e`lp, e`on, e`sfseek, e`sfpos, e`seekWrite
    ensures e.Valid() && Now(e) == old(Now(e)) && n <= |Now(e).text| && s == Now(e).text[n - 1]
  {
    var lp := e.GetAddressedLineNode(n);
    s := ReadNode(e, lp, n);
  }

  /** The test that get_matching_node_addr makes of one address. */
  method MatchAt(e: Editor, pat: Text -> bool, n: nat) returns (found: bool)
    requires e.Valid() && n <= e.addrLast
    modifies e`lp, e`on, e`sfseek, e`sfpos, e`seekWrite
    ensures e.Valid() && Now(e) == old(Now(e)) && n <= |Now(e).text| && found == !NoMatch(Now(e).text, pat, n)
  {
    found := false;
    if n != 0 {
      var s := TextAt(e, n);
      found := pat(s);
    }
  }

  /** A search that has come all the way round has found nothing. */
  lemma AllRound(v: M.View, pat: Text -> bool, forwards: bool, n: nat)
    requires Reaches(v, pat, forwards, |v.text| + 1, n) && n <= |v.text| && NoMatch(v.text, pat, n)
    ensures forall i :: 1 <= i <= |v.text| ==> NoMatch(v.text, pat, i)
  {
    forall i | 1 <= i <= |v.text| ensures NoMatch(v.text, pat, i) {
      var j := VisitsAll(v.dot, |v.text|, i, forwards);
    }
  }

  /** Forwards: no line between the current one and line n matches, when n comes after it; and otherwise none
      after the current one, and none before line n.  Backwards the other way round. */
  ghost predicate Nearest(text: seq<Text>, dot: nat, pat: Text -> bool, forwards: bool, n: nat) {
    if forwards then
      if n > dot then forall j :: dot <= j < n - 1 && j < |text| ==> !pat(text[j])
      else forall j :: 0 <= j < |text| && (j >= dot || j < n - 1) ==> !pat(text[j])
    else
      if n < dot then forall j :: n <= j < dot - 1 && j < |text| ==> !pat(text[j])
      else forall j :: 0 <= j < |text| && (j < dot - 1 || j >= n) ==> !pat(text[j])
  }

  lemma {:induction false} SearchMeans(v: M.View, pat: Text -> bool, forwards: bool, k: nat, n: nat)
    requires Reaches(v, pat, forwards, k, n) && 1 <= k && 1 <= n <= |v.text|
    ensures Nearest(v.text, v.dot, pat, forwards, n)
  {
    var last := |v.text|;
    forall j: nat | j < last && Sooner(v.dot, j + 1, n, forwards) ensures !pat(v.text[j]) {
      var i := j + 1;
      var m := if forwards then (if i > v.dot then i - v.dot else i + last + 1 - v.dot)
               else (if i < v.dot then v.dot - i else v.dot + last + 1 - i);
      assert Visited(v.dot, last, m, forwards) == i && 1 <= m < k;
      assert NoMatch(v.text, pat, i);
    }
  }

  /** From dot on, a search comes to line i before it comes to line n. */
  predicate Sooner(dot: nat, i: nat, n: nat, forwards: bool) {
    if forwards then (if n > dot then dot < i < n else i > dot || i < n)
    else (if n < dot then n < i < dot else i < dot || i > n)
  }

  /** A search goes on from address n, the k-th it has come to. */
  ghost predicate Searching(e: Editor, v: M.View, pat: Text -> bool, forwards: bool, k: nat, n: nat)
    reads e, e.marks, e.marks.mark, e.active
  {
    && e.Valid() && Now(e) == v && e.addrLast == |v.text| && n <= |v.text|
    && Reaches(v, pat, forwards, k, n) && (k == 0 || NoMatch(v.text, pat, n))
  }

  /** One turn of get_matching_node_addr. */
  method SearchNext(e: Editor, pat: Text -> bool, forwards: bool, n: nat, ghost v: M.View, ghost k: nat, ghost k': nat)
    returns (n': nat, found: bool, again: bool)
    requires Searching(e, v, pat, forwards, k, n) && k <= |v.text| && k' == k + 1
    modifies e`lp, e`on, e`sfseek, e`sfpos, e`seekWrite
    ensures found ==>
      e.Valid() && Now(e) == v && 1 <= n' <= |v.text| && pat(v.text[n' - 1]) && Reaches(v, pat, forwards, k', n')
    ensures !found ==> Searching(e, v, pat, forwards, k', n') && again == (k' <= |v.text|)
  {
    hide Editor.Valid;
    ReachesNext(v, pat, forwards, k, n);
    n' := if forwards then IncMod(n, e.addrLast) else DecMod(n, e.addrLast);
    found := MatchAt(e, pat, n');
    again := n' != e.currentAddr;
  }

  /** get_matching_node_addr: the current line itself comes last.  (Line i is text[i - 1].)  Forwards it is the
      first line after the current one that matches, or else the first of all; backwards the last one before
      the current one, or else the last of all. */
  method GetMatchingNodeAddr(e: Editor, pat: Text -> bool, forwards: bool) returns (n: int, ghost k: nat)
    requires e.Valid()
    modifies e`lp, e`on, e`sfseek, e`sfpos, e`seekWrite
    ensures e.Valid() && Now(e) == old(Now(e))
    ensures n == ERR ==> forall j :: 0 <= j < |Now(e).text| ==> !pat(Now(e).text[j])
    ensures n != ERR ==> 1 <= n <= |Now(e).text| && pat(Now(e).text[n - 1]) && Reaches(Now(e), pat, forwards, k, n)
    ensures n != ERR ==> Nearest(Now(e).text, Now(e).dot, pat, forwards, n)
  {
    hide Editor.Valid, Reaches, Nearest;
    n, k := Search(e, pat, forwards);
    if n == ERR {
      NoneMatches(Now(e).text, pat);
    } else {
      SearchMeans(Now(e), pat, forwards, k, n);
    }
  }

  lemma NoneMatches(text: seq<Text>, pat: Text -> bool)
    requires forall i :: 1 <= i <= |text| ==> NoMatch(text, pat, i)
    ensures forall j :: 0 <= j < |text| ==> !pat(text[j])
  {
    forall j | 0 <= j < |text| ensures !pat(text[j]) {
      assert NoMatch(text, pat, j + 1);
    }
  }

  /** The loop of get_matching_node_addr. */
  method Search(e: Editor, pat: Text -> bool, forwards: bool) returns (n: int, ghost k: nat)
    requires e.Valid()
    modifies e`lp, e`on, e`sfseek, e`sfpos, e`seekWrite
    ensures e.Valid() && Now(e) == old(Now(e))
    ensures n == ERR ==> forall i :: 1 <= i <= |Now(e).text| ==> NoMatch(Now(e).text, pat, i)
    ensures n != ERR ==> 1 <= n <= |Now(e).text| && pat(Now(e).text[n - 1])
    ensures n != ERR ==> 1 <= k && Reaches(Now(e), pat, forwards, k, n)
  {
    ghost var v := Now(e);
    var addr := e.currentAddr;
    var again := true;
    k := 0;
    while again
      invariant Searching(e, v, pat, forwards, k, addr) && again == (k <= |v.text|)
      decreases |v.text| + 1 - k
    {
      ghost var next := k + 1;
      var found;
      addr, found, again := SearchNext(e, pat, forwards, addr, v, k, next);
      k := next;
      if found {
        return addr, k;
      }
    }
    AllRound(v, pat, forwards, addr);
    n := ERR;
  }
}
