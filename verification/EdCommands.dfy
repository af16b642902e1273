/** exec_command: each command does to the buffer what `EdModel.Execute` says the user sees, and inside
    a global command strikes off the active lines it deletes or moves. */
module EdCommands {
  import opened EdLinks
  import opened EdTables
  import opened EdEffects
  import opened EdBuffer
  import opened EdEdits
  import opened EdReplace
  import M = EdModel

  /** From list was to list now, exactly the lines gone have been deleted, or moved with block. */
  ghost predicate Touched(nodes: set<Line>, was: seq<Line>, now: seq<Line>, block: seq<Line>, gone: seq<Line>) {
    && (forall x :: x in gone <==> x in was && (x !in now || x in block))
    && (forall x :: x in now && x !in was ==> x !in nodes)
  }

  /** The same, and the active list has followed. */
  ghost predicate Tracked(e: Editor, nodes: set<Line>, was: seq<Line>, list: seq<Line>, block: seq<Line>,
                          gone: seq<Line>)
    reads e, e.active
  {
    Touched(nodes, was, e.live, block, gone) && nodes <= e.links.forw.Keys && e.active.list == Struck(list, gone)
  }

  /** The marks after an edit of list live: outside a global command those on lines that had left the
      list are gone, and their lines with them; the others stay. */
  ghost function MarksAfter(m: seq<Line>, live: seq<Line>, inGlobal: bool): seq<Line> {
    if inGlobal then m else Within(m, Elems(live))
  }

  /** A command, which edits or not. */
  ghost predicate MarksFollow(edits: bool, m: seq<Line>, m': seq<Line>, live: seq<Line>, inGlobal: bool) {
    m' == if edits then MarksAfter(m, live, inGlobal) else m
  }

  /** The list that undo would restore: outside a global command that from before the last edit. */
  ghost predicate SavedExec(edits: bool, saved: seq<Line>, saved': seq<Line>, live: seq<Line>, inGlobal: bool) {
    saved' == if edits && !inGlobal then live else saved
  }

  /** What precedes each edit: outside a global command it begins a new unit of undo. */
  method BeginEdit(e: Editor)
    requires e.Valid()
    modifies e`ustack, e`links, e`spans, e`uCurrentAddr, e`uAddrLast, e`log, e.marks, e.marks.mark
    ensures e.Valid() && Now(e) == old(Now(e))
    ensures KeptView(e) == if e.isGlobal then old(KeptView(e)) else M.Kept(Now(e))
    ensures e.isGlobal ==> e.links == old(e.links)
    ensures e.marks.mark[..] == MarksAfter(old(e.marks.mark[..]), e.live, e.isGlobal)
    ensures e.Saved() == if e.isGlobal then old(e.Saved()) else old(e.live)
  {
    if !e.isGlobal {
      ClearStack(e);
    }
  }

  /** a and i */
  method AppendCommand(e: Editor, n: nat, input: seq<Text>) returns (ghost gone: seq<Line>)
    requires e.Valid() && n <= e.addrLast
    modifies e, e.marks, e.marks.mark
    ensures e.Valid() && e.isGlobal == old(e.isGlobal)
    ensures State(e) == M.Edited(old(State(e)), M.Inserted(old(Now(e)), n, input), e.isGlobal)
    ensures e.isGlobal ==> Tracked(e, old(e.links).forw.Keys, old(e.live), old(e.active.list), [], gone)
    ensures e.marks.mark[..] == MarksAfter(old(e.marks.mark[..]), old(e.live), e.isGlobal)
    ensures Spliced(Elems(old(e.live)), old(e.live), e.live, n, n)
    ensures e.Saved() == if e.isGlobal then old(e.Saved()) else old(e.live)
    ensures e.printed == old(e.printed)
  {
    hide Editor.Valid;
    StateWf(e);
    LiveAllocated(e);
    gone := [];
    StruckTwice(e.active.list, [], []);
    BeginEdit(e);
    LiveAllocated(e);
    ghost var live, nodes := e.live, e.links.forw.Keys;
    AppendAt(e, n, input);
    SplicedLess(nodes, Elems(live), live, e.live, n, n);
  }

  /** c */
  method ChangeCommand(e: Editor, first: nat, second: nat, input: seq<Text>) returns (ghost gone: seq<Line>)
    requires e.Valid() && 1 <= first <= second <= e.addrLast
    modifies e, e.marks, e.marks.mark, e.active`list, e.active`ndx
    ensures e.Valid() && e.isGlobal == old(e.isGlobal)
    ensures State(e)
            == M.Edited(old(State(e)), M.Inserted(M.Removed(old(Now(e)), first, second), first - 1, input), e.isGlobal)
    ensures e.isGlobal ==> Tracked(e, old(e.links).forw.Keys, old(e.live), old(e.active.list), [], gone)
    ensures e.marks.mark[..] == MarksAfter(old(e.marks.mark[..]), old(e.live), e.isGlobal)
    ensures Spliced(Elems(old(e.live)), old(e.live), e.live, first - 1, second)
    ensures e.Saved() == if e.isGlobal then old(e.Saved()) else old(e.live)
    ensures e.printed == old(e.printed)
  {
    hide Editor.Valid, MarksAfter, M.Inserted, M.Removed, M.Joined, M.Settle, M.Relocated;
    StateWf(e);
    LiveAllocated(e);
    BeginEdit(e);
    LiveAllocated(e);
    ghost var live, nodes := e.live, e.links.forw.Keys;
    gone := ReplaceRange(e, first, second, input);
    SplicedLess(nodes, Elems(live), live, e.live, first - 1, second);
  }

  /** The next line becomes current, if there is one. */
  method SettleDown(e: Editor)
    requires e.Valid()
    modifies e`currentAddr
    ensures e.Valid() && Now(e) == M.Settle(old(Now(e))) && KeptView(e) == old(KeptView(e))
  {
    StateWf(e);
    var addr := IncMod(e.currentAddr, e.addrLast);
    if addr != 0 {
      GotoLine(e, addr);
    }
  }

  /** d: the line after the deleted ones becomes current. */
  method DeleteCommand(e: Editor, first: nat, second: nat) returns (ghost gone: seq<Line>)
    requires e.Valid() && 1 <= first <= second <= e.addrLast
    modifies e, e.marks, e.marks.mark, e.active`list, e.active`ndx
    ensures e.Valid() && e.isGlobal == old(e.isGlobal)
    ensures State(e) == M.Edited(old(State(e)), M.Settle(M.Removed(old(Now(e)), first, second)), e.isGlobal)
    ensures e.isGlobal ==> Tracked(e, old(e.links).forw.Keys, old(e.live), old(e.active.list), [], gone)
    ensures e.marks.mark[..] == MarksAfter(old(e.marks.mark[..]), old(e.live), e.isGlobal)
    ensures second <= |old(e.live)| && e.live == old(e.live)[..first - 1] + old(e.live)[second..]
    ensures e.Saved() == if e.isGlobal then old(e.Saved()) else old(e.live)
    ensures e.printed == old(e.printed)
  {
    hide Editor.Valid, MarksAfter, M.Removed, M.Settle;
    StateWf(e);
    LiveAllocated(e);
    BeginEdit(e);
    gone := DeleteRange(e, first, second);
    SettleDown(e);
  }

  /** j */
  method JoinCommand(e: Editor, first: nat, second: nat) returns (ghost gone: seq<Line>)
    requires e.Valid() && 1 <= first <= second <= e.addrLast
    modifies e, e.marks, e.marks.mark, e.active`list, e.active`ndx
    ensures e.Valid() && e.isGlobal == old(e.isGlobal)
    ensures var v := old(Now(e));
            State(e) == M.Edited(old(State(e)), if first < second then M.Joined(v, first, second) else v, e.isGlobal)
    ensures e.isGlobal ==> Tracked(e, old(e.links).forw.Keys, old(e.live), old(e.active.list), [], gone)
    ensures e.marks.mark[..] == MarksAfter(old(e.marks.mark[..]), old(e.live), e.isGlobal)
    ensures if first < second then Spliced(Elems(old(e.live)), old(e.live), e.live, first - 1, second)
            else e.live == old(e.live)
    ensures e.Saved() == if e.isGlobal then old(e.Saved()) else old(e.live)
    ensures e.printed == old(e.printed)
  {
    hide Editor.Valid, MarksAfter, M.Inserted, M.Removed, M.Joined, M.Settle, M.Relocated;
    StateWf(e);
    LiveAllocated(e);
    BeginEdit(e);
    gone := [];
    if first != second {
      LiveAllocated(e);
      ghost var live, nodes := e.live, e.links.forw.Keys;
      gone := JoinRange(e, first, second);
      SplicedLess(nodes, Elems(live), live, e.live, first - 1, second);
    } else {
      StruckTwice(e.active.list, [], []);
    }
  }

  /** m, once the target is known to be outside the range. */
  method MoveTo(e: Editor, first: nat, second: nat, addr: nat) returns (ghost gone: seq<Line>)
    requires e.Valid() && 1 <= first <= second <= e.addrLast && addr <= e.addrLast && !(first <= addr < second)
    modifies e, e.marks, e.marks.mark, e.active`list, e.active`ndx
    ensures e.Valid() && e.isGlobal == old(e.isGlobal)
    ensures State(e) == M.Edited(old(State(e)), M.Relocated(old(Now(e)), first, second, addr), e.isGlobal)
    ensures e.isGlobal ==>
      && second <= |old(e.live)|
      && Tracked(e, old(e.links).forw.Keys, old(e.live), old(e.active.list), old(e.live)[first - 1..second], gone)
    ensures e.marks.mark[..] == MarksAfter(old(e.marks.mark[..]), old(e.live), e.isGlobal)
    ensures addr <= |old(e.live)| && e.live == EdEffects.Moved(old(e.live), first, second, addr)
    ensures e.Saved() == if e.isGlobal then old(e.Saved()) else old(e.live)
    ensures e.printed == old(e.printed)
  {
    hide Editor.Valid, MarksAfter, M.Inserted, M.Removed, M.Joined, M.Settle, M.Relocated;
    StateWf(e);
    LiveAllocated(e);
    BeginEdit(e);
    gone := MoveRange(e, first, second, addr);
    BlockTouched(old(e.links).forw.Keys, old(e.live), e.live, first - 1, second);
  }

  /** Of a list whose lines all stay, the lines of the moved block are touched. */
  lemma BlockTouched(nodes: set<Line>, was: seq<Line>, now: seq<Line>, i: nat, j: nat)
    requires i <= j <= |was|
    ensures Turnover(nodes, was, now, []) ==> Touched(nodes, was, now, was[i..j], was[i..j])
  {
  }

  /** t, once there is a target. */
  method CopyTo(e: Editor, first: nat, second: nat, addr: nat) returns (ghost gone: seq<Line>)
    requires e.Valid() && 1 <= first <= second <= e.addrLast && addr <= e.addrLast
    modifies e, e.marks, e.marks.mark
    ensures e.Valid() && e.isGlobal == old(e.isGlobal)
    ensures second <= |old(Now(e)).text|
    ensures State(e)
            == M.Edited(old(State(e)), M.Inserted(old(Now(e)), addr, old(Now(e)).text[first - 1..second]), e.isGlobal)
    ensures e.isGlobal ==> Tracked(e, old(e.links).forw.Keys, old(e.live), old(e.active.list), [], gone)
    ensures e.marks.mark[..] == MarksAfter(old(e.marks.mark[..]), old(e.live), e.isGlobal)
    ensures Spliced(Elems(old(e.live)), old(e.live), e.live, addr, addr)
    ensures e.Saved() == if e.isGlobal then old(e.Saved()) else old(e.live)
    ensures e.printed == old(e.printed)
  {
    hide Editor.Valid;
    StateWf(e);
    LiveAllocated(e);
    gone := [];
    StruckTwice(e.active.list, [], []);
    BeginEdit(e);
    LiveAllocated(e);
    ghost var live, nodes := e.live, e.links.forw.Keys;
    CopyAt(e, first, second, addr);
    SplicedLess(nodes, Elems(live), live, e.live, addr, addr);
  }

  /** s */
  method SubstituteCommand(e: Editor, first: nat, second: nat, f: Text -> M.Replacement)
    returns (status: int, ghost gone: seq<Line>)
    requires e.Valid() && 1 <= first <= second <= e.addrLast
    modifies e, e.marks, e.marks.mark, e.active`list, e.active`ndx
    ensures e.Valid() && e.isGlobal == old(e.isGlobal)
    ensures var (w, r) := M.Substituted(old(Now(e)), first, second, f, e.isGlobal);
            State(e) == M.Edited(old(State(e)), w, e.isGlobal) && status == r
    ensures e.isGlobal ==> Tracked(e, old(e.links).forw.Keys, old(e.live), old(e.active.list), [], gone)
    ensures e.marks.mark[..] == MarksAfter(old(e.marks.mark[..]), old(e.live), e.isGlobal)
    ensures second <= |old(Now(e)).text| == |old(e.live)|
    ensures SubstLines(old(Now(e)), first, second, f, old(e.live), e.live, Elems(old(e.live)))
    ensures e.Saved() == if e.isGlobal then old(e.Saved()) else old(e.live)
    ensures e.printed == old(e.printed)
  {
    hide Editor.Valid, SubstLines, M.Substituted, MarksAfter, Struck;
    StateWf(e);
    LiveAllocated(e);
    BeginEdit(e);
    LiveAllocated(e);
    ghost var v, live, nodes := Now(e), e.live, e.links.forw.Keys;
    status, gone := SubstituteRange(e, first, second, f, e.isGlobal);
    SubstLess(v, first, second, f, live, e.live, nodes, Elems(live));
  }

  /** display_lines: the lines printed, of which the last becomes current. */
  method PrintCommand(e: Editor, first: nat, second: nat)
    requires e.Valid() && 1 <= first <= second <= e.addrLast
    modifies e`lp, e`on, e`sfseek, e`sfpos, e`seekWrite, e`currentAddr, e`printed
    ensures e.Valid() && KeptView(e) == old(KeptView(e))
    ensures Now(e) == old(Now(e)).(dot := second)
    ensures second <= |Now(e).text| && e.printed == old(e.printed) + Now(e).text[first - 1..second]
  {
    var texts := ReadRange(e, first, second);
    e.printed := e.printed + texts;
    e.currentAddr := second;
  }

  /** The marks when k has put the one of this name on the n-th line. */
  ghost function MarkSet(m: seq<Line>, live: seq<Line>, n: nat, name: char): seq<Line> {
    if 1 <= n <= |live| && |m| == MAXMARK && 'a' <= name <= 'z' then m[name as int - 'a' as int := live[n - 1]] else m
  }

  /** k */
  method MarkCommand(e: Editor, n: nat, name: char) returns (status: int)
    requires e.Valid() && n <= e.addrLast
    modifies e`lp, e`on, e.marks, e.marks.mark
    ensures e.Valid() && State(e) == old(State(e))
    ensures status == if n == 0 || !('a' <= name <= 'z') then ERR else 0
    ensures e.marks.mark[..] == MarkSet(old(e.marks.mark[..]), e.live, n, name)
    ensures status == 0 ==>
      && e.marks.mark.Length == MAXMARK && n <= |e.live|
      && forall i :: 0 <= i < MAXMARK ==>
           e.marks.mark[i] == if i == name as int - 'a' as int then e.live[n - 1] else old(e.marks.mark[i])
    ensures status != 0 ==> e.marks.mark[..] == old(e.marks.mark[..])
  {
    if n == 0 {
      return ERR;
    }
    NthText(e.links, e.head, e.log, e.live, e.spans, e.sfile, n);
    var lp := e.GetAddressedLineNode(n);
    NodeNotNull(e, n);
    status := e.marks.MarkLineNode(lp, name);
  }

  lemma NodeNotNull(e: Editor, n: nat)
    requires e.Valid() && 1 <= n <= e.addrLast
    ensures e.live[n - 1] != NULL && e.live[n - 1] in e.links.forw && e.live[n - 1] != e.head
  {
    NthText(e.links, e.head, e.log, e.live, e.spans, e.sfile, n);
  }

  /** get_marked_node_addr: the address of a marked line, wherever it has come to be (`MarksExec`); a line
      that has left the buffer, or a mark not set, is an error, except in an empty buffer. */
  method GetMarkedNodeAddr(e: Editor, name: char) returns (n: int)
    requires e.Valid()
    ensures !('a' <= name <= 'z') ==> n == ERR
    ensures 'a' <= name <= 'z' ==> e.marks.mark.Length == MAXMARK && var x := e.marks.mark[name as int - 'a' as int];
      if x in e.live then 1 <= n <= |e.live| && e.live[n - 1] == x else n == if e.live == [] then 0 else ERR
  {
    if !('a' <= name <= 'z') {
      return ERR;
    }
    NullOutside(e);
    n := e.GetLineNodeAddr(e.marks.mark[name as int - 'a' as int]);
  }

  lemma NullOutside(e: Editor)
    requires e.Valid()
    ensures NULL !in [e.head] + e.live
    ensures forall i :: 0 <= i < MAXMARK ==> e.marks.mark[i] != e.head
  {
    ListsAllocated(e.links, e.head, e.log, e.live);
    HeadIsNode(e.links, e.head, e.live);
  }

  /** Current lines are lines, or 0, here as in the model. */
  lemma StateWf(e: Editor)
    requires e.Valid()
    ensures M.Wf(State(e)) && |Now(e).text| == e.addrLast
  {
  }

  // ---- exec_command ----

  /** The block that a command moves. */
  ghost function Block(c: M.Command, v: M.View, was: seq<Line>): seq<Line> {
    var range := M.CheckRange(c.at, v.dot, v.dot, |was|);
    if c.Move? && range.Some? && M.Legal(c.dest, |was|)
       && !(range.value.0 <= M.Second(c.dest, v.dot) < range.value.1)
    then
      was[range.value.0 - 1..range.value.1]
    else []
  }

  /** What a command with a range does to the lines themselves. */
  ghost predicate RangeRelisted(c: M.Command, v: M.View, was: seq<Line>, now: seq<Line>, first: nat, second: nat)
    requires M.NeedsRange(c)
  {
    var last := |was|;
    && |v.text| == last && v.dot <= last && 1 <= first <= second <= last
    && match c
       case Change(_, input) =>
         Spliced(Elems(was), was, now, first - 1, second) && |now| == last - (second - first + 1) + |input|
       case Copy(_, dest) =>
         var addr := M.Second(dest, v.dot);
         if !M.Legal(dest, last) then now == was
         else Spliced(Elems(was), was, now, addr, addr) && |now| == last + (second - first + 1)
       case Delete(_) => now == was[..first - 1] + was[second..]
       case Join(_) =>
         if first == second then now == was
         else Spliced(Elems(was), was, now, first - 1, second) && |now| == last - (second - first)
       case Move(_, dest) =>
         var addr := M.Second(dest, v.dot);
         if !M.Legal(dest, last) || first <= addr < second then now == was else now == Moved(was, first, second, addr)
       case Print(_) => now == was
       case Substitute(_, f) => SubstLines(v, first, second, f, was, now, Elems(was))
  }

  /** What a command other than u does to the lines themselves: which stay, in what order, and where there
      are new ones. */
  ghost predicate Relisted(c: M.Command, v: M.View, was: seq<Line>, now: seq<Line>) {
    var last, n := |was|, M.Second(c.at, v.dot);
    var range := M.CheckRange(c.at, v.dot, v.dot + if c.Join? then 1 else 0, last);
    && |v.text| == last && v.dot <= last
    && if !M.Legal(c.at, last) then now == was
       else if M.NeedsRange(c) then
         if range.None? then now == was else RangeRelisted(c, v, was, now, range.value.0, range.value.1)
       else if c.Append? then Spliced(Elems(was), was, now, n, n) && |now| == last + |c.input|
       else if c.Insert? && n > 0 then Spliced(Elems(was), was, now, n - 1, n - 1) && |now| == last + |c.input|
       else c.Undo? || now == was
  }

  /** m: a target within the range is an error. */
  method MoveCommand(e: Editor, c: M.Command, first: nat, second: nat)
    returns (status: int, ghost block: seq<Line>, ghost gone: seq<Line>)
    requires e.Valid() && c.Move? && 1 <= first <= second <= e.addrLast
    modifies e, e.marks, e.marks.mark, e.active`list, e.active`ndx
    ensures e.Valid() && e.isGlobal == old(e.isGlobal)
    ensures M.Wf(old(State(e))) && second <= |old(Now(e)).text|
    ensures (State(e), status) == M.OnRange(c, old(State(e)), first, second, e.isGlobal)
    ensures e.isGlobal ==> Tracked(e, old(e.links).forw.Keys, old(e.live), old(e.active.list), block, gone)
    ensures block == if c.Move? && status == 0 then old(e.live)[first - 1..second] else []
    ensures MarksFollow(M.EditsRange(c, old(Now(e)), first, second), old(e.marks.mark[..]), e.marks.mark[..],
                        old(e.live), e.isGlobal)
    ensures RangeRelisted(c, old(Now(e)), old(e.live), e.live, first, second)
    ensures SavedExec(M.EditsRange(c, old(Now(e)), first, second), old(e.Saved()), e.Saved(), old(e.live), e.isGlobal)
    ensures e.printed == old(e.printed)
  {
    StateWf(e);
    status, block, gone := ERR, [], [];
    StruckTwice(e.active.list, [], []);
    var addr := M.Second(c.dest, e.currentAddr);
    if M.Legal(c.dest, e.addrLast) && !(first <= addr < second) {
      block := e.live[first - 1..second];
      gone := MoveTo(e, first, second, addr);
      status := 0;
    }
  }

  /** t */
  method CopyCommand(e: Editor, c: M.Command, first: nat, second: nat)
    returns (status: int, ghost block: seq<Line>, ghost gone: seq<Line>)
    requires e.Valid() && c.Copy? && 1 <= first <= second <= e.addrLast
    modifies e, e.marks, e.marks.mark, e.active`list, e.active`ndx
    ensures e.Valid() && e.isGlobal == old(e.isGlobal)
    ensures M.Wf(old(State(e))) && second <= |old(Now(e)).text|
    ensures (State(e), status) == M.OnRange(c, old(State(e)), first, second, e.isGlobal)
    ensures e.isGlobal ==> Tracked(e, old(e.links).forw.Keys, old(e.live), old(e.active.list), block, gone)
    ensures block == if c.Move? && status == 0 then old(e.live)[first - 1..second] else []
    ensures MarksFollow(M.EditsRange(c, old(Now(e)), first, second), old(e.marks.mark[..]), e.marks.mark[..],
                        old(e.live), e.isGlobal)
    ensures RangeRelisted(c, old(Now(e)), old(e.live), e.live, first, second)
    ensures SavedExec(M.EditsRange(c, old(Now(e)), first, second), old(e.Saved()), e.Saved(), old(e.live), e.isGlobal)
    ensures e.printed == old(e.printed)
  {
    StateWf(e);
    status, block, gone := ERR, [], [];
    StruckTwice(e.active.list, [], []);
    if M.Legal(c.dest, e.addrLast) {
      gone := CopyTo(e, first, second, M.Second(c.dest, e.currentAddr));
      status := 0;
    }
  }

  /** The commands that work on a range of lines. */
  method ExecOnRange(e: Editor, c: M.Command, first: nat, second: nat)
    returns (status: int, ghost block: seq<Line>, ghost gone: seq<Line>)
    requires e.Valid() && M.NeedsRange(c) && 1 <= first <= second <= e.addrLast
    modifies e, e.marks, e.marks.mark, e.active`list, e.active`ndx
    ensures e.Valid() && e.isGlobal == old(e.isGlobal)
    ensures M.Wf(old(State(e))) && second <= |old(Now(e)).text|
    ensures (State(e), status) == M.OnRange(c, old(State(e)), first, second, e.isGlobal)
    ensures e.isGlobal ==> Tracked(e, old(e.links).forw.Keys, old(e.live), old(e.active.list), block, gone)
    ensures block == if c.Move? && status == 0 then old(e.live)[first - 1..second] else []
    ensures MarksFollow(M.EditsRange(c, old(Now(e)), first, second), old(e.marks.mark[..]), e.marks.mark[..],
                        old(e.live), e.isGlobal)
    ensures RangeRelisted(c, old(Now(e)), old(e.live), e.live, first, second)
    ensures SavedExec(M.EditsRange(c, old(Now(e)), first, second), old(e.Saved()), e.Saved(), old(e.live), e.isGlobal)
    ensures e.printed == old(e.printed) + if c.Print? then old(Now(e)).text[first - 1..second] else []
  {
    hide Spliced, SubstLines, MarksAfter;
    StateWf(e);
    status, block, gone := 0, [], [];
    StruckTwice(e.active.list, [], []);
    match c {
      case Change(_, input) =>
        gone := ChangeCommand(e, first, second, input);
      case Copy(_, _) =>
        status, block, gone := CopyCommand(e, c, first, second);
      case Delete(_) =>
        gone := DeleteCommand(e, first, second);
      case Join(_) =>
        gone := JoinCommand(e, first, second);
      case Move(_, _) =>
        status, block, gone := MoveCommand(e, c, first, second);
      case Print(_) =>
        PrintCommand(e, first, second);
      case Substitute(_, f) =>
        status, gone := SubstituteCommand(e, first, second, f);
    }
  }

  /** u */
  method UndoCommand(e: Editor, at: M.Addrs) returns (status: int)
    requires e.Valid() && M.Legal(at, e.addrLast)
    modifies e, e.active
    ensures e.Valid() && e.isGlobal == old(e.isGlobal) && M.Wf(old(State(e)))
    ensures (State(e), status) == M.Execute(M.Undo(at), old(State(e)), e.isGlobal)
    ensures status == ERR ==> unchanged(e) && unchanged(e.active)
    ensures status == 0 || status == ERR
    ensures status == 0 ==> e.live == old(e.Saved()) && e.Saved() == old(e.live)
    ensures status == 0 && e.isGlobal ==> e.active.list == []
    ensures e.printed == old(e.printed)
  {
    StateWf(e);
    if at.cnt > 0 {
      return ERR;
    }
    status := UndoLast(e);
  }

  /** What the range of a command makes of its meaning, and of the block it moves. */
  lemma {:induction false} RangeOf(c: M.Command, s: M.State, inGlobal: bool, was: seq<Line>)
    requires M.Wf(s) && M.NeedsRange(c) && M.Legal(c.at, |was|) && |was| == |s.now.text|
    ensures var range := M.CheckRange(c.at, s.now.dot, s.now.dot + if c.Join? then 1 else 0, |was|);
            if range.None? then M.Execute(c, s, inGlobal) == (s, ERR) && Block(c, s.now, was) == []
            else
              var r := M.OnRange(c, s, range.value.0, range.value.1, inGlobal);
              && M.Execute(c, s, inGlobal) == r
              && Block(c, s.now, was) == if c.Move? && r.1 == 0 then was[range.value.0 - 1..range.value.1] else []
  {
    hide M.OnRange, M.Execute;
    M.ExecuteOnRange(c, s, inGlobal);
    if c.Move? {
      MoveStatus(c, s, inGlobal);
    }
  }

  lemma {:induction false} RangeEdits(c: M.Command, v: M.View, last: nat)
    requires M.NeedsRange(c) && M.Legal(c.at, last) && last == |v.text|
    ensures var range := M.CheckRange(c.at, v.dot, v.dot + if c.Join? then 1 else 0, last);
            if range.None? then !M.Edits(c, v) && M.Output(c, v) == []
            else
              && (M.Edits(c, v) <==> M.EditsRange(c, v, range.value.0, range.value.1))
              && M.Output(c, v) == if c.Print? then v.text[range.value.0 - 1..range.value.1] else []
  {
    hide M.EditsRange;
  }

  lemma {:induction false} MoveStatus(c: M.Command, s: M.State, inGlobal: bool)
    requires M.Wf(s) && c.Move?
    ensures var last, addr := |s.now.text|, M.Second(c.dest, s.now.dot);
            var range := M.CheckRange(c.at, s.now.dot, s.now.dot, last);
            range.Some? ==> (M.OnRange(c, s, range.value.0, range.value.1, inGlobal).1 == 0
                             <==> M.Legal(c.dest, last) && !(range.value.0 <= addr < range.value.1))
  {
    hide M.Relocated;
  }

  /** The commands that check a range of lines first. */
  method ExecRanged(e: Editor, c: M.Command) returns (status: int, ghost gone: seq<Line>)
    requires e.Valid() && M.NeedsRange(c) && M.Legal(c.at, e.addrLast)
    modifies e, e.marks, e.marks.mark, e.active`list, e.active`ndx
    ensures e.Valid() && e.isGlobal == old(e.isGlobal)
    ensures M.Wf(old(State(e))) && (State(e), status) == M.Execute(c, old(State(e)), e.isGlobal)
    ensures e.isGlobal ==>
      Tracked(e, old(e.links).forw.Keys, old(e.live), old(e.active.list), Block(c, old(Now(e)), old(e.live)), gone)
    ensures MarksFollow(M.Edits(c, old(Now(e))), old(e.marks.mark[..]), e.marks.mark[..], old(e.live), e.isGlobal)
    ensures Relisted(c, old(Now(e)), old(e.live), e.live)
    ensures SavedExec(M.Edits(c, old(Now(e))), old(e.Saved()), e.Saved(), old(e.live), e.isGlobal)
    ensures e.printed == old(e.printed) + M.Output(c, old(Now(e)))
  {
    hide M.Execute, M.OnRange, Block, M.Wf, Editor.Valid, RangeRelisted, M.Edits, M.EditsRange, M.Output, MarksAfter;
    StateWf(e);
    gone := [];
    var range := M.CheckRange(c.at, e.currentAddr, e.currentAddr + if c.Join? then 1 else 0, e.addrLast);
    ghost var block;
    RangeOf(c, State(e), e.isGlobal, e.live);
    RangeEdits(c, Now(e), e.addrLast);
    if range.None? {
      StruckTwice(e.active.list, [], []);
      return ERR, gone;
    }
    status, block, gone := ExecOnRange(e, c, range.value.0, range.value.1);
  }

  /** The line that an address followed by ; makes current. */
  method GotoLine(e: Editor, n: nat)
    requires e.Valid() && n <= e.addrLast
    modifies e`currentAddr
    ensures e.Valid() && KeptView(e) == old(KeptView(e)) && Now(e) == old(Now(e)).(dot := n)
  {
    e.currentAddr := n;
  }

  /** What a command does to the marks: k sets one, and no other command moves or removes one whose line
      was in the list. */
  ghost predicate MarksExec(c: M.Command, status: int, m: seq<Line>, m': seq<Line>, v: M.View, live: seq<Line>,
                            inGlobal: bool) {
    if c.Mark? && status == 0 then m' == MarkSet(m, live, M.Second(c.at, v.dot), c.name)
    else MarksFollow(M.Edits(c, v), m, m', live, inGlobal)
  }

  /** k marks the line at the address typed, or the current one, and touches no other mark; where there is no such
      line, or no such mark, it is an error. */
  lemma {:induction false} MarkNames(c: M.Command, s: M.State, status: int, m: seq<Line>, m': seq<Line>,
                                     live: seq<Line>, inGlobal: bool)
    requires M.Wf(s) && c.Mark? && status == M.Execute(c, s, inGlobal).1 && |m| == MAXMARK && |live| == |s.now.text|
    requires MarksExec(c, status, m, m', s.now, live, inGlobal)
    ensures var n := if c.at.cnt == 0 then s.now.dot else c.at.second;
            if 1 <= n <= |live| && 'a' <= c.name <= 'z' then
              && status == 0 && |m'| == MAXMARK
              && forall i :: 0 <= i < MAXMARK ==> m'[i] == if i == c.name as int - 'a' as int then live[n - 1] else m[i]
            else status == ERR && m' == m
  {
  }

  /** The commands that take one address. */
  method ExecAddressed(e: Editor, c: M.Command) returns (status: int, ghost gone: seq<Line>)
    requires e.Valid() && !M.NeedsRange(c) && !c.Undo? && M.Legal(c.at, e.addrLast)
    modifies e, e.marks, e.marks.mark
    ensures e.Valid() && e.isGlobal == old(e.isGlobal)
    ensures M.Wf(old(State(e))) && (State(e), status) == M.Execute(c, old(State(e)), e.isGlobal)
    ensures e.isGlobal ==> Tracked(e, old(e.links).forw.Keys, old(e.live), old(e.active.list), [], gone)
    ensures MarksExec(c, status, old(e.marks.mark[..]), e.marks.mark[..], old(Now(e)), old(e.live), e.isGlobal)
    ensures Relisted(c, old(Now(e)), old(e.live), e.live)
    ensures SavedExec(M.Edits(c, old(Now(e))), old(e.Saved()), e.Saved(), old(e.live), e.isGlobal)
    ensures e.printed == old(e.printed) + M.Output(c, old(Now(e)))
  {
    hide Editor.Valid, Spliced, MarksAfter;
    StateWf(e);
    status, gone := 0, [];
    StruckTwice(e.active.list, [], []);
    var n := M.Second(c.at, e.currentAddr);
    match c {
      case Append(_, input) =>
        gone := AppendCommand(e, n, input);
      case Insert(_, input) =>
        if n == 0 {
          return ERR, gone;
        }
        gone := AppendCommand(e, n - 1, input);
      case Goto(_) =>
        GotoLine(e, n);
      case Mark(_, name) =>
        status := MarkCommand(e, n, name);
    }
  }

  /** exec_command */
  method ExecCommand(e: Editor, c: M.Command) returns (status: int, ghost gone: seq<Line>)
    requires e.Valid()
    modifies e, e.marks, e.marks.mark, e.active
    ensures e.Valid() && e.isGlobal == old(e.isGlobal)
    ensures M.Wf(old(State(e))) && (State(e), status) == M.Execute(c, old(State(e)), e.isGlobal)
    ensures c.Undo? && status == 0 ==> e.live == old(e.Saved()) && e.Saved() == old(e.live)
    ensures c.Undo? && status != 0 ==> e.live == old(e.live) && e.Saved() == old(e.Saved())
    ensures !c.Undo? ==> SavedExec(M.Edits(c, old(Now(e))), old(e.Saved()), e.Saved(), old(e.live), e.isGlobal)
    ensures e.isGlobal && c.Undo? && status == 0 ==> e.active.list == []
    ensures e.isGlobal && !(c.Undo? && status == 0) ==> e.active.ptr == old(e.active.ptr)
    ensures e.isGlobal && !(c.Undo? && status == 0) ==>
      Tracked(e, old(e.links).forw.Keys, old(e.live), old(e.active.list), Block(c, old(Now(e)), old(e.live)), gone)
    ensures MarksExec(c, status, old(e.marks.mark[..]), e.marks.mark[..], old(Now(e)), old(e.live), e.isGlobal)
    ensures Relisted(c, old(Now(e)), old(e.live), e.live)
    ensures e.printed == old(e.printed) + M.Output(c, old(Now(e)))
  {
    hide RangeRelisted, Spliced, Struck, Within, M.OnRange, M.Inserted, M.EditsRange;
    StateWf(e);
    gone := [];
    StruckTwice(e.active.list, [], []);
    if !M.Legal(c.at, e.addrLast) {
      status := ERR;
    } else if M.NeedsRange(c) {
      status, gone := ExecRanged(e, c);
    } else if c.Undo? {
      status := UndoCommand(e, c.at);
    } else {
      status, gone := ExecAddressed(e, c);
    }
  }
}
