/** The line buffer of ed as an object: the circular list with its cached cursor, the scratch file,
    the undo stack, the marks and the list of lines active in a global command. */
module EdBuffer {
  import Addresses
  import opened EdLinks
  import opened EdHistory
  import opened EdReplay
  import opened EdOwners
  import opened EdGrowth
  import opened EdTables
  import opened EdEffects

  class Editor {
    const head: Line                 // buffer_head
    const marks: MarkTable
    const active: ActiveList

    var links: Links                 // q_forw and q_back of every allocated node
    var spans: map<Line, Span>       // seek and len of every allocated line

    var lp: Line                     // cursor of get_addressed_line_node
    var on: nat
    var currentAddr: nat
    var addrLast: nat
    var modified: bool
    var isGlobal: bool
    var printed: seq<seq<char>>      // the lines that have gone to standard output

    var sfile: seq<char>             // scratch file, its position, and what ed believes of it
    var sfpos: nat
    var sfseek: nat
    var seekWrite: bool

    var ustack: seq<Undo>            // ustack[0..u_p]
    var uCurrentAddr: int
    var uAddrLast: int

    ghost var live: seq<Line>        // the list after head
    ghost var log: seq<Step>         // what the undo stack stands for

    // ---- invariants ----

    /** The circular list of addrLast nodes, with the cursor on one of them. */
    ghost predicate ListOk()
      reads this
    {
      Ring(links, head, live) && CursorOk(head, live, addrLast, lp, on)
    }

    /** The list undo would restore. */
    ghost function Saved(): seq<Line>
      reads this`log, this`live
    {
      At(log, live, 0)
    }

    /** List, links, history and addresses agree. */
    ghost predicate Core()
      reads this
    {
      && Owned(links, head, log, live)
      && CursorOk(head, live, addrLast, lp, on)
      && AddressesOk(currentAddr, uCurrentAddr, uAddrLast, live, Saved())
    }

    /** ... and the undo stack is the one the history leaves. */
    ghost predicate Settled()
      reads this
    {
      Core() && ustack == EncodeAll(head, log)
    }

    /** Every line has its text, and what ed believes of the file position is so. */
    ghost predicate FileOk()
      reads this
    {
      TextsIn(spans, sfile, head, links.forw.Keys) && sfseek == sfpos <= |sfile| && (!seekWrite ==> sfpos == |sfile|)
    }

    ghost predicate MarksOk()
      reads this, marks, marks.mark
    {
      marks.Valid() && MarksIn(marks.mark[..], head, links.forw.Keys)
    }

    /** During a global command, the lines still to be visited are in the list, in list order. */
    ghost predicate ActiveOk()
      reads this, active
    {
      active.Valid() && (isGlobal ==> Ordered(active.list[active.ptr..], live))
    }

    /** The invariant of the buffer between commands. */
    ghost predicate Valid()
      reads this, marks, marks.mark, active
    {
      Settled() && FileOk() && MarksOk() && ActiveOk()
    }

    /** init_buffers */
    constructor (bufferHead: Line)
      requires bufferHead != NULL
      ensures Valid() && fresh(marks) && fresh(marks.mark) && fresh(active) && head == bufferHead
      ensures live == [] && sfile == [] && !isGlobal && !modified && printed == []
      ensures uCurrentAddr == uAddrLast == -1
    {
      head, lp, on := bufferHead, bufferHead, 0;
      marks := new MarkTable();
      active := new ActiveList();
      links, spans := Reque(Links(map[], map[]), bufferHead, bufferHead), map[];
      currentAddr, addrLast, modified, isGlobal, printed := 0, 0, false, false, [];
      sfile, sfpos, sfseek, seekWrite := [], 0, 0, false;
      ustack, uCurrentAddr, uAddrLast := [], -1, -1;
      live, log := [], [];
      new;
      assert Linked(links, head, head);
      assert [head] + live == [head] && [head] + live + [head] == [head, head];
    }

    // ---- buf.c: the cursor ----

    /** The cursor goes forward to the n-th node. */
    method WalkForw(n: nat)
      requires ListOk() && on <= n <= addrLast
      modifies this`lp, this`on
      ensures ListOk() && on == n
    {
      while on < n
        invariant on <= n <= addrLast && lp == Nth(head, live, on)
      {
        RingNeighbours(links, head, live, on);
        lp, on := links.forw[lp], on + 1;
      }
    }

    /** The cursor goes back to the n-th node, if it is beyond it. */
    method WalkBack(n: nat)
      requires ListOk()
      modifies this`lp, this`on
      ensures ListOk() && on == if n <= old(on) then n else old(on)
    {
      while on > n
        invariant on <= addrLast && lp == Nth(head, live, on)
        invariant if n <= old(on) then n <= on else on == old(on)
      {
        RingNeighbours(links, head, live, on);
        lp, on := links.back[lp], on - 1;
      }
    }

    /** get_addressed_line_node: whichever of the four walks it takes, the cursor ends on the n-th
        node; an address past the end gives the last one. */
    method GetAddressedLineNode(n: nat) returns (r: Line)
      requires ListOk()
      modifies this`lp, this`on
      ensures ListOk()
      ensures on == if n <= addrLast then n else addrLast
      ensures r == lp == Nth(head, live, on)
    {
      if n > on {
        if n <= (on + addrLast) / 2 {
          WalkForw(n);
        } else {
          RingNeighbours(links, head, live, 0);
          lp, on := links.back[head], addrLast;
          WalkBack(n);
        }
      } else {
        if n >= on / 2 {
          WalkBack(n);
        } else {
          lp, on := head, 0;
          WalkForw(n);
        }
      }
      r := lp;
    }

    /** get_line_node_addr: a line that is not in the buffer is an error, except that every line has
        address 0 when the buffer is empty. */
    method GetLineNodeAddr(x: Line) returns (n: int)
      requires ListOk()
      ensures x == head ==> n == 0
      ensures x in live ==> 0 < n <= |live| && live[n - 1] == x
      ensures x !in [head] + live ==> n == if addrLast == 0 then 0 else ERR
    {
      var cp := head;
      n := 0;
      DistinctCut([head], live);
      assert head in [head];
      while cp != x
        invariant 0 <= n <= |live| && cp == Nth(head, live, n)
        invariant forall i {:trigger Nth(head, live, i)} :: 0 <= i < n ==> Nth(head, live, i) != x
        decreases |live| - n
      {
        RingNeighbours(links, head, live, n);
        cp := links.forw[cp];
        if cp == head {
          break;
        }
        n := n + 1;
      }
      assert cp != x ==> cp == head && n == |live|;
      if cp != x {
        forall i | 0 <= i < |live| ensures live[i] != x {
          assert live[i] == Nth(head, live, i + 1);
        }
      }
      if n != 0 && cp == head {
        n := ERR;
      }
    }

    // ---- buf.c: the scratch file ----

    /** get_sbuf_line: the head has no text. */
    method GetSbufLine(x: Line) returns (found: bool, s: seq<char>)
      requires FileOk() && Has(links.forw.Keys, x)
      modifies this`sfseek, this`sfpos, this`seekWrite
      ensures FileOk() && found == (x != head) && (found ==> s == TextOf(spans, sfile, x))
      ensures !found ==> unchanged(this)
    {
      if x == head {
        return false, [];
      }
      found, seekWrite := true, true;
      if sfseek != spans[x].seek {
        sfseek := spans[x].seek;
        sfpos := spans[x].seek;
      }
      var len := spans[x].len;
      s := sfile[sfpos..sfpos + len];
      sfpos, sfseek := sfpos + len, sfseek + len;
    }

    /** The write of put_sbuf_line, at whatever position the file has: it never overwrites. */
    method WriteText(s: seq<char>) returns (seek: nat)
      requires FileOk()
      modifies this`sfile, this`sfseek, this`sfpos, this`seekWrite
      ensures FileOk()
      ensures sfile == old(sfile) + s && seek == |old(sfile)|
    {
      FileGrown(spans, sfile, head, links.forw.Keys, s);
      if seekWrite {
        sfpos := |sfile|;
        sfseek := sfpos;
        seekWrite := false;
      }
      seek := sfseek;
      var end := sfpos + |s|;
      sfile := sfile[..sfpos] + s + if end <= |sfile| then sfile[end..] else [];
      sfpos, sfseek := end, sfseek + |s|;
    }

    // ---- buf.c: insertion ----

    /** add_line_node, as what it does to each variable. */
    method LinkLine(x: Line, span: Span)
      requires ListOk() && currentAddr <= addrLast && x !in links.forw
      modifies this`lp, this`on, this`addrLast, this`currentAddr, this`links, this`spans
      ensures lp == Nth(head, live, old(currentAddr)) && on == old(currentAddr)
      ensures links == Insque(old(links), x, lp) && spans == old(spans)[x := span]
      ensures addrLast == old(addrLast) + 1 && currentAddr == old(currentAddr) + 1
    {
      var cp := GetAddressedLineNode(currentAddr);
      RingNeighbours(links, head, live, on);
      links := Reque(Reque(links, x, links.forw[cp]), cp, x);
      spans := spans[x := span];
      addrLast, currentAddr := addrLast + 1, currentAddr + 1;
    }

    /** add_line_node: a new line enters the list after the current one. */
    method AddLineNode(x: Line, span: Span, ghost pre: seq<Line>, ghost post: seq<Line>)
      requires Core() && x !in links.forw && x != NULL
      requires live == pre + post && currentAddr == |pre|
      modifies this`lp, this`on, this`addrLast, this`currentAddr, this`live, this`log, this`links, this`spans
      ensures Core()
      ensures currentAddr == |pre| + 1 && spans == old(spans)[x := span]
      ensures links.forw.Keys == old(links).forw.Keys + {x}
      ensures live == pre + [x] + post && log == old(log) + [Add(pre, [x], post)]
      ensures Saved() == old(Saved())
    {
      LineAdded(links, head, log, live, pre, x, post);
      CountersAdded(head, pre, x, post, uCurrentAddr, uAddrLast, Saved());
      LinkLine(x, span);
      log, live := log + [Add(pre, [x], post)], pre + [x] + post;
    }

    /** malloc: any address that is not in use. */
    method NewLine() returns (x: Line)
      ensures x !in links.forw && x != NULL
    {
      Addresses.FreshAddress(links.forw.Keys);
      x :| x !in links.forw && x != NULL;
    }

    /** put_sbuf_line: the text goes to the end of the scratch file, and its line after the current
        one. */
    method PutSbufLine(s: seq<char>, ghost pre: seq<Line>, ghost post: seq<Line>) returns (x: Line)
      requires Core() && FileOk()
      requires live == pre + post && currentAddr == |pre|
      modifies this`sfile, this`sfseek, this`sfpos, this`seekWrite
      modifies this`lp, this`on, this`addrLast, this`currentAddr, this`live, this`log, this`links, this`spans
      ensures Core() && FileOk()
      ensures currentAddr == |pre| + 1
      ensures x !in old(links).forw && links.forw.Keys == old(links).forw.Keys + {x}
      ensures sfile == old(sfile) + s && spans == old(spans)[x := Span(|old(sfile)|, |s|)]
      ensures live == pre + [x] + post && log == old(log) + [Add(pre, [x], post)]
      ensures Saved() == old(Saved())
    {
      x := NewLine();
      HeadIsNode(links, head, live);
      var seek := WriteText(s);
      TextAdded(spans, sfile, head, links.forw.Keys, x, Span(seek, |s|));
      AddLineNode(x, Span(seek, |s|), pre, post);
    }

    // ---- undo.c: push ----

    /** push_undo_stack */
    method PushUndoStack(kind: Kind, from: nat, to: nat)
      requires ListOk() && from <= addrLast && to <= addrLast
      modifies this`lp, this`on, this`ustack
      ensures ListOk() && on == from
      ensures ustack == old(ustack) + [Undo(kind, Nth(head, live, from), Nth(head, live, to))]
    {
      var t := GetAddressedLineNode(to);
      var h := GetAddressedLineNode(from);
      ustack := ustack + [Undo(kind, h, t)];
    }

    /** During a global command the lines from np up to mp are no longer to be visited. */
    method StrikeOff(np: Line, mp: Line, ghost seg: seq<Line>)
      requires active.Valid() && seg != [] && np == seg[0] && LeadsTo(links, seg, mp)
      modifies active`list, active`ndx
      ensures active.Valid() && active.list == if isGlobal then Struck(old(active.list), seg) else old(active.list)
    {
      if isGlobal {
        active.UnsetActiveNodes(np, mp, links, seg);
      }
    }

    // ---- main.c: delete ----

    /** delete_lines, as what it does to each variable. */
    method UnlinkLines(from: nat, to: nat)
      requires ListOk() && NULL !in links.forw && active.Valid() && 1 <= from <= to <= addrLast
      modifies this`lp, this`on, this`ustack, this`links, this`addrLast, this`currentAddr, this`modified
      modifies active`list, active`ndx
      ensures ustack == old(ustack) + [Undo(UDEL, Nth(head, live, from), Nth(head, live, to))]
      ensures active.Valid()
      ensures active.list == if isGlobal then Struck(old(active.list), live[from - 1..to]) else old(active.list)
      ensures lp == Nth(head, live, from - 1) && on == from - 1
      ensures links == Reque(old(links), lp, Nth(head, live, IncMod(to, |live|)))
      ensures addrLast == |live| - (to - from + 1) && currentAddr == from - 1 && modified
    {
      PushUndoStack(UDEL, from, to);
      var n := GetAddressedLineNode(IncMod(to, addrLast));
      var p := GetAddressedLineNode(from - 1);
      DeletedBlock(links, head, live, from, to);
      StrikeOff(links.forw[p], n, live[from - 1..to]);
      links := Reque(links, p, n);
      addrLast := addrLast - (to - from + 1);
      currentAddr := from - 1;
      modified := true;
    }

    /** delete_lines */
    method DeleteLines(from: nat, to: nat)
      requires Settled() && active.Valid() && 1 <= from <= to <= addrLast
      modifies this`lp, this`on, this`ustack, this`links
      modifies this`addrLast, this`currentAddr, this`modified, this`live, this`log
      modifies active`list, active`ndx
      ensures Settled() && active.Valid() && currentAddr == from - 1 && modified
      ensures live == old(live)[..from - 1] + old(live)[to..]
      ensures log == old(log) + [Del(old(live)[..from - 1], old(live)[from - 1..to], old(live)[to..])]
      ensures Saved() == old(Saved()) && links.forw.Keys == old(links).forw.Keys
      ensures active.list == if isGlobal then Struck(old(active.list), old(live)[from - 1..to]) else old(active.list)
    {
      LinesDeleted(links, head, log, live, from, to);
      DeletedStack(head, log, live, from, to);
      CountersDeleted(head, live, from, to, uCurrentAddr, uAddrLast, Saved());
      UnlinkLines(from, to);
      log, live := log + [Del(live[..from - 1], live[from - 1..to], live[to..])], live[..from - 1] + live[to..];
    }

    // ---- main.c: move ----

    /** The lookups of move_lines, in its order: the cursor ends where the list will not change. */
    method FindEnds(first: nat, second: nat, addr: nat) returns (b1: Line, a1: Line, b2: Line)
      requires ListOk() && 1 <= first <= second <= addrLast && addr <= addrLast
      modifies this`lp, this`on
      ensures ListOk() && on == if addr < first then addr else first - 1
      ensures var ends := MoveEnds(head, live, first, second, addr); b1 == ends.0 && a1 == ends.1 && b2 == ends.2
    {
      a1 := GetAddressedLineNode(IncMod(second, addrLast));
      if addr < first {
        b1 := GetAddressedLineNode(first - 1);
        b2 := GetAddressedLineNode(addr);
      } else {
        b2 := GetAddressedLineNode(addr);
        b1 := GetAddressedLineNode(first - 1);
      }
    }

    /** The three REQUE steps of move_lines, between its pushes and its last assignments. */
    method RequeueBlock(first: nat, second: nat, addr: nat) returns (b2: Line, a2: Line)
      requires ListOk() && 1 <= first <= second <= addrLast && addr <= addrLast && !(first - 1 <= addr <= second)
      modifies this`lp, this`on, this`links
      ensures var ends := MoveEnds(head, live, first, second, addr);
              b2 == ends.2 && a2 == ends.3 && links == MoveLinks(old(links), ends.0, ends.1, b2, a2)
      ensures on == (if addr < first then addr else first - 1) && lp == Nth(head, live, on)
    {
      var b1, a1;
      b1, a1, b2 := FindEnds(first, second, addr);
      RingNeighbours(links, head, live, addr);
      RingNeighbours(links, head, live, first - 1);
      RingNeighbours(links, head, live, IncMod(second, addrLast));
      MoveBackPointer(links, head, live, first, second, addr);
      a2 := links.forw[b2];
      links := Reque(links, b2, links.forw[b1]);
      links := Reque(links, links.back[a1], a2);
      links := Reque(links, b1, a1);
    }

    /** Both pushes and all three REQUE steps of move_lines: the links and the stack are now those of
        the moved list. */
    method RelinkLines(first: nat, second: nat, addr: nat) returns (b2: Line, a2: Line, ghost st: Step)
      requires Settled()
      requires 1 <= first <= second <= addrLast && addr <= addrLast && !(first - 1 <= addr <= second)
      modifies this`lp, this`on, this`ustack, this`links
      ensures var live' := Moved(live, first, second, addr);
              && Owned(links, head, log + [st], live')
              && CursorOk(head, live', addrLast, lp, on)
              && At(log + [st], live', 0) == Saved()
      ensures ustack == EncodeAll(head, log + [st])
      ensures links.forw.Keys == old(links).forw.Keys
      ensures b2 in links.forw && links.forw[b2] == live[first - 1] && LeadsTo(links, live[first - 1..second], a2)
    {
      assert ListOk();
      hide Owned, Moved, MoveStep, MoveLinks, AddressesOk, At;
      st := MoveStep(live, first, second, addr);
      ghost var ends := MoveEnds(head, live, first, second, addr);
      PushMove(first, second, addr);
      b2, a2 := RequeueBlock(first, second, addr);
      LinesMoved(old(links), links, head, log, live, first, second, addr, ends);
      SavedMoved(head, log, live, first, second, addr);
      CursorMoved(head, live, first, second, addr);
    }

    /** The pair of entries of a move. */
    method PushMove(first: nat, second: nat, addr: nat)
      requires ListOk() && 1 <= first <= second <= addrLast && addr <= addrLast
      modifies this`lp, this`on, this`ustack
      ensures ListOk()
      ensures var ends := MoveEnds(head, live, first, second, addr);
              ustack == old(ustack) + [Undo(UMOV, ends.0, ends.1), Undo(UMOV, ends.2, ends.3)]
    {
      hide Ring;
      PushUndoStack(UMOV, first - 1, IncMod(second, addrLast));
      PushUndoStack(UMOV, addr, IncMod(addr, addrLast));
    }

    /** The branch of move_lines where there is something to move. */
    method MoveBlock(first: nat, second: nat, addr: nat) returns (b2: Line, a2: Line)
      requires Settled()
      requires 1 <= first <= second <= addrLast && addr <= addrLast && !(first - 1 <= addr <= second)
      modifies this`lp, this`on, this`ustack, this`links, this`currentAddr, this`live, this`log
      ensures Settled()
      ensures live == Moved(old(live), first, second, addr)
      ensures currentAddr == addr + if addr < first then second - first + 1 else 0
      ensures Saved() == old(Saved()) && links.forw.Keys == old(links).forw.Keys
      ensures b2 in links.forw && links.forw[b2] == old(live)[first - 1]
      ensures LeadsTo(links, old(live)[first - 1..second], a2)
    {
      LastMoved(live, first, second, addr);
      ghost var st;
      b2, a2, st := RelinkLines(first, second, addr);
      currentAddr := addr + if addr < first then second - first + 1 else 0;
      log, live := log + [st], Moved(live, first, second, addr);
    }

    /** The branch of move_lines where the destination is next to the range. */
    method MoveNowhere(first: nat, second: nat) returns (b2: Line, a2: Line)
      requires Settled() && 1 <= first <= second <= addrLast
      modifies this`lp, this`on, this`currentAddr
      ensures Settled() && currentAddr == second
      ensures b2 in links.forw && links.forw[b2] == live[first - 1] && LeadsTo(links, live[first - 1..second], a2)
    {
      a2 := GetAddressedLineNode(IncMod(second, addrLast));
      b2 := GetAddressedLineNode(first - 1);
      currentAddr := second;
      DeletedBlock(links, head, live, first, second);
    }

    /** move_lines: the range goes after addr, and its last line becomes the current one. */
    method MoveLines(first: nat, second: nat, addr: nat)
      requires Settled() && active.Valid() && 1 <= first <= second <= addrLast
      requires addr <= addrLast && !(first <= addr < second)
      modifies this`lp, this`on, this`ustack, this`links, this`currentAddr, this`modified, this`live, this`log
      modifies active`list, active`ndx
      ensures Settled() && active.Valid() && modified
      ensures live == Moved(old(live), first, second, addr)
      ensures currentAddr == addr + if addr < first then second - first + 1 else 0
      ensures currentAddr > 0 && live[currentAddr - 1] == old(live)[second - 1]
      ensures Saved() == old(Saved()) && links.forw.Keys == old(links).forw.Keys
      ensures active.list
              == if isGlobal then Struck(old(active.list), old(live)[first - 1..second]) else old(active.list)
    {
      hide Owned, AddressesOk, Moved, Struck, LeadsTo;
      ghost var seg := live[first - 1..second];
      LastMoved(live, first, second, addr);
      var b2, a2 := Relocate(first, second, addr);
      StrikeOff(links.forw[b2], a2, seg);
      modified := true;
    }

    /** Either branch of move_lines. */
    method Relocate(first: nat, second: nat, addr: nat) returns (b2: Line, a2: Line)
      requires Settled() && 1 <= first <= second <= addrLast && addr <= addrLast && !(first <= addr < second)
      modifies this`lp, this`on, this`ustack, this`links, this`currentAddr, this`live, this`log
      ensures Settled() && live == Moved(old(live), first, second, addr)
      ensures currentAddr == addr + if addr < first then second - first + 1 else 0
      ensures Saved() == old(Saved()) && links.forw.Keys == old(links).forw.Keys
      ensures b2 in links.forw && links.forw[b2] == old(live)[first - 1]
      ensures LeadsTo(links, old(live)[first - 1..second], a2)
    {
      LastMoved(live, first, second, addr);
      if addr == first - 1 || addr == second {
        b2, a2 := MoveNowhere(first, second);
      } else {
        b2, a2 := MoveBlock(first, second, addr);
      }
    }

    // ---- main.c: append ----

    /** Enter the line just added on the undo stack: as the new tail of the entry up, or, when up is
        -1, as an entry of its own. */
    method NoteAdded(up: int, ghost g: seq<Step>, ghost pre: seq<Line>, ghost seg: seq<Line>, ghost x: Line,
                     ghost post: seq<Line>)
      returns (up': int)
      requires Core() && log == Entered(g, pre, seg, x, post)
      requires live == pre + seg + [x] + post && currentAddr == |pre| + |seg| + 1
      requires ustack == EncodeAll(head, Grown(g, pre, seg, post))
      requires up == if seg == [] then -1 else |ustack| - 1
      modifies this`lp, this`on, this`ustack, this`log
      ensures Settled() && log == Grown(g, pre, seg + [x], post) && Saved() == old(Saved())
      ensures up' == |ustack| - 1
    {
      hide Coherent, Accounted, EncodeAll, Entered, Grown;
      MergeOwned(links, head, live, g, pre, seg, x, post);
      OwnedRing(links, head, log, live);
      StackGrown(head, g, pre, seg, x, post);
      assert Nth(head, live, currentAddr) == x;
      up' := up;
      if up >= 0 {
        var t := GetAddressedLineNode(currentAddr);
        ustack := ustack[up := ustack[up].(t := t)];
      } else {
        PushUndoStack(UADD, currentAddr, currentAddr);
        up' := |ustack| - 1;
      }
      log := Grown(g, pre, seg + [x], post);
    }

    /** One line of input: put_sbuf_line, then its entry. */
    method PutAndNote(s: seq<char>, up: int, ghost g: seq<Step>, ghost pre: seq<Line>, ghost seg: seq<Line>,
                      ghost post: seq<Line>)
      returns (x: Line, up': int)
      requires Settled() && FileOk()
      requires live == pre + seg + post && currentAddr == |pre| + |seg| && log == Grown(g, pre, seg, post)
      requires up == if seg == [] then -1 else |ustack| - 1
      modifies this`sfile, this`sfseek, this`sfpos, this`seekWrite, this`ustack
      modifies this`lp, this`on, this`addrLast, this`currentAddr, this`live, this`log, this`links, this`spans
      ensures Settled() && FileOk()
      ensures live == pre + (seg + [x]) + post && currentAddr == |pre| + |seg| + 1
      ensures log == Grown(g, pre, seg + [x], post)
      ensures up' == |ustack| - 1
      ensures x !in old(links).forw && links.forw.Keys == old(links).forw.Keys + {x}
      ensures sfile == old(sfile) + s && spans == old(spans)[x := Span(|old(sfile)|, |s|)]
      ensures Saved() == old(Saved())
    {
      x := PutSbufLine(s, pre + seg, post);
      EnteredIsGrown(g, pre, seg, x, post);
      up' := NoteAdded(up, g, pre, seg, x, post);
    }

    // ---- undo.c: pop ----

    method RelinkAdded(e: Undo, ghost nodes: set<Line>)
      requires nodes <= links.forw.Keys && nodes <= links.back.Keys && e.h in nodes && e.t in nodes
      modifies this`links
      ensures links == UndoAdd(old(links), e) && nodes <= links.forw.Keys && nodes <= links.back.Keys
    {
      links := Reque(links, links.back[e.h], links.forw[e.t]);
    }

    method RelinkDeleted(e: Undo, ghost nodes: set<Line>)
      requires nodes <= links.forw.Keys && nodes <= links.back.Keys && e.h in nodes && e.t in nodes
      modifies this`links
      ensures links == UndoDel(old(links), e) && nodes <= links.forw.Keys && nodes <= links.back.Keys
    {
      links := Reque(links, links.back[e.h], e.h);
      links := Reque(links, e.t, links.forw[e.t]);
    }

    method RelinkMoved(d: Undo, e: Undo, ghost nodes: set<Line>)
      requires nodes <= links.forw.Keys && nodes <= links.back.Keys && e.h in nodes && e.t in nodes
      modifies this`links
      ensures links == UndoMov(old(links), d, e) && nodes <= links.forw.Keys && nodes <= links.back.Keys
    {
      links := Reque(links, d.h, links.forw[e.h]);
      links := Reque(links, links.back[e.t], d.t);
      links := Reque(links, e.h, e.t);
    }

    /** Entry n becomes the one that leads back again. */
    method FlipTag(n: nat)
      requires n < |ustack|
      modifies this`ustack
      ensures ustack == old(ustack)[n := FlipEntry(old(ustack)[n])]
    {
      ustack := ustack[n := ustack[n].(kind := Flip(ustack[n].kind))];
    }

    /** One turn of the loop of pop_undo_stack, at entry n - 1: relink, and flip the tag. */
    method UndoEntry(n: nat, ghost nodes: set<Line>) returns (n': nat)
      requires 0 < n <= |ustack| && (ustack[n - 1].kind.UMOV? || ustack[n - 1].kind.VMOV? ==> n >= 2)
      requires ustack[n - 1].h in nodes && ustack[n - 1].t in nodes
      requires nodes <= links.forw.Keys && nodes <= links.back.Keys
      modifies this`links, this`ustack
      ensures n' < n && ustack == old(ustack)[n' := FlipEntry(old(ustack)[n'])]
      ensures WalksTo(old(ustack), n, old(links), n', links)
      ensures nodes <= links.forw.Keys && nodes <= links.back.Keys
    {
      n' := n - 1;
      match ustack[n'].kind {
        case UADD =>
          RelinkAdded(ustack[n'], nodes);
        case UDEL =>
          RelinkDeleted(ustack[n'], nodes);
        case _ =>
          RelinkMoved(ustack[n' - 1], ustack[n'], nodes);
          n' := n' - 1;
      }
      FlipTag(n');
    }

    /** The loop of pop_undo_stack. */
    method UndoEntries(ghost nodes: set<Line>)
      requires Paired(ustack, |ustack|) && StackIn(ustack, nodes)
      requires nodes <= links.forw.Keys && nodes <= links.back.Keys
      modifies this`links, this`ustack
      ensures links == Replay(old(links), old(ustack), |old(ustack)|)
      ensures ustack == FlipTags(old(ustack), |old(ustack)|)
    {
      ghost var stk, l := ustack, links;
      var n: nat := |ustack|;
      while n > 0
        invariant n <= |ustack| == |stk| && Paired(stk, n) && ustack[..n] == stk[..n]
        invariant Replay(links, stk, n) == Replay(l, stk, |stk|)
        invariant FlipTags(stk, n) + ustack[n..] == FlipTags(stk, |stk|)
        invariant nodes <= links.forw.Keys && nodes <= links.back.Keys
      {
        ghost var before, l1, m := ustack, links, n;
        SameTop(before, stk, n);
        n := UndoEntry(n, nodes);
        WalkOne(stk, before, m, l1, n, links, ustack, |stk|);
      }
      assert ustack[0..] == ustack;
    }

    /** Reverse undo stack order. */
    method ReverseStack()
      modifies this`ustack
      ensures ustack == Reverse(old(ustack))
    {
      ghost var s := ustack;
      var u := |ustack|;
      var n := u;
      while n > (u + 1) / 2
        invariant (u + 1) / 2 <= n <= u == |ustack| == |s|
        invariant forall i :: n <= i < u ==> ustack[i] == s[u - 1 - i]
        invariant forall i :: 0 <= i < u - n ==> ustack[i] == s[u - 1 - i]
        invariant forall i :: u - n <= i < n ==> ustack[i] == s[i]
      {
        n := n - 1;
        assert n > u - 1 - n;
        var x, y := ustack[n], ustack[u - 1 - n];
        ustack := ustack[n := y][u - 1 - n := x];
      }
      forall i | 0 <= i < u ensures |Reverse(s)| == u && ustack[i] == Reverse(s)[i] {
        ReverseAt(s, i);
      }
      ReverseLength(s);
    }

    /** The loop and the reversal of pop_undo_stack. */
    method UndoStack()
      requires Owned(links, head, log, live) && ustack == EncodeAll(head, log)
      modifies this`links, this`ustack
      ensures links == UndoLinks(old(links), old(ustack)) && ustack == TurnRound(old(ustack))
    {
      StackAllocated(links, head, log, live);
      UndoEntries(links.forw.Keys);
      ReverseStack();
    }

    /** pop_undo_stack, once there is something to undo. */
    method UndoAll()
      requires Settled() && uAddrLast >= 0 && uCurrentAddr >= 0
      modifies this`lp, this`on, this`links, this`ustack, this`currentAddr, this`addrLast
      modifies this`uCurrentAddr, this`uAddrLast, this`live, this`log
      ensures Settled() && links.forw.Keys == old(links).forw.Keys
      ensures live == old(Saved()) && Saved() == old(live) && log == InvertAll(old(log))
      ensures currentAddr == old(uCurrentAddr) && uCurrentAddr == old(currentAddr) && uAddrLast == old(addrLast)
      ensures links == UndoLinks(old(links), old(ustack)) && ustack == TurnRound(old(ustack))
    {
      hide Coherent, Accounted, EncodeAll, UndoLinks, TurnRound, InvertAll;
      OwnedRing(links, head, log, live);
      var oCurrentAddr, oAddrLast := currentAddr, addrLast;
      var _ := GetAddressedLineNode(0);
      StackUndone(links, head, log, live);
      UndoStack();
      currentAddr, uCurrentAddr := uCurrentAddr, oCurrentAddr;
      addrLast, uAddrLast := uAddrLast, oAddrLast;
      log, live := InvertAll(log), Saved();
    }

    /** pop_undo_stack: the saved list and addresses come back, and what was there is saved. */
    method PopUndoStack() returns (status: int)
      requires Settled()
      modifies this`lp, this`on, this`links, this`ustack, this`modified, this`currentAddr, this`addrLast
      modifies this`uCurrentAddr, this`uAddrLast, this`live, this`log, active
      ensures Settled() && links.forw.Keys == old(links).forw.Keys
      ensures status == if old(uCurrentAddr) == -1 || old(uAddrLast) == -1 then ERR else 0
      ensures status == ERR ==> unchanged(this) && unchanged(active)
      ensures status == 0 ==> live == old(Saved()) && Saved() == old(live) && log == InvertAll(old(log))
      ensures status == 0 ==>
        currentAddr == old(uCurrentAddr) && uCurrentAddr == old(currentAddr) && uAddrLast == old(addrLast)
      ensures status == 0 ==> links == UndoLinks(old(links), old(ustack)) && ustack == TurnRound(old(ustack))
      ensures status == 0 ==> modified == (old(modified) || old(ustack) != [])
      ensures status == 0 ==> if isGlobal then active.Valid() && active.list == [] else unchanged(active)
    {
      if uCurrentAddr == -1 || uAddrLast == -1 {
        return ERR;
      } else if |ustack| > 0 {
        modified := true;
      }
      UndoAll();
      if isGlobal {
        active.Clear();
      }
      status := 0;
    }

    /** Two calls in a row change nothing: not a pointer, nor either list or address, and the stack undoes as
        before. */
    method PopTwice()
      requires Settled() && uCurrentAddr >= 0 && uAddrLast >= 0
      modifies this`lp, this`on, this`links, this`ustack, this`modified, this`currentAddr, this`addrLast
      modifies this`uCurrentAddr, this`uAddrLast, this`live, this`log, active
      ensures Settled() && links == old(links) && live == old(live) && Saved() == old(Saved())
      ensures currentAddr == old(currentAddr) && addrLast == old(addrLast)
      ensures uCurrentAddr == old(uCurrentAddr) && uAddrLast == old(uAddrLast)
      ensures forall l :: UndoLinks(l, ustack) == UndoLinks(l, old(ustack))
    {
      hide UndoLinks, TurnRound, EncodeAll, Coherent, Accounted;
      AccountedCovers(links, head, log, live);
      UndoTwice(links, head, log, live, links.forw.Keys);
      var status := PopUndoStack();
      status := PopUndoStack();
    }

    // ---- undo.c: clear ----

    /** A line is freed, and no mark stays on it. */
    method FreeLine(x: Line)
      requires x in links.forw && x in links.back && x != NULL && MarksOk()
      modifies this`links, this`spans, marks, marks.mark
      ensures links == Without(old(links), {x}) && spans == old(spans) - {x} && MarksOk()
      ensures marks.mark[..] == Within(old(marks.mark[..]), links.forw.Keys)
    {
      MarksWithout(marks.mark[..], head, links.forw.Keys, x);
      marks.UnmarkLineNode(x);
      links := Without(links, {x});
      spans := spans - {x};
    }

    /** The inner loop of clear_undo_stack: every node of the segment is freed once, and the link to
        the next is read before. */
    method FreeSegment(e: Undo, ghost seg: seq<Line>, ghost n: Line)
      requires LeadsTo(links, seg, n) && Distinct(seg) && seg != [] && e.h == seg[0] && e.t == Last(seg)
      requires links.forw.Keys == links.back.Keys && MarksOk()
      modifies this`links, this`spans, marks, marks.mark
      ensures links == Without(old(links), Elems(seg)) && spans == old(spans) - Elems(seg) && MarksOk()
      ensures marks.mark[..] == Within(old(marks.mark[..]), links.forw.Keys)
    {
      assert e.t == seg[|seg| - 1];
      var ep := links.forw[e.t];
      var lp := e.h;
      ghost var i, l, sp := 0, links, spans;
      WithoutNone(links, spans);
      MarksWithin(marks.mark[..], head, links.forw.Keys);
      while lp != ep
        invariant 0 <= i <= |seg| && lp == (if i < |seg| then seg[i] else n)
        invariant links == Without(l, Elems(seg[..i])) && spans == sp - Elems(seg[..i]) && MarksOk()
        invariant marks.mark[..] == Within(old(marks.mark[..]), links.forw.Keys)
        decreases |seg| - i
      {
        OneMore(l, sp, seg, i, n);
        var tl := links.forw[lp];
        ghost var nodes := links.forw.Keys;
        FreeLine(lp);
        WithinTwice(old(marks.mark[..]), nodes, links.forw.Keys);
        lp, i := tl, i + 1;
      }
      assert seg[..i] == seg;
    }

    /** Where clear_undo_stack stands when the entries from n on are gone, with k steps below. */
    ghost predicate ClearingOk(k: nat, n: nat, sp: map<Line, Span>, m: seq<Line>)
      reads this, marks, marks.mark
    {
      && k <= |log| && History(head, log, live) && Standing(log, k, n)
      && Clearing(links, head, log, live, k)
      && TextsIn(spans, sfile, head, links.forw.Keys) && MarksOk() && marks.mark[..] == Within(m, links.forw.Keys)
      && (forall x :: x in sp && x in live ==> x in spans && spans[x] == sp[x])
    }

    /** One turn of the loop of clear_undo_stack, at entry n - 1. */
    method ClearEntry(n: nat, ghost k: nat, ghost sp: map<Line, Span>, ghost m: seq<Line>) returns (ghost k': nat)
      requires ClearingOk(k, n, sp, m) && ustack == EncodeAll(head, log) && 0 < n <= |ustack|
      modifies this`links, this`spans, marks, marks.mark
      ensures ClearingOk(k', n - 1, sp, m)
    {
      k' := TopEntry(ustack, head, log, k, n);
      if ustack[n - 1].kind == UDEL {
        SegmentToFree(links, head, log, live, k);
        ClearingFrees(links, head, log, live, k);
        ghost var st := log[k'];
        SegmentNotLive(head, log, live, k');
        TextsWithout(spans, sfile, head, links.forw.Keys, Elems(st.seg));
        ghost var nodes := links.forw.Keys;
        FreeSegment(ustack[n - 1], st.seg, Succ(head, st.post));
        WithinTwice(m, nodes, links.forw.Keys);
      } else if k' < k {
        ClearingSkips(links, head, log, live, k);
      }
    }

    /** The outer loop of clear_undo_stack. */
    method ClearEntries()
      requires Owned(links, head, log, live) && ustack == EncodeAll(head, log)
      requires TextsIn(spans, sfile, head, links.forw.Keys) && MarksOk()
      modifies this`links, this`spans, marks, marks.mark
      ensures Owned(links, head, [], live)
      ensures TextsIn(spans, sfile, head, links.forw.Keys) && MarksOk()
      ensures marks.mark[..] == Within(old(marks.mark[..]), links.forw.Keys)
      ensures forall x :: x in old(spans) && x in live ==> x in spans && spans[x] == old(spans)[x]
    {
      ClearingStarts(links, head, log, live);
      MarksWithin(marks.mark[..], head, links.forw.Keys);
      Walkable(head, log);
      var n: nat := |ustack|;
      ghost var k: nat := |log|;
      while n > 0
        invariant n <= |ustack| && ClearingOk(k, n, old(spans), old(marks.mark[..]))
      {
        k := ClearEntry(n, k, old(spans), old(marks.mark[..]));
        n := n - 1;
      }
      BottomOfStack(log, k);
      ClearingEnds(links, head, log, live);
    }

    /** clear_undo_stack: every detached node is freed, and no other; the marks on those are cleared, and
        no others. */
    method ClearUndoStack()
      requires Settled() && FileOk() && MarksOk()
      modifies this`ustack, this`links, this`spans, this`uCurrentAddr, this`uAddrLast, this`log, marks, marks.mark
      ensures Settled() && FileOk() && MarksOk()
      ensures log == [] && ustack == [] && Saved() == live
      ensures uCurrentAddr == currentAddr && uAddrLast == addrLast
      ensures forall x :: x in old(spans) && x in live ==> x in spans && spans[x] == old(spans)[x]
      ensures forall x :: x in links.forw <==> x == head || x in live
      ensures marks.mark[..] == Within(old(marks.mark[..]), Elems(live))
    {
      ClearEntries();
      forall x ensures x in links.forw <==> x == head || x in live {
        assert IsNode(links, x) <==> HasOwner(head, [], live, x);
      }
      MarksOfLines(old(marks.mark[..]), head, old(links).forw.Keys, links.forw.Keys, live);
      ustack, log := [], [];
      uCurrentAddr := currentAddr;
      uAddrLast := addrLast;
    }

    // ---- main.c: append ----

    /** Lines seg are being added between pre and post, as the top entry of the stack, if any. */
    ghost predicate Adding(up: int, g: seq<Step>, pre: seq<Line>, seg: seq<Line>, post: seq<Line>)
      reads this
    {
      && Settled() && FileOk()
      && live == pre + seg + post && currentAddr == |pre| + |seg| && log == Grown(g, pre, seg, post)
      && up == if seg == [] then -1 else |ustack| - 1
    }

    /** Of the lines of input, seg have been added so far. */
    ghost predicate Putting(up: int, done: seq<seq<char>>, g: seq<Step>, pre: seq<Line>, seg: seq<Line>,
                            post: seq<Line>,
                            sp: map<Line, Span>, sf: seq<char>, nodes: set<Line>)
      reads this
    {
      && Adding(up, g, pre, seg, post) && TextsOf(spans, sfile, seg) == done
      && nodes <= links.forw.Keys && Extends(sp, sf, spans, sfile, nodes)
      && forall x :: x in seg ==> x !in nodes && x in links.forw && x != head
    }

    /** One line of input more. */
    method PutNext(s: seq<char>, up: int, ghost done: seq<seq<char>>, ghost g: seq<Step>, ghost pre: seq<Line>,
                   ghost seg: seq<Line>, ghost post: seq<Line>,
                   ghost sp: map<Line, Span>, ghost sf: seq<char>, ghost nodes: set<Line>)
      returns (up': int, ghost seg': seq<Line>)
      requires Putting(up, done, g, pre, seg, post, sp, sf, nodes)
      modifies this`sfile, this`sfseek, this`sfpos, this`seekWrite, this`ustack
      modifies this`lp, this`on, this`addrLast, this`currentAddr, this`live, this`log, this`links, this`spans
      ensures Putting(up', done + [s], g, pre, seg', post, sp, sf, nodes) && Saved() == old(Saved())
    {
      hide TextsOf, TextsIn;
      ghost var sp1, sf1, nodes1 := spans, sfile, links.forw.Keys;
      ghost var x;
      assert head in links.forw by {
        HeadIsNode(links, head, live);
      }
      x, up' := PutAndNote(s, up, g, pre, seg, post);
      OneMoreText(sp, sf, nodes, sp1, sf1, nodes1, head, seg, x, s);
      seg' := seg + [x];
    }

    /** One line after another goes to the buffer and into the one entry of the undo stack. */
    method PutLines(input: seq<seq<char>>, ghost pre: seq<Line>, ghost post: seq<Line>) returns (ghost seg: seq<Line>)
      requires Settled() && FileOk() && live == pre + post && currentAddr == |pre|
      modifies this`sfile, this`sfseek, this`sfpos, this`seekWrite, this`ustack
      modifies this`lp, this`on, this`addrLast, this`currentAddr, this`live, this`log, this`links, this`spans
      ensures exists up :: Putting(up, input, old(log), pre, seg, post, old(spans), old(sfile), old(links).forw.Keys)
      ensures Saved() == old(Saved())
    {
      hide Settled, TextsIn;
      seg := [];
      ghost var g, sp, sf, nodes, done := log, spans, sfile, links.forw.Keys, input[..0];
      var up, i := -1, 0;
      assert pre + seg + post == live;
      while i < |input|
        invariant 0 <= i <= |input| && Putting(up, done, g, pre, seg, post, sp, sf, nodes)
        invariant done == input[..i] && Saved() == old(Saved())
      {
        up, seg := PutNext(input[i], up, done, g, pre, seg, post, sp, sf, nodes);
        done, i := done + [input[i]], i + 1;
      }
      assert input[..i] == input;
    }

    /** append_lines: the input goes in after line n. */
    method AppendLines(n: nat, input: seq<seq<char>>) returns (ghost seg: seq<Line>)
      requires Settled() && FileOk() && n <= addrLast
      modifies this`sfile, this`sfseek, this`sfpos, this`seekWrite, this`ustack, this`modified
      modifies this`lp, this`on, this`addrLast, this`currentAddr, this`live, this`log, this`links, this`spans
      ensures Settled() && FileOk()
      ensures live == old(live)[..n] + seg + old(live)[n..]
      ensures log == Grown(old(log), old(live)[..n], seg, old(live)[n..])
      ensures TextsOf(spans, sfile, seg) == input && currentAddr == n + |input|
      ensures old(links).forw.Keys <= links.forw.Keys && forall x :: x in seg ==> x !in old(links).forw
      ensures Extends(old(spans), old(sfile), spans, sfile, old(links).forw.Keys)
      ensures Saved() == old(Saved()) && modified == (old(modified) || input != [])
    {
      currentAddr := n;
      assert live == live[..n] + live[n..];
      seg := PutLines(input, live[..n], live[n..]);
      if |input| > 0 {
        modified := true;
      }
    }

    // ---- main.c: copy ----

    /** Enter the copy just added, as copy_lines does it: in the entry of the copies before it, if any. */
    method NoteCopied(up: int, x: Line, ghost g: seq<Step>, ghost pre: seq<Line>, ghost seg: seq<Line>,
                      ghost post: seq<Line>)
      returns (up': int)
      requires Core() && log == Entered(g, pre, seg, x, post)
      requires live == pre + seg + [x] + post && currentAddr == |pre| + |seg| + 1
      requires ustack == EncodeAll(head, Grown(g, pre, seg, post))
      requires up == if seg == [] then -1 else |ustack| - 1
      modifies this`lp, this`on, this`ustack, this`log, this`modified
      ensures Settled() && modified && log == Grown(g, pre, seg + [x], post) && Saved() == old(Saved())
      ensures up' == |ustack| - 1
    {
      hide Coherent, Accounted, EncodeAll, Entered, Grown;
      MergeOwned(links, head, live, g, pre, seg, x, post);
      OwnedRing(links, head, log, live);
      StackGrown(head, g, pre, seg, x, post);
      assert Nth(head, live, currentAddr) == x;
      up', modified := up, true;
      if up >= 0 {
        ustack := ustack[up := ustack[up].(t := x)];
      } else {
        PushUndoStack(UADD, currentAddr, currentAddr);
        up' := |ustack| - 1;
      }
      log := Grown(g, pre, seg + [x], post);
    }

    /** dup_line_node and add_line_node: a new line with the text of np. */
    method AddCopy(np: Line, ghost pre: seq<Line>, ghost post: seq<Line>) returns (x: Line)
      requires Core() && FileOk() && np in spans && spans[np].seek + spans[np].len <= |sfile|
      requires live == pre + post && currentAddr == |pre|
      modifies this`lp, this`on, this`addrLast, this`currentAddr, this`live, this`log, this`links, this`spans
      ensures Core() && FileOk()
      ensures currentAddr == |pre| + 1
      ensures x !in old(links).forw && links.forw.Keys == old(links).forw.Keys + {x}
      ensures spans == old(spans)[x := old(spans)[np]]
      ensures live == pre + [x] + post && log == old(log) + [Add(pre, [x], post)]
      ensures Saved() == old(Saved())
    {
      x := NewLine();
      HeadIsNode(links, head, live);
      TextAdded(spans, sfile, head, links.forw.Keys, x, spans[np]);
      AddLineNode(x, spans[np], pre, post);
    }

    /** One turn of the loop of copy_lines. */
    method CopyOne(np: Line, up: int, ghost g: seq<Step>, ghost pre: seq<Line>, ghost seg: seq<Line>,
                   ghost post: seq<Line>)
      returns (x: Line, up': int)
      requires Settled() && FileOk() && np in spans && spans[np].seek + spans[np].len <= |sfile|
      requires live == pre + seg + post && currentAddr == |pre| + |seg| && log == Grown(g, pre, seg, post)
      requires up == if seg == [] then -1 else |ustack| - 1
      modifies this`ustack, this`modified
      modifies this`lp, this`on, this`addrLast, this`currentAddr, this`live, this`log, this`links, this`spans
      ensures Settled() && FileOk() && modified
      ensures live == pre + (seg + [x]) + post && currentAddr == |pre| + |seg| + 1
      ensures log == Grown(g, pre, seg + [x], post)
      ensures up' == |ustack| - 1
      ensures x !in old(links).forw && links.forw.Keys == old(links).forw.Keys + {x}
      ensures spans == old(spans)[x := old(spans)[np]]
      ensures Saved() == old(Saved())
    {
      x := AddCopy(np, pre + seg, post);
      EnteredIsGrown(g, pre, seg, x, post);
      up' := NoteCopied(up, x, g, pre, seg, post);
    }

    /** The copies new' made so far of the lines src: their texts, and that they are new. */
    ghost predicate CopiesOk(src: seq<Line>, new': seq<Line>, sp: map<Line, Span>, nodes: set<Line>)
      reads this
    {
      && Copies(spans, new', src) && nodes <= links.forw.Keys && Extends(sp, sfile, spans, sfile, nodes)
      && (forall y :: y in new' ==> y !in nodes && y in links.forw)
      && (forall y :: y in src ==> y in links.forw)
    }

    /** The inner loop of copy_lines stands at np, the k-th of the original lines; it began at the j-th
        and will end at the end-th, and has made the copies new' of the lines src. */
    ghost predicate Copying(np: Line, up: int, j: nat, k: nat, end: nat, src: seq<Line>, new': seq<Line>,
                            sp: map<Line, Span>, nodes: set<Line>,
                            g: seq<Step>, pre: seq<Line>, seg: seq<Line>, post: seq<Line>)
      reads this
    {
      && Adding(up, g, pre, seg + new', post) && CopiesOk(src, new', sp, nodes)
      && j <= k <= end <= |pre + post| && (k < end ==> np == (pre + post)[k])
      && |src| == k - j && src <= (pre + post)[j..end]
    }

    /** One line of the inner loop of copy_lines. */
    method CopyNext(np: Line, up: int, ghost k: nat, ghost end: nat, ghost src: seq<Line>, ghost new': seq<Line>,
                    ghost sp: map<Line, Span>, ghost nodes: set<Line>,
                    ghost g: seq<Step>, ghost pre: seq<Line>, ghost seg: seq<Line>, ghost post: seq<Line>)
      returns (x: Line, up': int, np': Line)
      requires Adding(up, g, pre, seg, post) && k < end <= |pre + post| && np == (pre + post)[k]
      requires CopiesOk(src, new', sp, nodes) && (|pre| <= k || end <= |pre|)
      modifies this`ustack, this`modified
      modifies this`lp, this`on, this`addrLast, this`currentAddr, this`live, this`log, this`links, this`spans
      ensures Adding(up', g, pre, seg + [x], post) && modified && Saved() == old(Saved())
      ensures CopiesOk(src + [np], new' + [x], sp, nodes)
      ensures k + 1 < end ==> np' == (pre + post)[k + 1]
    {
      OriginalIsLive(links, head, pre, seg, post, k, spans, sfile);
      x, up' := CopyOne(np, up, g, pre, seg, post);
      CopyKept(sp, nodes, old(spans), old(links).forw.Keys, sfile, new', src, x, np);
      if k + 1 < end {
        NextOriginal(links, head, pre, seg + [x], post, k);
      }
      np' := links.forw[np];
    }

    /** One turn of the inner loop of copy_lines. */
    method CopyTurn(np: Line, up: int, ghost j: nat, ghost k: nat, ghost k': nat, ghost end: nat,
                    ghost src: seq<Line>, ghost new': seq<Line>,
                    ghost sp: map<Line, Span>, ghost nodes: set<Line>,
                    ghost g: seq<Step>, ghost pre: seq<Line>, ghost seg: seq<Line>, ghost post: seq<Line>)
      returns (np': Line, up': int, ghost src': seq<Line>, ghost new'': seq<Line>)
      requires Copying(np, up, j, k, end, src, new', sp, nodes, g, pre, seg, post)
      requires k < end && k' == k + 1 && (|pre| <= j || end <= |pre|)
      modifies this`ustack, this`modified
      modifies this`lp, this`on, this`addrLast, this`currentAddr, this`live, this`log, this`links, this`spans
      ensures Copying(np', up', j, k', end, src', new'', sp, nodes, g, pre, seg, post)
      ensures modified && Saved() == old(Saved())
    {
      ghost var x;
      PrefixGrows(pre + post, j, end, src, k);
      x, up', np' := CopyNext(np, up, k, end, src, new', sp, nodes, g, pre, seg + new', post);
      src', new'' := src + [np], new' + [x];
      assert seg + (new' + [x]) == (seg + new') + [x];
    }

    /** The inner loop of copy_lines: the cnt original lines from the j-th on are copied. */
    method CopyPass(first: Line, cnt: nat, up: int, ghost j: nat, ghost orig: seq<Line>, ghost g: seq<Step>,
                    ghost pre: seq<Line>, ghost seg: seq<Line>, ghost post: seq<Line>)
      returns (up': int, ghost new': seq<Line>)
      requires Adding(up, g, pre, seg, post)
      requires j + cnt <= |pre + post| && (|pre| <= j || j + cnt <= |pre|) && (cnt > 0 ==> first == (pre + post)[j])
      requires orig == (pre + post)[j..j + cnt]
      modifies this`ustack, this`modified
      modifies this`lp, this`on, this`addrLast, this`currentAddr, this`live, this`log, this`links, this`spans
      ensures Adding(up', g, pre, seg + new', post)
      ensures CopiesOk(orig, new', old(spans), old(links).forw.Keys)
      ensures Saved() == old(Saved()) && modified == (old(modified) || cnt > 0)
    {
      hide Settled, TextsIn;
      var np, n: nat := first, cnt;
      ghost var src, k: nat, end: nat := [], j, j + cnt;
      up', new' := up, [];
      assert seg + [] == seg;
      while n > 0
        invariant n == end - k
        invariant Copying(np, up', j, k, end, src, new', old(spans), old(links).forw.Keys, g, pre, seg, post)
        invariant Saved() == old(Saved()) && modified == (old(modified) || n < cnt)
      {
        ghost var next: nat := k + 1;
        np, up', src, new' := CopyTurn(np, up', j, k, next, end, src, new', old(spans), old(links).forw.Keys, g, pre,
                                       seg, post);
        n, k := n - 1, next;
      }
      WholePrefix(pre + post, j, cnt, src);
    }

    /** The second pass of copy_lines begins at the line after the copies. */
    method NextPass(up: int, ghost g: seq<Step>, ghost pre: seq<Line>, ghost seg: seq<Line>, ghost post: seq<Line>)
      returns (np: Line)
      requires Adding(up, g, pre, seg, post)
      modifies this`lp, this`on
      ensures Adding(up, g, pre, seg, post) && (post != [] ==> np == post[0])
    {
      np := GetAddressedLineNode(currentAddr + 1);
      if post != [] {
        assert (pre + seg + post)[|pre| + |seg|] == post[0];
      }
    }

    /** The second pass of copy_lines, over the m lines after the copies. */
    method SecondPass(np: Line, m: nat, up: int, ghost src: seq<Line>, ghost rest: seq<Line>,
                      ghost sp: map<Line, Span>, ghost nodes: set<Line>,
                      ghost g: seq<Step>, ghost pre: seq<Line>, ghost seg: seq<Line>, ghost post: seq<Line>)
      returns (up': int, ghost seg': seq<Line>)
      requires Adding(up, g, pre, seg, post) && CopiesOk(src, seg, sp, nodes)
      requires m <= |post| && rest == post[..m] && (post != [] ==> np == post[0])
      modifies this`ustack, this`modified
      modifies this`lp, this`on, this`addrLast, this`currentAddr, this`live, this`log, this`links, this`spans
      ensures Adding(up', g, pre, seg', post) && modified == (old(modified) || m > 0) && Saved() == old(Saved())
      ensures CopiesOk(src + rest, seg', sp, nodes)
    {
      hide Settled, TextsIn;
      ghost var part;
      FirstOfRest(pre, post, m);
      up', part := CopyPass(np, m, up, |pre|, rest, g, pre, seg, post);
      seg' := seg + part;
      CopiesJoin(sp, nodes, old(spans), old(links).forw.Keys, spans, sfile, seg, part, src, rest);
    }

    /** copy_lines: copies of lines first..second go in after addr.  When addr lies inside the range the
        copies of the lines up to addr come first, and the second pass takes up after them. */
    method CopyLines(first: nat, second: nat, addr: nat) returns (ghost seg: seq<Line>)
      requires Settled() && FileOk() && 1 <= first <= second <= addrLast && addr <= addrLast
      modifies this`ustack, this`modified
      modifies this`lp, this`on, this`addrLast, this`currentAddr, this`live, this`log, this`links, this`spans
      ensures Adding(|ustack| - 1, old(log), old(live)[..addr], seg, old(live)[addr..])
      ensures seg != [] && modified && Saved() == old(Saved())
      ensures CopiesOk(old(live)[first - 1..second], seg, old(spans), old(links).forw.Keys)
    {
      var n, m: nat := second - first + 1, 0;
      if first <= addr < second {
        n := addr - first + 1;
        m := second - addr;
      }
      ghost var pre, post, src := live[..addr], live[addr..], live[first - 1..second];
      ghost var src1, src2 := CopyRange(live, first, second, addr, n, m);
      var np, up := StartCopy(first, addr, pre, post);
      seg := CopyBoth(np, up, n, m, first - 1, src, src1, src2, log, pre, post);
    }

    /** The two passes of copy_lines: over the n lines src1 from the j-th on, then over the m lines src2
        after the copies. */
    method CopyBoth(first: Line, up: int, n: nat, m: nat, ghost j: nat, ghost src: seq<Line>, ghost src1: seq<Line>,
                    ghost src2: seq<Line>,
                    ghost g: seq<Step>, ghost pre: seq<Line>, ghost post: seq<Line>)
      returns (ghost seg: seq<Line>)
      requires Adding(up, g, pre, [], post) && n > 0 && j + n <= |pre + post| && (|pre| <= j || j + n <= |pre|)
      requires first == (pre + post)[j] && src1 == (pre + post)[j..j + n]
      requires m <= |post| && src2 == post[..m] && src == src1 + src2
      modifies this`ustack, this`modified
      modifies this`lp, this`on, this`addrLast, this`currentAddr, this`live, this`log, this`links, this`spans
      ensures Adding(|ustack| - 1, g, pre, seg, post) && seg != [] && modified && Saved() == old(Saved())
      ensures CopiesOk(src, seg, old(spans), old(links).forw.Keys)
    {
      hide Settled, TextsIn;
      var np, up' := first, up;
      up', seg := CopyPass(first, n, up, j, src1, g, pre, [], post);
      assert [] + seg == seg;
      np := NextPass(up', g, pre, seg, post);
      if m > 0 {
        up', seg := SecondPass(np, m, up', src1, src2, old(spans), old(links).forw.Keys, g, pre, seg, post);
        np := NextPass(up', g, pre, seg, post);
      } else {
        assert src == src1;
      }
    }

    /** The lookup and the assignment with which copy_lines begins. */
    method StartCopy(first: nat, addr: nat, ghost pre: seq<Line>, ghost post: seq<Line>) returns (np: Line, up: int)
      requires Settled() && FileOk() && 1 <= first <= addrLast && addr <= addrLast
      requires pre == live[..addr] && post == live[addr..]
      modifies this`lp, this`on, this`currentAddr
      ensures up == -1 && Adding(up, log, pre, [], post) && np == live[first - 1] && Saved() == old(Saved())
    {
      np := GetAddressedLineNode(first);
      currentAddr := addr;
      up := -1;
      assert pre + [] + post == live;
    }
  }
}
