/** The commands of ed that put new lines in the place of old ones: c, j and s. */
module EdReplace {
  import opened EdLinks
  import opened EdTables
  import opened EdBuffer
  import opened EdEdits
  import opened Sequences
  import M = EdModel

  /** Every line of the list is allocated. */
  lemma LiveAllocated(e: Editor)
    requires e.Valid()
    ensures forall x :: x in e.live ==> x in e.links.forw.Keys
    ensures e.addrLast == |e.live| && e.currentAddr <= |e.live|
  {
    ListsAllocated(e.links, e.head, e.log, e.live);
  }

  /** delete_lines, then the new lines where the old ones were. */
  method ReplaceRange(e: Editor, first: nat, second: nat, input: seq<Text>) returns (ghost gone: seq<Line>)
    requires e.Valid() && 1 <= first <= second <= e.addrLast
    modifies e`sfile, e`sfseek, e`sfpos, e`seekWrite, e`ustack, e`modified
    modifies e`lp, e`on, e`addrLast, e`currentAddr, e`live, e`log, e`links, e`spans
    modifies e.active`list, e.active`ndx
    ensures e.Valid()
    ensures Now(e) == M.Inserted(M.Removed(old(Now(e)), first, second), first - 1, input)
    ensures KeptView(e) == old(KeptView(e))
    ensures gone == old(e.live)[first - 1..second]
    ensures Turnover(old(e.links).forw.Keys, old(e.live), e.live, gone) && old(e.links).forw.Keys <= e.links.forw.Keys
    ensures e.active.list == if e.isGlobal then Struck(old(e.active.list), gone) else old(e.active.list)
    ensures e.currentAddr <= |e.live| && e.live[e.currentAddr..] == old(e.live)[second..]
    ensures Spliced(old(e.links).forw.Keys, old(e.live), e.live, first - 1, second)
    ensures e.Saved() == old(e.Saved())
  {
    LiveAllocated(e);
    gone := DeleteRange(e, first, second);
    ghost var live, nodes := e.live, e.links.forw.Keys;
    LiveAllocated(e);
    AppendAt(e, e.currentAddr, input);
    SplicedLess(nodes, old(e.links).forw.Keys, live, e.live, first - 1, first - 1);
    SplicedAfterCut(old(e.links).forw.Keys, old(e.live), live, e.live, first - 1, second);
    TurnoverTrans(old(e.links).forw.Keys, old(e.live), live, e.live, nodes, gone, []);
    assert gone + [] == gone;
    assert live[first - 1..] == old(e.live)[second..];
  }

  lemma SplicedAfterCut(taken: set<Line>, was: seq<Line>, mid: seq<Line>, now: seq<Line>, i: nat, j: nat)
    requires i <= j <= |was| && mid == was[..i] + was[j..] && Spliced(taken, mid, now, i, i)
    ensures Spliced(taken, was, now, i, j)
  {
    assert mid[..i] == was[..i] && mid[i..] == was[j..];
  }

  /** join_lines */
  method JoinRange(e: Editor, first: nat, second: nat) returns (ghost gone: seq<Line>)
    requires e.Valid() && 1 <= first <= second <= e.addrLast
    modifies e`sfile, e`sfseek, e`sfpos, e`seekWrite, e`ustack, e`modified
    modifies e`lp, e`on, e`addrLast, e`currentAddr, e`live, e`log, e`links, e`spans
    modifies e.active`list, e.active`ndx
    ensures e.Valid()
    ensures Now(e) == M.Joined(old(Now(e)), first, second) && KeptView(e) == old(KeptView(e))
    ensures var text := old(Now(e)).text;
            && second <= |text| && first <= |Now(e).text|
            && Now(e).text == text[..first - 1] + [Now(e).text[first - 1]] + text[second..]
            && Now(e).text[first - 1] == M.Flatten(text[first - 1..second])
            && M.Holds(Now(e).text[first - 1], text[first - 1..second])
    ensures Spliced(old(e.links).forw.Keys, old(e.live), e.live, first - 1, second)
    ensures Turnover(old(e.links).forw.Keys, old(e.live), e.live, gone) && old(e.links).forw.Keys <= e.links.forw.Keys
    ensures e.active.list == if e.isGlobal then Struck(old(e.active.list), gone) else old(e.active.list)
    ensures e.Saved() == old(e.Saved())
  {
    hide Editor.Valid, M.Holds;
    RangeInText(e);
    M.JoinedIs(Now(e), first, second);
    var texts := ReadRange(e, first, second);
    gone := ReplaceRange(e, first, second, [M.Flatten(texts)]);
  }

  // ---- substitute ----

  /** A line x between a and q, and the lines that take its place. */
  lemma InPlace(a: seq<Text>, x: Text, q: seq<Text>, more: seq<Text>)
    ensures var w := M.View(a + ([x] + q), |a|);
            && w.text[|a|] == x && w.text[|a|..] == [x] + q
            && M.Inserted(M.Removed(w, |a| + 1, |a| + 1), |a|, more) == M.View(a + more + q, |a| + |more|)
            && M.View(a + [x] + q, |a| + 1) == w.(dot := |a| + 1)
  {
    var w := a + ([x] + q);
    assert w[..|a|] == a && w[|a| + 1..] == q;
    assert (a + q)[..|a|] == a && (a + q)[|a|..] == q;
  }

  /** What lies before and after the (k + 1)-th line of the range when the first k are done. */
  lemma {:induction false} PlaceOf(v: M.View, first: nat, k: nat, f: Text -> M.Replacement)
    returns (a: seq<Text>, q: seq<Text>)
    requires 1 <= first && first - 1 + k < |v.text|
    ensures var x := v.text[first - 1 + k];
            && M.PartlyReplaced(v, first, k, f) == M.View(a + ([x] + q), |a|)
            && M.PartlyReplaced(v, first, k + 1, f) == M.View(a + M.ResultOf(f, x) + q, |a| + |M.ResultOf(f, x)|)
  {
    hide M.Replaced, M.ResultOf;
    var t, b, b' := v.text, first - 1 + k, first + k;
    var p, x, out := t[..first - 1], t[b], M.Replaced(f, t[first - 1..b]);
    a, q := p + out, t[b'..];
    SliceGrows(t, first - 1, b, b');
    ReplacedOneMore(f, t[first - 1..b], x);
    SplitAt(t, b, b');
    Associate(p, out, M.ResultOf(f, x));
  }

  lemma SplitAt<T>(s: seq<T>, b: nat, b': nat)
    requires b < |s| && b' == b + 1
    ensures s[b..] == [s[b]] + s[b'..]
  {
  }

  /** The view when one line more of the range is done. */
  lemma OneMoreReplaced(v: M.View, first: nat, k: nat, f: Text -> M.Replacement)
    requires 1 <= first && first - 1 + k < |v.text|
    ensures var w, s := M.PartlyReplaced(v, first, k, f), v.text[first - 1 + k];
            && w.dot < |w.text| && w.text[w.dot] == s
            && M.PartlyReplaced(v, first, k + 1, f) ==
                 if f(s).By? then M.Inserted(M.Removed(w, w.dot + 1, w.dot + 1), w.dot, [f(s).first] + f(s).rest)
                 else w.(dot := w.dot + 1)
  {
    var x := v.text[first - 1 + k];
    var a, q := PlaceOf(v, first, k, f);
    InPlace(a, x, q, M.ResultOf(f, x));
    assert a + ([x] + q) == a + [x] + q;
  }

  lemma ReplacedOneMore(f: Text -> M.Replacement, s: seq<Text>, x: Text)
    ensures M.Replaced(f, s + [x]) == M.Replaced(f, s) + M.ResultOf(f, x)
  {
    assert (s + [x])[..|s|] == s;
  }

  /** What substitution by f makes of lines was with these texts: a line that f changes gives way to new
      ones, and the others stay. */
  ghost predicate Relined(f: Text -> M.Replacement, text: seq<Text>, was: seq<Line>, now: seq<Line>, taken: set<Line>)
    requires |text| == |was|
  {
    if text == [] then now == []
    else
      var n := |text| - 1;
      var m := |now| - |M.ResultOf(f, text[n])|;
      && 0 <= m && Relined(f, text[..n], was[..n], now[..m], taken)
      && if f(text[n]).By? then forall i :: m <= i < |now| ==> now[i] !in taken else now[m..] == [was[n]]
  }

  lemma {:induction false} RelinedNext(f: Text -> M.Replacement, text: seq<Text>, was: seq<Line>, now: seq<Line>,
                                       taken: set<Line>, x: Text, y: Line, seg: seq<Line>)
    requires |text| == |was| && Relined(f, text, was, now, taken) && |seg| == |M.ResultOf(f, x)|
    requires if f(x).By? then forall z :: z in seg ==> z !in taken else seg == [y]
    ensures Relined(f, text + [x], was + [y], now + seg, taken)
  {
    assert (text + [x])[..|text|] == text && (was + [y])[..|text|] == was;
    assert (now + seg)[..|now|] == now && (now + seg)[|now|..] == seg;
  }

  /** The lines p that stand before the first one still to be done. */
  ghost predicate Redone(v: M.View, first: nat, k: nat, f: Text -> M.Replacement, was: seq<Line>, p: seq<Line>,
                         taken: set<Line>)
    requires 1 <= first && first - 1 + k <= |v.text| == |was|
  {
    && first - 1 <= |p| && p[..first - 1] == was[..first - 1]
    && Relined(f, v.text[first - 1..first - 1 + k], was[first - 1..first - 1 + k], p[first - 1..], taken)
  }

  lemma {:induction false} RedoneNext(v: M.View, first: nat, k: nat, k': nat, f: Text -> M.Replacement, was: seq<Line>,
                                      p: seq<Line>, seg: seq<Line>, taken: set<Line>)
    requires 1 <= first && first - 1 + k < |v.text| == |was| && k' == k + 1 && Redone(v, first, k, f, was, p, taken)
    requires var x := v.text[first - 1 + k];
             && |seg| == |M.ResultOf(f, x)|
             && if f(x).By? then forall z :: z in seg ==> z !in taken else seg == [was[first - 1 + k]]
    ensures Redone(v, first, k', f, was, p + seg, taken)
  {
    hide Relined, M.ResultOf;
    var i, j := first - 1, first - 1 + k;
    SliceGrows(v.text, i, j, j + 1);
    SliceGrows(was, i, j, j + 1);
    RelinedNext(f, v.text[i..j], was[i..j], p[i..], taken, v.text[j], was[j], seg);
    assert (p + seg)[i..] == p[i..] + seg && (p + seg)[..i] == p[..i];
  }

  /** What s does to a list: the lines before the first failure are done, and all others stay. */
  ghost predicate SubstLines(v: M.View, first: nat, second: nat, f: Text -> M.Replacement, was: seq<Line>,
                             now: seq<Line>, taken: set<Line>)
    requires 1 <= first <= second <= |v.text| == |was|
  {
    var k := M.Before(f, v.text[first - 1..second]);
    var i := |now| - (|was| - (first - 1 + k));
    0 <= i && Redone(v, first, k, f, was, now[..i], taken) && now[i..] == was[first - 1 + k..]
  }

  lemma {:induction false} RelinedLess(f: Text -> M.Replacement, text: seq<Text>, was: seq<Line>, now: seq<Line>,
                                       taken: set<Line>, taken': set<Line>)
    requires |text| == |was| && Relined(f, text, was, now, taken) && taken' <= taken
    ensures Relined(f, text, was, now, taken')
  {
    if text != [] {
      var n := |text| - 1;
      RelinedLess(f, text[..n], was[..n], now[..|now| - |M.ResultOf(f, text[n])|], taken, taken');
    }
  }

  lemma {:induction false} RedoneLess(v: M.View, first: nat, k: nat, f: Text -> M.Replacement, was: seq<Line>,
                                      p: seq<Line>, taken: set<Line>, taken': set<Line>)
    requires 1 <= first && first - 1 + k <= |v.text| == |was|
    requires Redone(v, first, k, f, was, p, taken) && taken' <= taken
    ensures Redone(v, first, k, f, was, p, taken')
  {
    hide Relined;
    RelinedLess(f, v.text[first - 1..first - 1 + k], was[first - 1..first - 1 + k], p[first - 1..], taken, taken');
  }

  lemma {:induction false} SubstLess(v: M.View, first: nat, second: nat, f: Text -> M.Replacement, was: seq<Line>,
                                     now: seq<Line>, taken: set<Line>, taken': set<Line>)
    requires 1 <= first <= second <= |v.text| == |was|
    requires SubstLines(v, first, second, f, was, now, taken) && taken' <= taken
    ensures SubstLines(v, first, second, f, was, now, taken')
  {
    hide Redone;
    var k := M.Before(f, v.text[first - 1..second]);
    RedoneLess(v, first, k, f, was, now[..|now| - (|was| - (first - 1 + k))], taken, taken');
  }

  lemma SubstStops(v: M.View, first: nat, second: nat, k: nat, f: Text -> M.Replacement, was: seq<Line>,
                   now: seq<Line>, i: nat, taken: set<Line>)
    requires 1 <= first <= second <= |v.text| == |was| && k == M.Before(f, v.text[first - 1..second])
    requires i <= |now| && Redone(v, first, k, f, was, now[..i], taken) && now[i..] == was[first - 1 + k..]
    ensures SubstLines(v, first, second, f, was, now, taken)
  {
    assert |now[i..]| == |was[first - 1 + k..]|;
  }

  /** What an edit under way has done: the user sees v, and the lines gone have left the list. */
  ghost predicate Underway(e: Editor, v: M.View, kept: M.Undoable, nodes: set<Line>, was: seq<Line>, list: seq<Line>,
                           gone: seq<Line>)
    reads e, e.marks, e.marks.mark, e.active
  {
    && e.Valid() && Now(e) == v && KeptView(e) == kept
    && Turnover(nodes, was, e.live, gone) && nodes <= e.links.forw.Keys
    && e.active.list == if e.isGlobal then Struck(list, gone) else list
  }

  /** search_and_replace has done the first k lines of its range; the others are still those that were
      there at the start. */
  ghost predicate Replacing(e: Editor, v: M.View, first: nat, k: nat, f: Text -> M.Replacement,
                            kept: M.Undoable, nodes: set<Line>, was: seq<Line>, list: seq<Line>, gone: seq<Line>)
    reads e, e.marks, e.marks.mark, e.active
  {
    && 1 <= first && first - 1 + k <= |v.text| == |was| && (forall x :: x in was ==> x in nodes)
    && Underway(e, M.PartlyReplaced(v, first, k, f), kept, nodes, was, list, gone)
    && e.currentAddr <= |e.live| && e.live[e.currentAddr..] == was[first - 1 + k..]
  }

  /** The same, and the lines done are the right ones. */
  ghost predicate Substituting(e: Editor, v: M.View, first: nat, k: nat, f: Text -> M.Replacement,
                               kept: M.Undoable, nodes: set<Line>, was: seq<Line>, list: seq<Line>, gone: seq<Line>)
    reads e, e.marks, e.marks.mark, e.active
  {
    && Replacing(e, v, first, k, f, kept, nodes, was, list, gone)
    && Redone(v, first, k, f, was, e.live[..e.currentAddr], nodes)
  }

  /** The next line becomes current, and its text is read. */
  method NextLine(e: Editor) returns (s: Text)
    requires e.Valid() && e.currentAddr < e.addrLast
    modifies e`lp, e`on, e`sfseek, e`sfpos, e`seekWrite, e`currentAddr
    ensures e.Valid() && KeptView(e) == old(KeptView(e)) && e.currentAddr == old(e.currentAddr) + 1
    ensures var v := old(Now(e)); Now(e) == v.(dot := v.dot + 1) && v.dot < |v.text| && s == v.text[v.dot]
  {
    hide Editor.Valid;
    StepDown(e);
    var lp := LookUp(e, e.currentAddr);
    s := ReadNode(e, lp, e.currentAddr);
    RangeInText(e);
  }

  method StepDown(e: Editor)
    requires e.Valid() && e.currentAddr < e.addrLast
    modifies e`currentAddr
    ensures e.Valid() && KeptView(e) == old(KeptView(e)) && e.currentAddr == old(e.currentAddr) + 1
  {
    e.currentAddr := e.currentAddr + 1;
  }

  method LookUp(e: Editor, n: nat) returns (lp: Line)
    requires e.Valid() && 1 <= n <= e.addrLast
    modifies e`lp, e`on
    ensures e.Valid() && n <= |e.live| && lp == e.live[n - 1]
  {
    lp := e.GetAddressedLineNode(n);
  }

  /** The lines of the text that take the place of the current one. */
  method ReplaceCurrent(e: Editor, lines: seq<Text>, ghost v: M.View, ghost v': M.View,
                        ghost kept: M.Undoable, ghost nodes: set<Line>,
                        ghost was: seq<Line>, ghost list: seq<Line>, ghost gone: seq<Line>)
    returns (ghost gone': seq<Line>)
    requires Underway(e, v, kept, nodes, was, list, gone) && 1 <= e.currentAddr <= e.addrLast
    requires (forall x :: x in was ==> x in nodes) && e.live[e.currentAddr - 1] in nodes
    requires 1 <= v.dot <= |v.text| && v' == M.Inserted(M.Removed(v, v.dot, v.dot), v.dot - 1, lines)
    modifies e`sfile, e`sfseek, e`sfpos, e`seekWrite, e`ustack, e`modified
    modifies e`lp, e`on, e`addrLast, e`currentAddr, e`live, e`log, e`links, e`spans
    modifies e.active`list, e.active`ndx
    ensures Underway(e, v', kept, nodes, was, list, gone')
    ensures e.currentAddr <= |e.live| && e.live[e.currentAddr..] == old(e.live)[old(e.currentAddr)..]
    ensures e.currentAddr == old(e.currentAddr) - 1 + |lines|
    ensures e.live[..old(e.currentAddr) - 1] == old(e.live)[..old(e.currentAddr) - 1]
    ensures forall i :: old(e.currentAddr) - 1 <= i < e.currentAddr ==> e.live[i] !in nodes
    ensures e.Saved() == old(e.Saved())
  {
    hide Editor.Valid, M.Inserted, M.Removed, Struck;
    RangeInText(e);
    ghost var live, nodes1 := e.live, e.links.forw.Keys;
    assert live[e.currentAddr - 1..e.currentAddr] == [live[e.currentAddr - 1]];
    DotAfter(v, lines);
    ghost var out := ReplaceRange(e, e.currentAddr, e.currentAddr, lines);
    TurnoverTrans(nodes, was, live, e.live, nodes1, gone, out);
    StruckTwice(list, gone, out);
    gone' := gone + out;
    SplicedLess(nodes1, nodes, live, e.live, old(e.currentAddr) - 1, old(e.currentAddr));
    InPlaceOf(nodes, live, e.live, old(e.currentAddr), e.currentAddr);
  }

  lemma DotAfter(v: M.View, lines: seq<Text>)
    requires 1 <= v.dot <= |v.text|
    ensures M.Inserted(M.Removed(v, v.dot, v.dot), v.dot - 1, lines).dot == v.dot - 1 + |lines|
  {
  }

  lemma InPlaceOf(taken: set<Line>, was: seq<Line>, now: seq<Line>, i: nat, j: nat)
    requires 1 <= i <= |was| && Spliced(taken, was, now, i - 1, i) && j <= |now| && now[j..] == was[i..]
    ensures now[..i - 1] == was[..i - 1] && forall k :: i - 1 <= k < j ==> now[k] !in taken
  {
    assert |now[j..]| == |was[i..]|;
  }

  /** The first of the lines left is current next, and is one that was there at the start. */
  lemma NextIsOld(e: Editor, v: M.View, first: nat, k: nat, f: Text -> M.Replacement,
                  kept: M.Undoable, nodes: set<Line>, was: seq<Line>, list: seq<Line>, gone: seq<Line>)
    requires Replacing(e, v, first, k, f, kept, nodes, was, list, gone) && first - 1 + k < |v.text|
    ensures e.currentAddr < e.addrLast && e.live[e.currentAddr] in nodes
    ensures e.live[e.currentAddr + 1..] == was[first + k..]
    ensures M.PartlyReplaced(v, first, k, f).dot == e.currentAddr
  {
    hide Editor.Valid, Turnover, M.Replaced;
    LiveAllocated(e);
    SameRest(e.live, e.currentAddr, was, first - 1 + k);
  }

  lemma SameRest<T>(a: seq<T>, i: nat, b: seq<T>, j: nat)
    requires i <= |a| && j < |b| && a[i..] == b[j..]
    ensures i < |a| && a[i] == b[j] && a[i + 1..] == b[j + 1..]
  {
    assert a[i] == a[i..][0] && b[j] == b[j..][0];
    assert a[i + 1..] == a[i..][1..] && b[j + 1..] == b[j..][1..];
  }

  /** The first k lines of s are done without error, and some has changed or not. */
  ghost predicate Tally(f: Text -> M.Replacement, s: seq<Text>, k: nat, any: bool) {
    && k <= |s| && (forall i :: 0 <= i < k ==> !f(s[i]).Fails?)
    && (any <==> exists i :: 0 <= i < k && f(s[i]).By?)
  }

  lemma TallyNext(f: Text -> M.Replacement, s: seq<Text>, k: nat, any: bool)
    requires Tally(f, s, k, any) && k < |s|
    ensures f(s[k]).Fails? ==> M.Before(f, s) == k
    ensures !f(s[k]).Fails? ==> Tally(f, s, k + 1, any || f(s[k]).By?)
  {
  }

  lemma TallyAll(f: Text -> M.Replacement, s: seq<Text>, any: bool)
    requires Tally(f, s, |s|, any)
    ensures M.Before(f, s) == |s| && (any <==> M.Changes(f, s))
  {
  }

  /** The loop of search_and_replace: k lines done, nsubs of them changed. */
  ghost predicate InLoop(e: Editor, v: M.View, first: nat, second: nat, k: nat, nsubs: nat, f: Text -> M.Replacement,
                         kept: M.Undoable, nodes: set<Line>, was: seq<Line>, list: seq<Line>, gone: seq<Line>)
    reads e, e.marks, e.marks.mark, e.active
  {
    && 1 <= first <= second <= |v.text| && k <= second - first + 1
    && Tally(f, v.text[first - 1..second], k, nsubs > 0)
    && Substituting(e, v, first, k, f, kept, nodes, was, list, gone)
  }

  /** One line of the range, whatever f makes of it: what the user sees, and which lines are new. */
  method ReplaceLine(e: Editor, f: Text -> M.Replacement, ghost v: M.View, ghost first: nat, ghost k: nat,
                     ghost k': nat,
                     ghost kept: M.Undoable, ghost nodes: set<Line>,
                     ghost was: seq<Line>, ghost list: seq<Line>, ghost gone: seq<Line>)
    returns (r: M.Replacement, ghost gone': seq<Line>)
    requires Replacing(e, v, first, k, f, kept, nodes, was, list, gone) && first - 1 + k < |v.text| && k' == k + 1
    modifies e`sfile, e`sfseek, e`sfpos, e`seekWrite, e`ustack, e`modified
    modifies e`lp, e`on, e`addrLast, e`currentAddr, e`live, e`log, e`links, e`spans
    modifies e.active`list, e.active`ndx
    ensures r == f(v.text[first - 1 + k])
    ensures !r.Fails? ==> Replacing(e, v, first, k', f, kept, nodes, was, list, gone')
    ensures r.Fails? ==> var w := M.PartlyReplaced(v, first, k, f);
                         gone' == gone && Underway(e, w.(dot := w.dot + 1), kept, nodes, was, list, gone)
    ensures !r.By? ==> e.live == old(e.live) && e.currentAddr == old(e.currentAddr) + 1
    ensures r.By? ==> e.currentAddr == old(e.currentAddr) + 1 + |r.rest| <= |e.live|
    ensures r.By? ==> e.live[..old(e.currentAddr)] == old(e.live[..e.currentAddr])
    ensures r.By? ==> forall i :: old(e.currentAddr) <= i < e.currentAddr ==> e.live[i] !in nodes
    ensures e.Saved() == old(e.Saved())
  {
    hide Editor.Valid, Turnover, M.PartlyReplaced;
    OneMoreReplaced(v, first, k, f);
    NextIsOld(e, v, first, k, f, kept, nodes, was, list, gone);
    var s := NextLine(e);
    r, gone' := f(s), gone;
    if r.By? {
      ghost var w := M.PartlyReplaced(v, first, k, f);
      gone' := ReplaceCurrent(e, [r.first] + r.rest, w.(dot := w.dot + 1), M.PartlyReplaced(v, first, k', f), kept,
                              nodes, was, list, gone);
    }
  }

  /** One line of the range. */
  method SubstituteLine(e: Editor, f: Text -> M.Replacement, ghost v: M.View, ghost first: nat, ghost k: nat,
                        ghost k': nat,
                        ghost kept: M.Undoable, ghost nodes: set<Line>,
                        ghost was: seq<Line>, ghost list: seq<Line>, ghost gone: seq<Line>)
    returns (r: M.Replacement, ghost gone': seq<Line>)
    requires Substituting(e, v, first, k, f, kept, nodes, was, list, gone) && first - 1 + k < |v.text| && k' == k + 1
    modifies e`sfile, e`sfseek, e`sfpos, e`seekWrite, e`ustack, e`modified
    modifies e`lp, e`on, e`addrLast, e`currentAddr, e`live, e`log, e`links, e`spans
    modifies e.active`list, e.active`ndx
    ensures r == f(v.text[first - 1 + k])
    ensures !r.Fails? ==> Substituting(e, v, first, k', f, kept, nodes, was, list, gone')
    ensures r.Fails? ==> var w := M.PartlyReplaced(v, first, k, f);
                         gone' == gone && Underway(e, w.(dot := w.dot + 1), kept, nodes, was, list, gone)
    ensures r.Fails? ==> e.live == old(e.live)
    ensures e.Saved() == old(e.Saved())
  {
    hide Editor.Valid, Redone, Underway, Replacing;
    ghost var c, live := e.currentAddr, e.live;
    RestOfRange(e, v, first, k, f, kept, nodes, was, list, gone);
    r, gone' := ReplaceLine(e, f, v, first, k, k', kept, nodes, was, list, gone);
    if !r.Fails? {
      RestOfRange(e, v, first, k', f, kept, nodes, was, list, gone');
      assert e.live[..e.currentAddr] == live[..c] + e.live[c..e.currentAddr];
      RedoneNext(v, first, k, k', f, was, live[..c], e.live[c..e.currentAddr], nodes);
    }
  }

  lemma RestOfRange(e: Editor, v: M.View, first: nat, k: nat, f: Text -> M.Replacement,
                    kept: M.Undoable, nodes: set<Line>, was: seq<Line>, list: seq<Line>, gone: seq<Line>)
    requires Replacing(e, v, first, k, f, kept, nodes, was, list, gone)
    ensures 1 <= first && first - 1 + k <= |v.text| == |was|
    ensures e.currentAddr <= |e.live| && e.live[e.currentAddr..] == was[first - 1 + k..]
    ensures first - 1 + k < |was| ==> e.currentAddr < |e.live| && e.live[e.currentAddr] == was[first - 1 + k]
  {
    hide Underway;
    assert |e.live[e.currentAddr..]| == |was[first - 1 + k..]|;
    assert first - 1 + k < |was| ==> e.live[e.currentAddr..][0] == was[first - 1 + k..][0];
  }

  /** One turn of the loop of search_and_replace. */
  method SubstituteNext(e: Editor, f: Text -> M.Replacement, nsubs: nat, ghost v: M.View, ghost first: nat,
                        ghost second: nat, ghost k: nat, ghost k': nat,
                        ghost kept: M.Undoable, ghost nodes: set<Line>,
                        ghost was: seq<Line>, ghost list: seq<Line>, ghost gone: seq<Line>)
    returns (failed: bool, nsubs': nat, ghost gone': seq<Line>)
    requires InLoop(e, v, first, second, k, nsubs, f, kept, nodes, was, list, gone)
    requires k <= second - first && k' == k + 1
    modifies e`sfile, e`sfseek, e`sfpos, e`seekWrite, e`ustack, e`modified
    modifies e`lp, e`on, e`addrLast, e`currentAddr, e`live, e`log, e`links, e`spans
    modifies e.active`list, e.active`ndx
    ensures !failed ==> InLoop(e, v, first, second, k', nsubs', f, kept, nodes, was, list, gone')
    ensures failed ==> Underway(e, M.Substituted(v, first, second, f, true).0, kept, nodes, was, list, gone')
    ensures failed ==> M.Substituted(v, first, second, f, true).1 == M.Substituted(v, first, second, f, false).1 == ERR
    ensures |v.text| == |was| && (failed ==> SubstLines(v, first, second, f, was, e.live, nodes))
    ensures e.Saved() == old(e.Saved())
  {
    hide Redone, SubstLines;
    TallyNext(f, v.text[first - 1..second], k, nsubs > 0);
    if f(v.text[first - 1..second][k]).Fails? {
      LinesDone(e, v, first, second, k, f, kept, nodes, was, list, gone);
    }
    var r;
    r, gone' := SubstituteLine(e, f, v, first, k, k', kept, nodes, was, list, gone);
    failed, nsubs' := r.Fails?, if r.By? then nsubs + 1 else nsubs;
  }

  /** The loop is through. */
  lemma LoopDone(e: Editor, v: M.View, first: nat, second: nat, nsubs: nat, f: Text -> M.Replacement,
                 kept: M.Undoable, nodes: set<Line>, was: seq<Line>, list: seq<Line>, gone: seq<Line>)
    requires 1 <= first <= second
    requires InLoop(e, v, first, second, second - first + 1, nsubs, f, kept, nodes, was, list, gone)
    ensures Underway(e, M.Substituted(v, first, second, f, true).0, kept, nodes, was, list, gone)
    ensures M.Substituted(v, first, second, f, true).1 == 0
    ensures M.Substituted(v, first, second, f, false).1 == if nsubs == 0 then ERR else 0
    ensures |v.text| == |was| && SubstLines(v, first, second, f, was, e.live, nodes)
  {
    hide Redone, Underway, SubstLines;
    TallyAll(f, v.text[first - 1..second], nsubs > 0);
    LinesDone(e, v, first, second, second - first + 1, f, kept, nodes, was, list, gone);
  }

  lemma LinesDone(e: Editor, v: M.View, first: nat, second: nat, k: nat, f: Text -> M.Replacement,
                  kept: M.Undoable, nodes: set<Line>, was: seq<Line>, list: seq<Line>, gone: seq<Line>)
    requires 1 <= first <= second <= |v.text| && Substituting(e, v, first, k, f, kept, nodes, was, list, gone)
    requires k == M.Before(f, v.text[first - 1..second])
    ensures |v.text| == |was| && SubstLines(v, first, second, f, was, e.live, nodes)
  {
    hide Redone, Replacing;
    RestOfRange(e, v, first, k, f, kept, nodes, was, list, gone);
    SubstStops(v, first, second, k, f, was, e.live, e.currentAddr, nodes);
  }

  lemma SameView(v: M.View, first: nat, second: nat, f: Text -> M.Replacement)
    requires 1 <= first <= second <= |v.text|
    ensures M.Substituted(v, first, second, f, true).0 == M.Substituted(v, first, second, f, false).0
  {
  }

  lemma RangeInText(e: Editor)
    requires e.Valid()
    ensures |Now(e).text| == e.addrLast
  {
  }

  method StartOfRange(e: Editor, first: nat, second: nat, ghost f: Text -> M.Replacement)
    requires e.Valid() && 1 <= first <= second <= e.addrLast
    modifies e`currentAddr
    ensures InLoop(e, old(Now(e)), first, second, 0, 0, f, old(KeptView(e)),
            e.links.forw.Keys, e.live, e.active.list, [])
  {
    LiveAllocated(e);
    ghost var t := Now(e).text;
    assert t[first - 1..first - 1] == [];
    assert t[..first - 1] + [] + t[first - 1..] == t;
    StruckTwice(e.active.list, [], []);
    e.currentAddr := first - 1;
  }

  /** search_and_replace */
  method SubstituteRange(e: Editor, first: nat, second: nat, f: Text -> M.Replacement, quiet: bool)
    returns (status: int, ghost gone: seq<Line>)
    requires e.Valid() && 1 <= first <= second <= e.addrLast
    modifies e`sfile, e`sfseek, e`sfpos, e`seekWrite, e`ustack, e`modified
    modifies e`lp, e`on, e`addrLast, e`currentAddr, e`live, e`log, e`links, e`spans
    modifies e.active`list, e.active`ndx
    ensures e.Valid()
    ensures (Now(e), status) == M.Substituted(old(Now(e)), first, second, f, quiet) && KeptView(e) == old(KeptView(e))
    ensures Turnover(old(e.links).forw.Keys, old(e.live), e.live, gone) && old(e.links).forw.Keys <= e.links.forw.Keys
    ensures e.active.list == if e.isGlobal then Struck(old(e.active.list), gone) else old(e.active.list)
    ensures second <= |old(Now(e)).text| == |old(e.live)|
    ensures SubstLines(old(Now(e)), first, second, f, old(e.live), e.live, old(e.links).forw.Keys)
    ensures e.Saved() == old(e.Saved())
  {
    hide Editor.Valid, SubstLines, Substituting, Tally, M.Substituted, Turnover, Struck;
    ghost var v, kept, nodes, was, list := Now(e), KeptView(e), e.links.forw.Keys, e.live, e.active.list;
    RangeInText(e);
    SameView(v, first, second, f);
    StartOfRange(e, first, second, f);
    gone := [];
    var lc: nat, nsubs: nat, failed := 0, 0, false;
    while lc <= second - first
      invariant lc <= second - first + 1 && e.Saved() == old(e.Saved())
      invariant InLoop(e, v, first, second, lc, nsubs, f, kept, nodes, was, list, gone)
    {
      var next := lc + 1;
      failed, nsubs, gone := SubstituteNext(e, f, nsubs, v, first, second, lc, next, kept, nodes, was, list, gone);
      if failed {
        return ERR, gone;
      }
      lc := next;
    }
    LoopDone(e, v, first, second, nsubs, f, kept, nodes, was, list, gone);
    status := if nsubs == 0 && !quiet then ERR else 0;
  }
}
