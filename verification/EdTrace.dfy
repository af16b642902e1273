/** What a global command leaves behind: which commands it has executed, what these have done to the list,
    and which lines it has visited in between. */
module EdTrace {
  import opened EdLinks
  import opened EdTables
  import opened EdEffects
  import opened EdEdits
  import opened EdCommands
  import opened Sequences
  import M = EdModel

  // ---- what has been done, and what was visited ----

  /** One command executed: the lists before and after it, and the block it moved. */
  datatype Deed = Deed(done: M.Done, was: seq<Line>, now: seq<Line>, block: seq<Line>)

  /** The list has changed as the command says; a u that fails changes nothing. */
  ghost predicate DeedOk(d: Deed) {
    && Relisted(d.done.c, d.done.v, d.was, d.now)
    && (d.done.c.Undo? && !IsUndo(d) ==> d.now == d.was)
    && d.block == Block(d.done.c, d.done.v, d.was)
  }

  /** The command has deleted or moved line x. */
  ghost predicate Hit(d: Deed, x: Line) {
    x in d.was && (x !in d.now || x in d.block)
  }

  /** One of the first n commands has. */
  ghost predicate HitBy(deeds: seq<Deed>, n: nat, x: Line)
    requires n <= |deeds|
  {
    exists i :: 0 <= i < n && Hit(deeds[i], x)
  }

  ghost predicate IsUndo(d: Deed) {
    M.Undoes(d.done)
  }

  /** A u has been executed. */
  ghost predicate Undone(deeds: seq<Deed>) {
    exists i :: 0 <= i < |deeds| && IsUndo(deeds[i])
  }

  /** The list after the first n commands. */
  ghost function ListAfter(deeds: seq<Deed>, first: seq<Line>, n: nat): seq<Line>
    requires n <= |deeds|
  {
    if n == 0 then first else deeds[n - 1].now
  }

  /** The list that u would bring back after the first n commands: that from before all of them, or, after
      a u, the one it found. */
  ghost function SavedAfter(deeds: seq<Deed>, first: seq<Line>, n: nat): seq<Line>
    requires n <= |deeds|
  {
    if n == 0 then first
    else if IsUndo(deeds[n - 1]) then deeds[n - 1].was
    else SavedAfter(deeds, first, n - 1)
  }

  /** The i-th command began with the list the one before left, and changed it as it should. */
  ghost predicate Follows(deeds: seq<Deed>, first: seq<Line>, i: nat)
    requires i < |deeds|
  {
    && deeds[i].was == ListAfter(deeds, first, i) && DeedOk(deeds[i])
    && (IsUndo(deeds[i]) ==> deeds[i].now == SavedAfter(deeds, first, i))
  }

  /** All of them did. */
  ghost predicate Consecutive(deeds: seq<Deed>, first: seq<Line>) {
    forall i :: 0 <= i < |deeds| ==> Follows(deeds, first, i)
  }

  /** The marks after the first n commands: inside a global command only k touches them. */
  ghost function MarksRun(m: seq<Line>, deeds: seq<Deed>, n: nat): seq<Line>
    requires n <= |deeds|
  {
    if n == 0 then m
    else
      var d, before := deeds[n - 1].done, MarksRun(m, deeds, n - 1);
      if d.c.Mark? && d.status == 0 then MarkSet(before, deeds[n - 1].was, M.Second(d.c.at, d.v.dot), d.c.name)
      else before
  }

  /** The k-th line collected was visited at address addr, when n commands had been executed. */
  datatype Visit = Visit(k: nat, addr: nat, n: nat)

  /** Where the search for the i-th visit starts. */
  ghost function Resume(visits: seq<Visit>, i: nat): nat
    requires i <= |visits|
  {
    if i == 0 then 0 else visits[i - 1].k + 1
  }

  /** The visit of a line that no command has yet deleted or moved, at its true address and before any u;
      the lines passed over since the visit before have been deleted or moved. */
  ghost predicate VisitOk(v: Visit, resume: nat, matched: seq<Line>, deeds: seq<Deed>, first: seq<Line>) {
    && resume <= v.k < |matched| && v.n <= |deeds|
    && 1 <= v.addr <= |ListAfter(deeds, first, v.n)| && ListAfter(deeds, first, v.n)[v.addr - 1] == matched[v.k]
    && !Undone(deeds[..v.n]) && !HitBy(deeds, v.n, matched[v.k])
    && forall m :: resume <= m < v.k ==> HitBy(deeds, v.n, matched[m])
  }

  ghost predicate VisitsOk(visits: seq<Visit>, matched: seq<Line>, deeds: seq<Deed>, first: seq<Line>) {
    forall i {:trigger Resume(visits, i)} :: 0 <= i < |visits| ==>
      VisitOk(visits[i], Resume(visits, i), matched, deeds, first)
  }

  ghost function Route(visits: seq<Visit>): seq<nat> {
    seq(|visits|, i requires 0 <= i < |visits| => visits[i].addr)
  }

  ghost function Commands(deeds: seq<Deed>): seq<M.Done> {
    seq(|deeds|, i requires 0 <= i < |deeds| => deeds[i].done)
  }

  lemma CommandsOneMore(deeds: seq<Deed>, d: Deed)
    ensures Commands(deeds + [d]) == Commands(deeds) + [d.done]
  {
  }

  /** Each visit began when all the commands of the visits before it had been executed, without an error. */
  ghost predicate Timed(visits: seq<Visit>, script: seq<seq<M.Command>>, s: M.State)
    requires M.Wf(s)
  {
    forall i :: 0 <= i < |visits| ==>
      var before := Route(visits[..i]);
      visits[i].n == |M.VisitsDone(before, script, s)| && M.RunVisits(before, script, s).1 >= 0
  }

  // ---- the active list follows ----

  /** An active list from which the lines hit are struck off. */
  ghost predicate StruckOff(list: seq<Line>, matched: seq<Line>, deeds: seq<Deed>) {
    if Undone(deeds) then list == []
    else
      && |list| == |matched|
      && forall i :: 0 <= i < |list| ==> list[i] == if HitBy(deeds, |deeds|, matched[i]) then NULL else matched[i]
  }

  lemma HitOneMore(deeds: seq<Deed>, d: Deed, x: Line)
    ensures HitBy(deeds + [d], |deeds| + 1, x) <==> HitBy(deeds, |deeds|, x) || Hit(d, x)
    ensures forall n :: 0 <= n <= |deeds| ==> (HitBy(deeds + [d], n, x) <==> HitBy(deeds, n, x))
  {
    var deeds' := deeds + [d];
    assert deeds'[|deeds|] == d;
    assert forall i :: 0 <= i < |deeds| ==> deeds'[i] == deeds[i];
  }

  lemma UndoneOneMore(deeds: seq<Deed>, d: Deed)
    ensures Undone(deeds + [d]) <==> Undone(deeds) || IsUndo(d)
  {
    var deeds' := deeds + [d];
    assert deeds'[|deeds|] == d;
    assert forall i :: 0 <= i < |deeds| ==> deeds'[i] == deeds[i];
  }

  /** One command more. */
  lemma StruckOffOneMore(list: seq<Line>, list': seq<Line>, matched: seq<Line>, deeds: seq<Deed>, d: Deed,
                       gone: seq<Line>)
    requires StruckOff(list, matched, deeds)
    requires if IsUndo(d) then list' == []
             else list' == Struck(list, gone) && forall x :: x in gone <==> Hit(d, x)
    ensures StruckOff(list', matched, deeds + [d])
  {
    UndoneOneMore(deeds, d);
    if !IsUndo(d) && !Undone(deeds) {
      forall i | 0 <= i < |list'|
        ensures list'[i] == if HitBy(deeds + [d], |deeds| + 1, matched[i]) then NULL else matched[i]
      {
        HitOneMore(deeds, d, matched[i]);
      }
    }
  }

  lemma ConsecutiveOneMore(deeds: seq<Deed>, d: Deed, first: seq<Line>)
    requires Consecutive(deeds, first) && d.was == ListAfter(deeds, first, |deeds|) && DeedOk(d)
    requires IsUndo(d) ==> d.now == SavedAfter(deeds, first, |deeds|)
    ensures Consecutive(deeds + [d], first) && ListAfter(deeds + [d], first, |deeds| + 1) == d.now
  {
    hide ListAfter, DeedOk, SavedAfter;
    var deeds' := deeds + [d];
    ListAfterOneMore(deeds, d, first);
    forall i | 0 <= i < |deeds'| ensures Follows(deeds', first, i) {
      SavedOneMore(deeds, d, first, i);
      if i < |deeds| {
        assert Follows(deeds, first, i) && deeds'[i] == deeds[i];
      } else {
        assert deeds'[i] == d;
      }
    }
  }

  lemma {:induction false} SavedOneMore(deeds: seq<Deed>, d: Deed, first: seq<Line>, n: nat)
    requires n <= |deeds|
    ensures SavedAfter(deeds + [d], first, n) == SavedAfter(deeds, first, n)
    ensures SavedAfter(deeds + [d], first, |deeds| + 1)
            == if IsUndo(d) then d.was else SavedAfter(deeds + [d], first, |deeds|)
  {
    if n > 0 {
      assert (deeds + [d])[n - 1] == deeds[n - 1];
      SavedOneMore(deeds, d, first, n - 1);
    }
  }

  lemma {:induction false} MarksOneMore(m: seq<Line>, deeds: seq<Deed>, d: Deed, n: nat)
    requires n <= |deeds|
    ensures MarksRun(m, deeds + [d], n) == MarksRun(m, deeds, n)
  {
    if n > 0 {
      assert (deeds + [d])[n - 1] == deeds[n - 1];
      MarksOneMore(m, deeds, d, n - 1);
    }
  }

  lemma ListAfterOneMore(deeds: seq<Deed>, d: Deed, first: seq<Line>)
    ensures ListAfter(deeds + [d], first, |deeds| + 1) == d.now
    ensures forall n :: 0 <= n <= |deeds| ==> ListAfter(deeds + [d], first, n) == ListAfter(deeds, first, n)
  {
  }

  /** Visits made stay as they were when more is done. */
  lemma VisitsStay(visits: seq<Visit>, matched: seq<Line>, deeds: seq<Deed>, deeds': seq<Deed>, first: seq<Line>)
    requires VisitsOk(visits, matched, deeds, first) && deeds <= deeds'
    ensures VisitsOk(visits, matched, deeds', first)
  {
    forall i | 0 <= i < |visits| ensures VisitOk(visits[i], Resume(visits, i), matched, deeds', first) {
      VisitStays(visits[i], Resume(visits, i), matched, deeds, deeds', first);
    }
  }

  lemma VisitStays(v: Visit, resume: nat, matched: seq<Line>, deeds: seq<Deed>, deeds': seq<Deed>, first: seq<Line>)
    requires VisitOk(v, resume, matched, deeds, first) && deeds <= deeds'
    ensures VisitOk(v, resume, matched, deeds', first)
  {
    assert deeds'[..v.n] == deeds[..v.n];
    assert forall i :: 0 <= i < |deeds| ==> deeds'[i] == deeds[i];
    forall x ensures HitBy(deeds', v.n, x) <==> HitBy(deeds, v.n, x) {
    }
  }

  lemma VisitsOneMore(visits: seq<Visit>, v: Visit, matched: seq<Line>, deeds: seq<Deed>, deeds': seq<Deed>,
                      first: seq<Line>)
    requires VisitsOk(visits, matched, deeds, first) && deeds <= deeds'
    requires VisitOk(v, Resume(visits, |visits|), matched, deeds, first)
    ensures VisitsOk(visits + [v], matched, deeds', first)
  {
    VisitsStay(visits, matched, deeds, deeds', first);
    VisitStays(v, Resume(visits, |visits|), matched, deeds, deeds', first);
    hide VisitOk;
    var visits' := visits + [v];
    forall i | 0 <= i < |visits'| ensures VisitOk(visits'[i], Resume(visits', i), matched, deeds', first) {
      ResumeOneMore(visits, v, i);
      if i < |visits| {
        assert visits'[i] == visits[i];
      }
    }
  }

  lemma ResumeOneMore(visits: seq<Visit>, v: Visit, i: nat)
    requires i <= |visits|
    ensures Resume(visits + [v], i) == Resume(visits, i) && Resume(visits + [v], |visits| + 1) == v.k + 1
  {
  }

  lemma {:induction false} RunOneMore(visits: seq<Visit>, v: Visit, script: seq<seq<M.Command>>, s: M.State)
    requires M.Wf(s)
    ensures var r := M.RunVisits(Route(visits), script, s);
            r.1 >= 0 && v.addr <= |r.0.now.text| ==>
              var cs, t := M.ListFor(script, |visits|), M.State(r.0.now.(dot := v.addr), r.0.saved);
              && M.RunVisits(Route(visits + [v]), script, s) == M.ExecList(cs, t, true)
              && M.VisitsDone(Route(visits + [v]), script, s)
                 == M.VisitsDone(Route(visits), script, s) + M.ListDone(cs, t, true)
  {
    hide M.ExecList, M.ListDone;
    var a := Route(visits + [v]);
    assert a[..|visits|] == Route(visits) && a[|visits|] == v.addr;
  }

  lemma {:induction false} TimedOneMore(visits: seq<Visit>, v: Visit, script: seq<seq<M.Command>>, s: M.State)
    requires M.Wf(s) && Timed(visits, script, s) && v.n == |M.VisitsDone(Route(visits), script, s)|
    requires M.RunVisits(Route(visits), script, s).1 >= 0
    ensures Timed(visits + [v], script, s)
  {
    hide M.VisitsDone, M.RunVisits;
    var visits' := visits + [v];
    forall i | 0 <= i < |visits'|
      ensures var before := Route(visits'[..i]);
              visits'[i].n == |M.VisitsDone(before, script, s)| && M.RunVisits(before, script, s).1 >= 0
    {
      assert visits'[..i] == if i < |visits| then visits[..i] else visits;
    }
  }

  /** What a global command does in a buffer that shows view v, when it has collected these lines: it
      visits them as `VisitedExactly` says, and executes their command lists on the way. */
  ghost predicate VisitsRight(script: seq<seq<M.Command>>, v: M.View, live: seq<Line>, matched: seq<Line>,
                              deeds: seq<Deed>, visits: seq<Visit>) {
    var s := M.State(v, M.Kept(v));
    && M.Wf(s) && Consecutive(deeds, live) && VisitsOk(visits, matched, deeds, live)
    && Commands(deeds) == M.VisitsDone(Route(visits), script, s) && Timed(visits, script, s)
    && (M.RunVisits(Route(visits), script, s).1 >= 0 ==>
          Undone(deeds) || forall m :: Resume(visits, |visits|) <= m < |matched| ==> HitBy(deeds, |deeds|, matched[m]))
  }

  /** Each line is visited at most once: the collected lines differ, and they are visited in order. */
  lemma {:induction false} VisitedOnce(visits: seq<Visit>, matched: seq<Line>, deeds: seq<Deed>, first: seq<Line>,
                                       i: nat, j: nat)
    requires VisitsOk(visits, matched, deeds, first) && i < j < |visits|
    ensures visits[i].k < visits[j].k < |matched|
    decreases j
  {
    hide HitBy;
    assert VisitOk(visits[j], Resume(visits, j), matched, deeds, first);
    if i < j - 1 {
      VisitedOnce(visits, matched, deeds, first, i, j - 1);
    }
  }

  /** The m-th line collected was visited. */
  ghost predicate Visited(visits: seq<Visit>, m: nat) {
    exists i :: 0 <= i < |visits| && visits[i].k == m
  }

  /** How many commands had been executed when the turn of the m-th line came: at the first visit of that
      line or a later one, or at the end. */
  ghost function Turn(visits: seq<Visit>, m: nat, total: nat): nat {
    if visits == [] then total
    else if visits[0].k >= m then visits[0].n
    else Turn(visits[1..], m, total)
  }

  /** The lines visited are exactly those that had been neither deleted nor moved when their turn came, if
      by then no u had been executed; after a u none is. */
  lemma {:induction false} VisitedExactly(visits: seq<Visit>, matched: seq<Line>, deeds: seq<Deed>, first: seq<Line>,
                                          m: nat)
    requires VisitsOk(visits, matched, deeds, first) && m < |matched|
    requires Undone(deeds) || forall k :: Resume(visits, |visits|) <= k < |matched| ==>
      HitBy(deeds, |deeds|, matched[k])
    ensures var turn := Turn(visits, m, |deeds|);
            && turn <= |deeds|
            && (Visited(visits, m) <==> !HitBy(deeds, turn, matched[m]) && !Undone(deeds[..turn]))
  {
    var i := FirstFrom(visits, m, |deeds|);
    assert deeds[..|deeds|] == deeds;
    if i < |visits| {
      assert VisitOk(visits[i], Resume(visits, i), matched, deeds, first);
      forall j | 0 <= j < |visits| && visits[j].k == m ensures j == i {
        if j > i {
          VisitedOnce(visits, matched, deeds, first, i, j);
        }
      }
    }
  }

  /** The first visit of the m-th line or a later one. */
  lemma {:induction false} FirstFrom(visits: seq<Visit>, m: nat, total: nat) returns (i: nat)
    ensures i <= |visits| && (i < |visits| ==> visits[i].k >= m)
    ensures forall j :: 0 <= j < i ==> visits[j].k < m
    ensures Turn(visits, m, total) == if i < |visits| then visits[i].n else total
  {
    if visits == [] || visits[0].k >= m {
      i := 0;
    } else {
      var j := FirstFrom(visits[1..], m, total);
      i := j + 1;
      assert forall k :: 0 < k < i ==> visits[k] == visits[1..][k - 1];
    }
  }

  // ---- the lines collected ----

  /** The lines whose texts match, for g, or do not, for v. */
  ghost function Matching(lines: seq<Line>, text: seq<Text>, pat: Text -> bool, sense: bool): (r: seq<Line>)
    requires |lines| == |text|
    ensures forall x :: x in r ==> x in lines
  {
    if lines == [] then []
    else
      var n := |lines| - 1;
      Matching(lines[..n], text[..n], pat, sense) + if pat(text[n]) == sense then [lines[n]] else []
  }

  lemma MatchingOneMore(lines: seq<Line>, text: seq<Text>, pat: Text -> bool, sense: bool, x: Line, t: Text)
    requires |lines| == |text|
    ensures Matching(lines + [x], text + [t], pat, sense)
            == Matching(lines, text, pat, sense) + if pat(t) == sense then [x] else []
  {
    assert (lines + [x])[..|lines|] == lines && (text + [t])[..|text|] == text;
  }

  lemma {:induction false} MatchingInOrder(lines: seq<Line>, text: seq<Text>, pat: Text -> bool, sense: bool)
    requires |lines| == |text| && Distinct(lines)
    ensures Ordered(Matching(lines, text, pat, sense), lines)
  {
    if lines != [] {
      var n := |lines| - 1;
      var a, x := Matching(lines[..n], text[..n], pat, sense), lines[n];
      MatchingInOrder(lines[..n], text[..n], pat, sense);
      assert lines == lines[..n] + [x] == lines[..n] + [x] + [];
      OrderedInsert(a, lines[..n], [x], []);
      assert lines[..n] + [] == lines[..n];
      OrderedAppend(a, lines[..n], x);
    }
  }

  lemma OrderedAppend(a: seq<Line>, lines: seq<Line>, x: Line)
    requires Ordered(a, lines)
    ensures Ordered(a + [x], lines + [x])
  {
    var b, s := a + [x], lines + [x];
    forall i | 0 <= i < |b| && b[i] != NULL ensures b[i] in s {
      if i < |a| {
        assert a[i] in lines;
      }
    }
    forall i, j | 0 <= i < j < |b| && b[i] != NULL && b[j] != NULL ensures Precedes(s, b[i], b[j]) {
      if j < |a| {
        var m, n :| 0 <= m < n < |lines| && lines[m] == a[i] && lines[n] == a[j];
        assert s[m] == b[i] && s[n] == b[j];
      } else {
        var m :| 0 <= m < |lines| && lines[m] == a[i];
        assert s[m] == b[i] && s[|lines|] == b[j];
      }
    }
  }

  /** What is collected from lines first to n - 1 of the buffer. */
  ghost predicate Collected(live: seq<Line>, text: seq<Text>, first: nat, n: nat, pat: Text -> bool, sense: bool,
                            got: seq<Line>) {
    && |live| == |text| && 1 <= first <= n <= |live| + 1
    && got == Matching(live[first - 1..n - 1], text[first - 1..n - 1], pat, sense)
  }

  lemma CollectNext(live: seq<Line>, head: Line, text: seq<Text>, first: nat, n: nat, n': nat, pat: Text -> bool,
                    sense: bool, got: seq<Line>)
    requires Distinct([head] + live) && Collected(live, text, first, n, pat, sense, got) && n' == n + 1 && n <= |live|
    ensures live[n - 1] !in got
    ensures Collected(live, text, first, n', pat, sense, got + if pat(text[n - 1]) == sense then [live[n - 1]] else [])
  {
    var i, j, k := first - 1, n - 1, n' - 1;
    DistinctCut([head], live);
    SliceGrows(live, i, j, k);
    SliceGrows(text, i, j, k);
    MatchingOneMore(live[i..j], text[i..j], pat, sense, live[j], text[j]);
    assert forall x :: x in live[i..j] ==> exists m :: i <= m < j && live[m] == x;
  }

  /** What is collected is in the order of the buffer. */
  lemma CollectedInOrder(live: seq<Line>, head: Line, text: seq<Text>, first: nat, n: nat, pat: Text -> bool,
                         sense: bool, got: seq<Line>)
    requires Distinct([head] + live) && Collected(live, text, first, n, pat, sense, got)
    ensures Ordered(got, live)
  {
    var i, j := first - 1, n - 1;
    DistinctCut([head], live);
    var a, b, c := live[..i], live[i..j], live[j..];
    MatchingInOrder(b, text[i..j], pat, sense);
    Widen(got, a, b, c);
    assert live == a + b + c;
  }

  lemma Widen(got: seq<Line>, a: seq<Line>, b: seq<Line>, c: seq<Line>)
    requires Ordered(got, b)
    ensures Ordered(got, a + b + c)
  {
    assert b == [] + b && [] + a + b == a + b;
    OrderedInsert(got, [], a, b);
    assert a + b == (a + b) + [] && (a + b) + c + [] == a + b + c;
    OrderedInsert(got, a + b, c, []);
  }
}
