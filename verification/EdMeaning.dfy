/** What each command does to the text, said outright: for the addresses as they were typed, with the current
    line for those that were not. */
module EdMeaning {
  import opened EdTables
  import opened EdModel
  import opened Sequences

  // ---- commands with one address ----

  /** a: the input goes in after line n. */
  lemma AppendMeans(c: Command, s: State, inGlobal: bool, n: nat)
    requires Wf(s) && c.Append?
    requires if c.at.cnt == 0 then n == s.now.dot else n == c.at.second
    ensures var (t, status) := Execute(c, s, inGlobal);
            var saved := if inGlobal then s.saved else Kept(s.now);
            if n > |s.now.text| then t == s && status == ERR
            else status == 0 && t == State(View(s.now.text[..n] + c.input + s.now.text[n..], n + |c.input|), saved)
  {
  }

  /** i: before it; there is no line 0 to go before. */
  lemma InsertMeans(c: Command, s: State, inGlobal: bool, n: nat)
    requires Wf(s) && c.Insert?
    requires if c.at.cnt == 0 then n == s.now.dot else n == c.at.second
    ensures var (t, status) := Execute(c, s, inGlobal);
            var saved := if inGlobal then s.saved else Kept(s.now);
            if !(1 <= n <= |s.now.text|) then t == s && status == ERR
            else
              && status == 0
              && t == State(View(s.now.text[..n - 1] + c.input + s.now.text[n - 1..], n - 1 + |c.input|), saved)
  {
  }

  /** An address before ;: that line becomes current, and nothing else changes. */
  lemma GotoMeans(c: Command, s: State, inGlobal: bool, n: nat)
    requires Wf(s) && c.Goto?
    requires if c.at.cnt == 0 then n == s.now.dot else n == c.at.second
    ensures Execute(c, s, inGlobal)
            == if n > |s.now.text| then (s, ERR) else (State(View(s.now.text, n), s.saved), 0)
  {
  }

  /** k changes nothing that the user sees. */
  lemma MarkMeans(c: Command, s: State, inGlobal: bool, n: nat)
    requires Wf(s) && c.Mark?
    requires if c.at.cnt == 0 then n == s.now.dot else n == c.at.second
    ensures Execute(c, s, inGlobal) == (s, if 1 <= n <= |s.now.text| && 'a' <= c.name <= 'z' then 0 else ERR)
  {
  }

  /** u: the view and the one kept change places; it takes no address. */
  lemma UndoMeans(c: Command, s: State, inGlobal: bool)
    requires Wf(s) && c.Undo?
    ensures Execute(c, s, inGlobal)
            == if c.at.cnt == 0 && s.saved.Kept? then (State(s.saved.view, Kept(s.now)), 0) else (s, ERR)
  {
  }

  // ---- commands with a range ----

  lemma {:induction false} RangeMeans(c: Command, s: State, inGlobal: bool, f: nat, z: nat)
    requires Wf(s) && NeedsRange(c) && !c.Join?
    requires if c.at.cnt == 0 then f == z == s.now.dot else f == c.at.first && z == c.at.second
    ensures Execute(c, s, inGlobal) == if 1 <= f <= z <= |s.now.text| then OnRange(c, s, f, z, inGlobal) else (s, ERR)
  {
    hide OnRange, Edited, Inserted;
  }

  /** c: the input stands in the place of the lines. */
  lemma {:induction false} ChangeMeans(c: Command, s: State, inGlobal: bool, f: nat, z: nat)
    requires Wf(s) && c.Change?
    requires if c.at.cnt == 0 then f == z == s.now.dot else f == c.at.first && z == c.at.second
    ensures var (t, status) := Execute(c, s, inGlobal);
            var saved := if inGlobal then s.saved else Kept(s.now);
            if !(1 <= f <= z <= |s.now.text|) then t == s && status == ERR
            else
              && status == 0
              && t == State(View(s.now.text[..f - 1] + c.input + s.now.text[z..], f - 1 + |c.input|), saved)
  {
    hide Execute;
    RangeMeans(c, s, inGlobal, f, z);
    if 1 <= f <= z <= |s.now.text| {
      var w := Removed(s.now, f, z);
      assert w.text[..f - 1] == s.now.text[..f - 1] && w.text[f - 1..] == s.now.text[z..];
    }
  }

  /** d: they are gone; the line after them becomes current, or the last one. */
  lemma {:induction false} DeleteMeans(c: Command, s: State, inGlobal: bool, f: nat, z: nat)
    requires Wf(s) && c.Delete?
    requires if c.at.cnt == 0 then f == z == s.now.dot else f == c.at.first && z == c.at.second
    ensures var (t, status) := Execute(c, s, inGlobal);
            var saved := if inGlobal then s.saved else Kept(s.now);
            if !(1 <= f <= z <= |s.now.text|) then t == s && status == ERR
            else
              && status == 0
              && t == State(View(s.now.text[..f - 1] + s.now.text[z..], if z < |s.now.text| then f else f - 1), saved)
  {
    hide Execute;
    RangeMeans(c, s, inGlobal, f, z);
  }

  /** p: the last of them becomes current; they are printed, and by no other command. */
  lemma PrintMeans(c: Command, s: State, inGlobal: bool, f: nat, z: nat)
    requires Wf(s)
    requires if c.at.cnt == 0 then f == z == s.now.dot else f == c.at.first && z == c.at.second
    ensures c.Print? && 1 <= f <= z <= |s.now.text| ==>
              && Execute(c, s, inGlobal) == (State(View(s.now.text, z), s.saved), 0)
              && Output(c, s.now) == s.now.text[f - 1..z]
    ensures c.Print? && !(1 <= f <= z <= |s.now.text|) ==> Execute(c, s, inGlobal) == (s, ERR)
    ensures !(c.Print? && 1 <= f <= z <= |s.now.text|) ==> Output(c, s.now) == []
  {
  }

  /** m: the lines f to z stand after line n, which is not among them, and the last of them is current. */
  lemma {:induction false} MoveMeans(c: Command, s: State, inGlobal: bool, f: nat, z: nat, n: nat)
    requires Wf(s) && c.Move?
    requires if c.at.cnt == 0 then f == z == s.now.dot else f == c.at.first && z == c.at.second
    requires if c.dest.cnt == 0 then n == s.now.dot else n == c.dest.second
    ensures var (t, status), text := Execute(c, s, inGlobal), s.now.text;
            var saved := if inGlobal then s.saved else Kept(s.now);
            if !(1 <= f <= z <= |text|) || n > |text| || f <= n < z then t == s && status == ERR
            else if n < f then
              && status == 0
              && t == State(View(text[..n] + text[f - 1..z] + text[n..f - 1] + text[z..], n + (z - f + 1)), saved)
            else
              && status == 0
              && t == State(View(text[..f - 1] + text[z..n] + text[f - 1..z] + text[n..], n), saved)
  {
    hide Execute;
    RangeMeans(c, s, inGlobal, f, z);
  }

  /** t: a copy of them does, wherever line n is. */
  lemma {:induction false} CopyMeans(c: Command, s: State, inGlobal: bool, f: nat, z: nat, n: nat)
    requires Wf(s) && c.Copy?
    requires if c.at.cnt == 0 then f == z == s.now.dot else f == c.at.first && z == c.at.second
    requires if c.dest.cnt == 0 then n == s.now.dot else n == c.dest.second
    ensures var (t, status), text := Execute(c, s, inGlobal), s.now.text;
            var saved := if inGlobal then s.saved else Kept(s.now);
            if !(1 <= f <= z <= |text|) || n > |text| then t == s && status == ERR
            else status == 0 && t == State(View(text[..n] + text[f - 1..z] + text[n..], n + (z - f + 1)), saved)
  {
    hide Execute;
    RangeMeans(c, s, inGlobal, f, z);
  }

  // ---- j ----

  /** j: one line that holds all the lines stands in their place, and is current; without addresses they are
      the current line and the next.  A single line stays as it is. */
  lemma {:induction false} JoinMeans(c: Command, s: State, inGlobal: bool, f: nat, z: nat)
    requires Wf(s) && c.Join?
    requires if c.at.cnt == 0 then f == s.now.dot && z == s.now.dot + 1 else f == c.at.first && z == c.at.second
    ensures var (t, status), text := Execute(c, s, inGlobal), s.now.text;
            var saved := if inGlobal then s.saved else Kept(s.now);
            if !(1 <= f <= z <= |text|) then t == s && status == ERR
            else if f == z then status == 0 && t == State(View(text, s.now.dot), saved)
            else
              && status == 0 && f <= |t.now.text| && Holds(t.now.text[f - 1], text[f - 1..z])
              && t.now.text[f - 1] == Flatten(text[f - 1..z])
              && t == State(View(text[..f - 1] + [t.now.text[f - 1]] + text[z..], f), saved)
  {
    hide Joined, Holds;
    if 1 <= f <= z <= |s.now.text| {
      JoinedIs(s.now, f, z);
    }
  }

  // ---- s ----

  lemma {:induction false} ReplacedParts(g: Text -> Replacement, a: seq<Text>, b: seq<Text>)
    ensures Replaced(g, []) == [] && Replaced(g, a + b) == Replaced(g, a) + Replaced(g, b)
  {
    hide ResultOf;
    if b == [] {
      assert a + b == a && Replaced(g, a) + [] == Replaced(g, a);
    } else {
      var n := |b| - 1;
      assert (a + b)[..|a| + n] == a + b[..n];
      ReplacedParts(g, a, b[..n]);
      Associate(Replaced(g, a), Replaced(g, b[..n]), ResultOf(g, b[n]));
    }
  }

  lemma {:induction false} ReplacedOne(g: Text -> Replacement, x: Text)
    ensures Replaced(g, [x]) == if g(x).By? then [g(x).first] + g(x).rest else [x]
  {
    assert [x][..0] == [] && [] + ResultOf(g, x) == ResultOf(g, x);
  }

  /** s, when it fails on no line: every line it changes gives way to its results, of which the last becomes
      current; it is an error outside a global command to change none. */
  lemma {:induction false} SubstituteMeans(c: Command, s: State, inGlobal: bool, f: nat, z: nat)
    requires Wf(s) && c.Substitute?
    requires if c.at.cnt == 0 then f == z == s.now.dot else f == c.at.first && z == c.at.second
    requires 1 <= f <= z <= |s.now.text| ==>
               var lines := s.now.text[f - 1..z];
               forall i :: 0 <= i < |lines| ==> !c.subst(lines[i]).Fails?
    ensures var (t, status), text := Execute(c, s, inGlobal), s.now.text;
            var saved := if inGlobal then s.saved else Kept(s.now);
            if !(1 <= f <= z <= |text|) then t == s && status == ERR
            else
              var lines := text[f - 1..z];
              var out := Replaced(c.subst, lines);
              && t == State(View(text[..f - 1] + out + text[z..], f - 1 + |out|), saved)
              && status == if inGlobal || (exists i :: 0 <= i < |lines| && c.subst(lines[i]).By?) then 0 else ERR
  {
    hide Execute, Replaced;
    RangeMeans(c, s, inGlobal, f, z);
    if 1 <= f <= z <= |s.now.text| {
      assert Before(c.subst, s.now.text[f - 1..z]) == z - (f - 1);
    }
  }

  /** s, when it fails on line n and on none before it: those before are done, and that line, which becomes
      current, and all after it stay. */
  lemma {:induction false} SubstituteFails(c: Command, s: State, inGlobal: bool, f: nat, z: nat, n: nat)
    requires Wf(s) && c.Substitute? && 1 <= f <= z <= |s.now.text| && f <= n <= z
    requires if c.at.cnt == 0 then f == z == s.now.dot else f == c.at.first && z == c.at.second
    requires c.subst(s.now.text[n - 1]).Fails?
    requires var before := s.now.text[f - 1..n - 1]; forall i :: 0 <= i < |before| ==> !c.subst(before[i]).Fails?
    ensures var (t, status), text := Execute(c, s, inGlobal), s.now.text;
            var saved := if inGlobal then s.saved else Kept(s.now);
            var out := Replaced(c.subst, text[f - 1..n - 1]);
            status == ERR && t == State(View(text[..f - 1] + out + text[n - 1..], f + |out|), saved)
  {
    hide Execute, Substituted;
    RangeMeans(c, s, inGlobal, f, z);
    SubstitutedUpTo(s.now, f, z, n, c.subst, inGlobal);
  }

  lemma {:induction false} SubstitutedUpTo(v: View, f: nat, z: nat, n: nat, g: Text -> Replacement, quiet: bool)
    requires 1 <= f <= n <= z <= |v.text| && g(v.text[n - 1]).Fails?
    requires var before := v.text[f - 1..n - 1]; forall i :: 0 <= i < |before| ==> !g(before[i]).Fails?
    ensures var out := Replaced(g, v.text[f - 1..n - 1]);
            Substituted(v, f, z, g, quiet) == (View(v.text[..f - 1] + out + v.text[n - 1..], f + |out|), ERR)
  {
    hide Replaced, Changes, Before;
    var lines, before := v.text[f - 1..z], v.text[f - 1..n - 1];
    assert lines[..n - f] == before;
    FirstFailure(g, lines, before, v.text[n - 1]);
    assert PartlyReplaced(v, f, n - f, g)
           == View(v.text[..f - 1] + Replaced(g, before) + v.text[n - 1..], f - 1 + |Replaced(g, before)|);
  }

  lemma {:induction false} FirstFailure(g: Text -> Replacement, lines: seq<Text>, before: seq<Text>, x: Text)
    requires |before| < |lines| && before == lines[..|before|] && lines[|before|] == x
    requires g(x).Fails? && forall i :: 0 <= i < |before| ==> !g(before[i]).Fails?
    ensures Before(g, lines) == |before|
  {
    assert forall i :: 0 <= i < |before| ==> lines[i] == before[i];
  }

  // ---- lists, visits and sessions ----

  /** A command list is executed in its order, and not beyond the first error. */
  lemma {:induction false} ListMeans(cs: seq<Command>, c: Command, s: State, inGlobal: bool)
    requires Wf(s)
    ensures ExecList([], s, inGlobal) == (s, 0)
    ensures var (t, status) := ExecList(cs, s, inGlobal);
            ExecList(cs + [c], s, inGlobal) == if status < 0 then (t, status) else Execute(c, t, inGlobal)
  {
    hide Execute;
    assert (cs + [c])[..|cs|] == cs;
  }

  /** Each visit makes its line current and runs the list that the script has for it, and the first error ends
      it all. */
  lemma {:induction false} VisitMeans(addrs: seq<nat>, addr: nat, script: seq<seq<Command>>, s: State)
    requires Wf(s) && |addrs| < |script|
    ensures RunVisits([], script, s) == (s, 0)
    ensures var (t, status) := RunVisits(addrs, script, s);
            RunVisits(addrs + [addr], script, s)
            == if status < 0 then (t, status)
               else if addr > |t.now.text| then (t, ERR)
               else ExecList(script[|addrs|], State(View(t.now.text, addr), t.saved), true)
  {
    hide ExecList;
    assert (addrs + [addr])[..|addrs|] == addrs;
  }

  /** What is printed comes in the order of the commands. */
  lemma {:induction false} PrintedParts(a: seq<Done>, b: seq<Done>)
    ensures PrintedBy([]) == [] && PrintedBy(a + b) == PrintedBy(a) + PrintedBy(b)
  {
    hide Output;
    if b == [] {
      assert a + b == a && PrintedBy(a) + [] == PrintedBy(a);
    } else {
      var n := |b| - 1;
      assert (a + b)[..|a| + n] == a + b[..n];
      PrintedParts(a, b[..n]);
      Associate(PrintedBy(a), PrintedBy(b[..n]), Output(b[n].c, b[n].v));
    }
  }

  /** A session is what its entries do, one after another, errors or not; a command is then not inside a
      global command. */
  lemma {:induction false} SessionMeans(entries: seq<Entry>, c: Command, g: Entry, s: State)
    requires Wf(s) && g.Global?
    ensures Session([], s) == s && SessionPrints([], s) == []
    ensures var t := Session(entries, s);
            && Session(entries + [One(c)], s) == Execute(c, t, false).0
            && SessionPrints(entries + [One(c)], s) == SessionPrints(entries, s) + Output(c, t.now)
            && Session(entries + [g], s) == ExecuteGlobal(g, t).0
            && SessionPrints(entries + [g], s) == SessionPrints(entries, s) + Prints(g, t)
  {
    SessionOneMore(entries, One(c), s);
    SessionOneMore(entries, g, s);
  }

  /** The lines chosen are those of the range that match, for g, or do not, for v, in their order. */
  lemma {:induction false} ChosenMeans(text: seq<Text>, first: nat, second: nat, pat: Text -> bool, sense: bool)
    requires 1 <= first && second <= |text|
    ensures var at := Chosen(text, first, second, pat, sense);
            && (forall i :: 0 <= i < |at| ==> first <= at[i] <= second && pat(text[at[i] - 1]) == sense)
            && (forall n: nat :: first <= n <= second && pat(text[n - 1]) == sense ==> n in at)
            && forall i, j :: 0 <= i < j < |at| ==> at[i] < at[j]
  {
    var at := Chosen(text, first, second, pat, sense);
    forall i: nat | i < |at| ensures first <= at[i] <= second && pat(text[at[i] - 1]) == sense {
      ChosenAt(text, first, second, pat, sense, i);
    }
    forall n: nat | first <= n <= second && pat(text[n - 1]) == sense ensures n in at {
      ChosenHas(text, first, second, pat, sense, n);
    }
    forall i: nat, j: nat | i < j < |at| ensures at[i] < at[j] {
      ChosenOrder(text, first, second, pat, sense, i, j);
    }
  }

  lemma {:induction false} ChosenAt(text: seq<Text>, first: nat, second: nat, pat: Text -> bool, sense: bool, i: nat)
    requires 1 <= first && second <= |text| && i < |Chosen(text, first, second, pat, sense)|
    ensures var n := Chosen(text, first, second, pat, sense)[i]; first <= n <= second && pat(text[n - 1]) == sense
  {
    if i < |Chosen(text, first, second - 1, pat, sense)| {
      ChosenAt(text, first, second - 1, pat, sense, i);
    }
  }

  lemma {:induction false} ChosenHas(text: seq<Text>, first: nat, second: nat, pat: Text -> bool, sense: bool, n: nat)
    requires 1 <= first <= n <= second <= |text| && pat(text[n - 1]) == sense
    ensures n in Chosen(text, first, second, pat, sense)
  {
    if n < second {
      ChosenHas(text, first, second - 1, pat, sense, n);
    }
  }

  lemma {:induction false} ChosenOrder(text: seq<Text>, first: nat, second: nat, pat: Text -> bool, sense: bool, i: nat,
                                       j: nat)
    requires 1 <= first && second <= |text| && i < j < |Chosen(text, first, second, pat, sense)|
    ensures var at := Chosen(text, first, second, pat, sense); at[i] < at[j]
  {
    if j < |Chosen(text, first, second - 1, pat, sense)| {
      ChosenOrder(text, first, second - 1, pat, sense, i, j);
    } else {
      ChosenAt(text, first, second - 1, pat, sense, i);
    }
  }

  lemma NothingDone(script: seq<seq<Command>>, s: State)
    requires Wf(s)
    ensures VisitsDone([], script, s) == [] && PrintedBy([]) == []
  {
  }

  /** g and v without addresses look at the whole text, with addresses at that range; anything else, an empty
      text included, is an error. */
  lemma {:induction false} GlobalMeans(g: Entry, s: State, first: nat, second: nat)
    requires Wf(s) && g.Global?
    requires if g.at.cnt == 0 then first == 1 && second == |s.now.text|
             else first == g.at.first && second == g.at.second
    ensures if !(1 <= first <= second <= |s.now.text|) then ExecuteGlobal(g, s) == (s, ERR) && Prints(g, s) == []
            else
              var start := State(s.now, Kept(s.now));
              var addrs := Tour(Chosen(s.now.text, first, second, g.pat, g.sense), 0, [], g.script, start);
              && ExecuteGlobal(g, s) == RunVisits(addrs, g.script, start)
              && Prints(g, s) == PrintedBy(VisitsDone(addrs, g.script, start))
  {
    hide Tour, RunVisits, VisitsDone, Chosen;
    NothingDone(g.script, State(s.now, Kept(s.now)));
  }
}
