/** The command that grep is named after: g/re/p prints the lines that match, and v/re/p the others. */
module EdGrep {
  import opened EdModel
  import opened EdMeaning
  import opened Sequences

  const P: Command := Print(Addrs(0, 0, 0))

  /** The texts that match, or do not, in their order. */
  ghost function Sifted(s: seq<Text>, pat: Text -> bool, sense: bool): seq<Text> {
    if s == [] then []
    else
      var n := |s| - 1;
      Sifted(s[..n], pat, sense) + if pat(s[n]) == sense then [s[n]] else []
  }

  ghost predicate AllIn(at: seq<nat>, text: seq<Text>) {
    |at| <= |text| && forall i :: 0 <= i < |at| ==> 1 <= at[i] <= |text|
  }

  ghost function TextsAt(at: seq<nat>, text: seq<Text>): seq<Text>
    requires AllIn(at, text)
  {
    seq(|at|, i requires 0 <= i < |at| => text[at[i] - 1])
  }

  lemma TextsOneMore(at: seq<nat>, x: nat, text: seq<Text>)
    requires AllIn(at, text) && 1 <= x <= |text| && |at| < |text|
    ensures AllIn(at + [x], text) && TextsAt(at + [x], text) == TextsAt(at, text) + [text[x - 1]]
  {
  }

  lemma {:induction false} ChosenTexts(text: seq<Text>, first: nat, second: nat, pat: Text -> bool, sense: bool)
    requires 1 <= first <= second + 1 && second <= |text|
    ensures var at := Chosen(text, first, second, pat, sense);
            && |at| <= second + 1 - first && AllIn(at, text)
            && TextsAt(at, text) == Sifted(text[first - 1..second], pat, sense)
  {
    hide TextsAt, AllIn;
    if second < first {
      NothingChosen(text);
      assert text[first - 1..second] == [];
    } else {
      ChosenTexts(text, first, second - 1, pat, sense);
      var at, s := Chosen(text, first, second - 1, pat, sense), text[first - 1..second];
      SliceGrows(text, first - 1, second - 1, second);
      assert s[..|s| - 1] == text[first - 1..second - 1] && s[|s| - 1] == text[second - 1];
      TextsOneMore(at, second, text);
      assert at + [] == at && TextsAt(at, text) + [] == TextsAt(at, text);
    }
  }

  lemma NothingChosen(text: seq<Text>)
    ensures AllIn([], text) && TextsAt([], text) == []
  {
  }

  // ---- printing commands ----

  /** p at each of these addresses. */
  ghost function PrintsAt(at: seq<nat>, text: seq<Text>): seq<Done> {
    seq(|at|, i requires 0 <= i < |at| => Done(P, View(text, at[i]), 0))
  }

  lemma PrintOne(s: State, dot: nat)
    requires Wf(s) && 1 <= dot <= |s.now.text|
    ensures var t := State(s.now.(dot := dot), s.saved);
            ExecList([P], t, true) == (t, 0) && ListDone([P], t, true) == [Done(P, t.now, 0)]
            && Output(P, t.now) == [t.now.text[dot - 1]]
  {
    var t := State(s.now.(dot := dot), s.saved);
    assert [P][..0] == [];
    assert Execute(P, t, true) == (t, 0);
    assert ExecList([P][..0], t, true) == (t, 0) && ListDone([P][..0], t, true) == [];
  }

  /** Visits that only print: the text stays, and all of them take place. */
  lemma {:induction false} PrintRun(at: seq<nat>, script: seq<seq<Command>>, v: View)
    requires v.dot <= |v.text| && AllIn(at, v.text)
    requires forall i :: 0 <= i < |v.text| ==> ListFor(script, i) == [P]
    ensures var s := State(v, Kept(v));
            && RunVisits(at, script, s) == (State(if at == [] then v else View(v.text, at[|at| - 1]), Kept(v)), 0)
            && VisitsDone(at, script, s) == PrintsAt(at, v.text)
  {
    hide ExecList, ListDone;
    if at != [] {
      var n := |at| - 1;
      PrintRun(at[..n], script, v);
      PrintOne(RunVisits(at[..n], script, State(v, Kept(v))).0, at[n]);
      assert PrintsAt(at, v.text) == PrintsAt(at[..n], v.text) + [Done(P, View(v.text, at[n]), 0)];
    }
  }

  lemma {:induction false} PrintsStay(at: seq<nat>, text: seq<Text>, p: nat)
    requires 1 <= p <= |text|
    ensures Follow(PrintsAt(at, text), p) == Some(p)
  {
    if at != [] {
      var n := |at| - 1;
      PrintsStay(at[..n], text, p);
      assert PrintsAt(at, text)[..n] == PrintsAt(at[..n], text);
    }
  }

  lemma OutputOfP(text: seq<Text>, dot: nat)
    requires 1 <= dot <= |text|
    ensures Output(P, View(text, dot)) == [text[dot - 1]]
  {
  }

  lemma {:induction false} PrintedTexts(at: seq<nat>, text: seq<Text>)
    requires AllIn(at, text)
    ensures PrintedBy(PrintsAt(at, text)) == TextsAt(at, text)
  {
    hide Output;
    if at != [] {
      var n := |at| - 1;
      PrintedTexts(at[..n], text);
      assert PrintsAt(at, text)[..n] == PrintsAt(at[..n], text);
      OutputOfP(text, at[n]);
      assert at == at[..n] + [at[n]];
      TextsOneMore(at[..n], at[n], text);
    }
  }

  /** Every line chosen is visited, where it was. */
  lemma {:induction false} PrintTour(at: seq<nat>, k: nat, script: seq<seq<Command>>, v: View)
    requires v.dot <= |v.text| && AllIn(at, v.text) && k <= |at|
    requires forall i :: 0 <= i < |v.text| ==> ListFor(script, i) == [P]
    ensures Tour(at, k, at[..k], script, State(v, Kept(v))) == at
    decreases |at| - k
  {
    hide RunVisits, VisitsDone, Follow;
    PrintRun(at[..k], script, v);
    if k < |at| {
      PrintsStay(at[..k], v.text, at[k]);
      assert at[..k + 1] == at[..k] + [at[k]];
      PrintTour(at, k + 1, script, v);
    } else {
      assert at[..k] == at;
    }
  }

  /** The texts that match, for g, or do not, for v, are all there, as often as they were, and nothing else is;
      and they are in their order. */
  lemma {:induction false} SiftedMeans(a: seq<Text>, b: seq<Text>, pat: Text -> bool, sense: bool, x: Text)
    ensures x in Sifted(a, pat, sense) ==> pat(x) == sense
    ensures multiset(Sifted(a, pat, sense))[x] == if pat(x) == sense then multiset(a)[x] else 0
    ensures Sifted(a + b, pat, sense) == Sifted(a, pat, sense) + Sifted(b, pat, sense)
  {
    SiftedCount(a, pat, sense, x);
    if b == [] {
      assert a + b == a && Sifted(a, pat, sense) + [] == Sifted(a, pat, sense);
    } else {
      var n := |b| - 1;
      assert (a + b)[..|a| + n] == a + b[..n];
      SiftedMeans(a, b[..n], pat, sense, x);
      Associate(Sifted(a, pat, sense), Sifted(b[..n], pat, sense), if pat(b[n]) == sense then [b[n]] else []);
    }
  }

  lemma {:induction false} SiftedCount(a: seq<Text>, pat: Text -> bool, sense: bool, x: Text)
    ensures x in Sifted(a, pat, sense) ==> pat(x) == sense
    ensures multiset(Sifted(a, pat, sense))[x] == if pat(x) == sense then multiset(a)[x] else 0
  {
    if a != [] {
      var n := |a| - 1;
      assert a == a[..n] + [a[n]];
      SiftedCount(a[..n], pat, sense, x);
    }
  }

  /** g/re/p, and v/re/p: of the lines typed, or of all when none is, those that match are printed, in their
      order and each once; the text stays as it is, and the last line printed becomes current. */
  lemma {:induction false} GrepPrints(g: Entry, s: State, first: nat, second: nat)
    requires g.Global? && Wf(s) && 1 <= first <= second <= |s.now.text|
    requires if g.at.cnt == 0 then first == 1 && second == |s.now.text|
             else first == g.at.first && second == g.at.second
    requires |s.now.text| <= |g.script| && forall i :: 0 <= i < |s.now.text| ==> g.script[i] == [P]
    ensures var at := Chosen(s.now.text, first, second, g.pat, g.sense);
            && Prints(g, s) == Sifted(s.now.text[first - 1..second], g.pat, g.sense)
            && ExecuteGlobal(g, s)
               == (State(if at == [] then s.now else View(s.now.text, at[|at| - 1]), Kept(s.now)), 0)
    ensures g.at.cnt == 0 ==> Prints(g, s) == Sifted(s.now.text, g.pat, g.sense)
  {
    hide Tour, RunVisits, VisitsDone, PrintedBy, Prints, ExecuteGlobal, Sifted;
    var at := Chosen(s.now.text, first, second, g.pat, g.sense);
    GlobalMeans(g, s, first, second);
    ChosenTexts(s.now.text, first, second, g.pat, g.sense);
    PrintTour(at, 0, g.script, s.now);
    assert at[..0] == [];
    PrintRun(at, g.script, s.now);
    PrintedTexts(at, s.now.text);
    assert g.at.cnt == 0 ==> s.now.text[first - 1..second] == s.now.text;
  }
}
