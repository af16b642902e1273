/** The lines that a global command visits are settled by the texts alone: `EdModel.Visited` follows the
    addresses of the lines collected, and the visits of the trace are its tour. */
module EdTour {
  import opened EdLinks
  import opened EdEffects
  import opened EdEdits
  import opened EdReplace
  import opened EdCommands
  import opened EdTrace
  import opened Sequences
  import M = EdModel

  // ---- one command ----

  /** x is the i-th line of s, and no other. */
  ghost predicate Once(s: seq<Line>, x: Line, i: int) {
    0 <= i < |s| && s[i] == x && forall k :: 0 <= k < |s| && s[k] == x ==> k == i
  }

  lemma OnceSlice(s: seq<Line>, x: Line, i: int, a: nat, b: nat)
    requires Once(s, x, i) && a <= b <= |s|
    ensures if a <= i < b then Once(s[a..b], x, i - a) else x !in s[a..b]
  {
    if x in s[a..b] {
      var k :| 0 <= k < b - a && s[a..b][k] == x;
      assert s[a + k] == x;
    }
  }

  lemma OnceCut(s: seq<Line>, x: Line, i: int, b: nat)
    requires Once(s, x, i) && b <= |s|
    ensures if i < b then Once(s[..b], x, i) && x !in s[b..] else x !in s[..b] && Once(s[b..], x, i - b)
  {
    OnceSlice(s, x, i, 0, b);
    OnceSlice(s, x, i, b, |s|);
    assert s[0..b] == s[..b] && s[b..|s|] == s[b..];
  }

  lemma OnceIn(s: seq<Line>, x: Line, i: int)
    ensures Once(s, x, i) ==> x in s
  {
  }

  lemma OnceRange(s: seq<Line>, x: Line, i: int)
    requires Once(s, x, i)
    ensures 0 <= i < |s| && s[i] == x && x in s
  {
  }

  /** Where x stands in a list of three parts. */
  lemma OnceInParts(a: seq<Line>, m: seq<Line>, b: seq<Line>, x: Line, i: int)
    ensures Once(a, x, i) && x !in m && x !in b ==> Once(a + m + b, x, i)
    ensures x !in a && Once(m, x, i) && x !in b ==> Once(a + m + b, x, |a| + i)
    ensures x !in a && x !in m && Once(b, x, i) ==> Once(a + m + b, x, |a| + |m| + i)
    ensures x !in a && x !in m && x !in b ==> x !in a + m + b
  {
    var s := a + m + b;
    assert forall k :: 0 <= k < |a| ==> s[k] == a[k];
    assert forall k :: 0 <= k < |m| ==> s[|a| + k] == m[k];
    assert forall k :: 0 <= k < |b| ==> s[|a| + |m| + k] == b[k];
  }

  /** A list that is was[..i] + mid + was[j..], with x nowhere in the middle. */
  lemma OnceAround(was: seq<Line>, now: seq<Line>, mid: seq<Line>, i: nat, j: nat, x: Line, p: nat)
    requires i <= j <= |was| && now == was[..i] + mid + was[j..] && x !in mid && p >= 1 && Once(was, x, p - 1)
    ensures match M.Past(p, i + 1, j, |mid|) case Some(q) => q >= 1 && Once(now, x, q - 1) case None => x !in now
  {
    hide Once;
    OnceCut(was, x, p - 1, i);
    OnceCut(was, x, p - 1, j);
    OnceInParts(was[..i], mid, was[j..], x, if p <= i then p - 1 else p - 1 - j);
  }

  lemma SplicedWhere(was: seq<Line>, now: seq<Line>, i: nat, j: nat, m: nat, x: Line, p: nat)
    requires Spliced(Elems(was), was, now, i, j) && |now| == |was| - (j - i) + m
    requires p >= 1 && Once(was, x, p - 1)
    ensures match M.Past(p, i + 1, j, m) case Some(q) => q >= 1 && Once(now, x, q - 1) case None => x !in now
  {
    var mid := now[i..i + m];
    assert now == was[..i] + mid + was[j..];
    assert x in was;
    OnceAround(was, now, mid, i, j, x, p);
  }

  lemma DeletedWhere(was: seq<Line>, now: seq<Line>, i: nat, j: nat, x: Line, p: nat)
    requires i <= j <= |was| && now == was[..i] + was[j..] && p >= 1 && Once(was, x, p - 1)
    ensures match M.Past(p, i + 1, j, 0) case Some(q) => q >= 1 && Once(now, x, q - 1) case None => x !in now
  {
    assert was[..i] + [] + was[j..] == now;
    OnceAround(was, now, [], i, j, x, p);
  }

  /** A line between i and k, when the blocks i to j - 1 and j to k - 1 have changed places. */
  lemma SwappedWhere(was: seq<Line>, now: seq<Line>, i: nat, j: nat, k: nat, x: Line, p: nat)
    requires i <= j <= k <= |was| && now == was[..i] + was[j..k] + was[i..j] + was[k..]
    requires 1 <= p && Once(was, x, p - 1)
    ensures Once(now, x, (if i < p <= j then p + (k - j) else if j < p <= k then p - (j - i) else p) - 1)
  {
    hide Once;
    var a, b := was[i..j], was[j..k];
    OnceCut(was, x, p - 1, i);
    OnceCut(was, x, p - 1, k);
    OnceSlice(was, x, p - 1, i, j);
    OnceSlice(was, x, p - 1, j, k);
    assert was[..i] + b + a + was[k..] == was[..i] + (b + a) + was[k..] && [] + b + a == b + a;
    if p <= i {
      OnceInParts(was[..i], b + a, was[k..], x, p - 1);
    } else if p <= j {
      OnceInParts([], b, a, x, p - 1 - i);
      OnceInParts(was[..i], b + a, was[k..], x, k - j + p - 1 - i);
    } else if p <= k {
      OnceInParts([], b, a, x, p - 1 - j);
      OnceInParts(was[..i], b + a, was[k..], x, p - 1 - j);
    } else {
      OnceInParts(was[..i], b + a, was[k..], x, p - 1 - k);
    }
  }

  lemma MovedWhere(was: seq<Line>, first: nat, second: nat, addr: nat, x: Line, p: nat)
    requires 1 <= first <= second <= |was| && addr <= |was| && !(first <= addr < second)
    requires 1 <= p && Once(was, x, p - 1)
    ensures var m := second + 1 - first;
            first <= p <= second
            || Once(Moved(was, first, second, addr), x,
                    (if addr < p < first then p + m else if second < p <= addr then p - m else p) - 1)
  {
    hide Once;
    if addr < first {
      SwappedWhere(was, Moved(was, first, second, addr), addr, first - 1, second, x, p);
    } else {
      SwappedWhere(was, Moved(was, first, second, addr), first - 1, second, addr, x, p);
    }
  }

  /** A line that was not among those done, and is not new either. */
  lemma {:induction false} RelinedAbsent(f: Text -> M.Replacement, text: seq<Text>, was: seq<Line>, now: seq<Line>,
                                         taken: set<Line>, x: Line)
    requires |text| == |was| && Relined(f, text, was, now, taken) && x in taken && x !in was
    ensures x !in now
  {
    if text != [] {
      var n := |text| - 1;
      var m := |now| - |M.ResultOf(f, text[n])|;
      RelinedAbsent(f, text[..n], was[..n], now[..m], taken, x);
      forall i | 0 <= i < |now| ensures now[i] != x {
        assert now[i] == if i < m then now[..m][i] else now[m..][i - m];
      }
    }
  }

  lemma {:induction false} RelinedLength(f: Text -> M.Replacement, text: seq<Text>, was: seq<Line>, now: seq<Line>,
                                         taken: set<Line>)
    requires |text| == |was| && Relined(f, text, was, now, taken)
    ensures |now| == |M.Replaced(f, text)|
  {
    if text != [] {
      var n := |text| - 1;
      RelinedLength(f, text[..n], was[..n], now[..|now| - |M.ResultOf(f, text[n])|], taken);
    }
  }

  /** One that was: it is gone if f changes it, and else stands after what has come of those before it. */
  lemma {:induction false} RelinedWhere(f: Text -> M.Replacement, text: seq<Text>, was: seq<Line>, now: seq<Line>,
                                        taken: set<Line>, x: Line, j: nat)
    requires |text| == |was| && Relined(f, text, was, now, taken) && x in taken && Once(was, x, j)
    ensures if f(text[j]).By? then x !in now else Once(now, x, |M.Replaced(f, text[..j])|)
  {
    hide Once, M.Replaced, M.ResultOf;
    OnceRange(was, x, j);
    var n := |text| - 1;
    var m := |now| - |M.ResultOf(f, text[n])|;
    var t, w, a, b := text[..n], was[..n], now[..m], now[m..];
    OnceCut(was, x, j, n);
    assert now == a + b + [] && text[..j] == t[..j];
    if j == n {
      RelinedAbsent(f, t, w, a, taken, x);
      RelinedLength(f, t, w, a, taken);
      OnceOnly(x);
      OnceInParts(a, b, [], x, 0);
    } else {
      RelinedWhere(f, t, w, a, taken, x, j);
      OnceInParts(a, b, [], x, |M.Replaced(f, t[..j])|);
    }
  }

  lemma OnceOnly(x: Line)
    ensures Once([x], x, 0)
  {
  }

  lemma {:induction false} SubstParts(v: M.View, first: nat, second: nat, k: nat, f: Text -> M.Replacement,
                                      was: seq<Line>, now: seq<Line>, taken: set<Line>)
    returns (mid: seq<Line>)
    requires 1 <= first <= second <= |v.text| == |was| && SubstLines(v, first, second, f, was, now, taken)
    requires k == M.Before(f, v.text[first - 1..second])
    ensures now == was[..first - 1] + mid + was[first - 1 + k..]
    ensures Relined(f, v.text[first - 1..first - 1 + k], was[first - 1..first - 1 + k], mid, taken)
  {
    hide Relined;
    var i := |now| - (|was| - (first - 1 + k));
    mid := now[..i][first - 1..];
    assert now[..i] == was[..first - 1] + mid;
    assert now == now[..i] + now[i..];
  }

  lemma {:induction false} SubstWhere(v: M.View, first: nat, second: nat, f: Text -> M.Replacement, was: seq<Line>,
                                      now: seq<Line>, x: Line, p: nat)
    requires 1 <= first <= second <= |v.text| == |was| && SubstLines(v, first, second, f, was, now, Elems(was))
    requires 1 <= p <= |was| && Once(was, x, p - 1)
    ensures match M.StaysUnchanged(f, v, first, second, p)
            case Some(q) => q >= 1 && Once(now, x, q - 1)
            case None => x !in now
  {
    hide Once, Relined, M.Replaced, M.StaysUnchanged, SubstLines;
    var k, i := M.Before(f, v.text[first - 1..second]), first - 1;
    var t := v.text[i..i + k];
    OnceRange(was, x, p - 1);
    var mid := SubstParts(v, first, second, k, f, was, now, Elems(was));
    StaysCases(f, v, first, second, k, p);
    if first <= p < first + k {
      SliceOfSlice(v.text, i, i + k, p - first);
      SubstWithin(f, t, was, now, mid, i, i + k, Elems(was), x, p, v.text[i..p - 1]);
    } else {
      SubstOutside(f, t, was, now, mid, i, i + k, Elems(was), x, p);
    }
  }

  lemma {:induction false} SubstOutside(f: Text -> M.Replacement, text: seq<Text>, was: seq<Line>, now: seq<Line>,
                                        mid: seq<Line>, i: nat, j: nat, taken: set<Line>, x: Line, p: nat)
    requires i <= j <= |was| && now == was[..i] + mid + was[j..] && |text| == j - i
    requires Relined(f, text, was[i..j], mid, taken) && x in taken && !(i < p <= j) && p >= 1 && Once(was, x, p - 1)
    ensures Once(now, x, (if p <= i then p else p - (j - i) + |M.Replaced(f, text)|) - 1)
  {
    hide Once, Relined, M.Replaced;
    OnceSlice(was, x, p - 1, i, j);
    RelinedLength(f, text, was[i..j], mid, taken);
    RelinedAbsent(f, text, was[i..j], mid, taken, x);
    OnceAround(was, now, mid, i, j, x, p);
  }

  lemma {:induction false} StaysCases(f: Text -> M.Replacement, v: M.View, first: nat, second: nat, k: nat, p: nat)
    requires 1 <= first <= second <= |v.text| && 1 <= p <= |v.text| && k == M.Before(f, v.text[first - 1..second])
    ensures var q := M.StaysUnchanged(f, v, first, second, p);
            if !(first <= p < first + k) then
              q == M.Some(if p < first then p else p - k + |M.Replaced(f, v.text[first - 1..first - 1 + k])|)
            else if f(v.text[p - 1]).By? then q == M.None
            else q == M.Some(first + |M.Replaced(f, v.text[first - 1..p - 1])|)
  {
    hide M.Replaced, M.Before;
  }

  lemma SliceOfSlice<T>(s: seq<T>, i: nat, j: nat, k: nat)
    requires i + k < j <= |s|
    ensures s[i..j][..k] == s[i..i + k] && s[i..j][k] == s[i + k]
  {
  }

  lemma {:induction false} SubstWithin(f: Text -> M.Replacement, text: seq<Text>, was: seq<Line>, now: seq<Line>,
                                       mid: seq<Line>, i: nat, j: nat, taken: set<Line>, x: Line, p: nat,
                                       before: seq<Text>)
    requires i < p <= j <= |was| && now == was[..i] + mid + was[j..] && |text| == j - i && before == text[..p - 1 - i]
    requires Relined(f, text, was[i..j], mid, taken) && x in taken && Once(was, x, p - 1)
    ensures if f(text[p - 1 - i]).By? then x !in now else Once(now, x, i + |M.Replaced(f, before)|)
  {
    hide Once, Relined, M.Replaced;
    OnceSlice(was, x, p - 1, i, j);
    OnceCut(was, x, p - 1, i);
    OnceCut(was, x, p - 1, j);
    RelinedWhere(f, text, was[i..j], mid, taken, x, p - 1 - i);
    OnceInParts(was[..i], mid, was[j..], x, |M.Replaced(f, before)|);
  }

  /** A command that works on a range. */
  lemma {:induction false} RangeWhere(c: M.Command, v: M.View, was: seq<Line>, now: seq<Line>, first: nat, second: nat,
                                      block: seq<Line>, x: Line, p: nat)
    requires M.NeedsRange(c) && RangeRelisted(c, v, was, now, first, second) && 1 <= p <= |was| && Once(was, x, p - 1)
    requires block == if c.Move? && M.Legal(c.dest, |was|) && !(first <= M.Second(c.dest, v.dot) < second)
                      then was[first - 1..second] else []
    ensures match M.StaysInRange(c, v, first, second, p)
            case Some(q) => q >= 1 && Once(now, x, q - 1) && x !in block
            case None => x !in now || x in block
  {
    hide Once, Spliced, SubstLines, Moved, M.Past, M.StaysUnchanged;
    match c {
      case Change(_, input) => SplicedWhere(was, now, first - 1, second, |input|, x, p);
      case Copy(_, dest) =>
        if M.Legal(dest, |was|) {
          SplicedWhere(was, now, M.Second(dest, v.dot), M.Second(dest, v.dot), second + 1 - first, x, p);
        }
      case Delete(_) => DeletedWhere(was, now, first - 1, second, x, p);
      case Join(_) =>
        if first < second {
          SplicedWhere(was, now, first - 1, second, 1, x, p);
        }
      case Move(_, dest) =>
        OnceSlice(was, x, p - 1, first - 1, second);
        OnceIn(was[first - 1..second], x, p - first);
        if block != [] {
          MovedWhere(was, first, second, M.Second(dest, v.dot), x, p);
        }
      case Print(_) =>
      case Substitute(_, f) => SubstWhere(v, first, second, f, was, now, x, p);
    }
  }

  /** `EdModel.Stays` is where a line stands after a command, unless that has deleted or moved it. */
  lemma {:induction false} StaysOk(d: Deed, x: Line, p: nat)
    requires DeedOk(d) && !M.Undoes(d.done) && 1 <= p && Once(d.was, x, p - 1)
    ensures match M.Stays(d.done.c, d.done.v, p)
            case Some(q) => q >= 1 && Once(d.now, x, q - 1) && !Hit(d, x)
            case None => Hit(d, x)
  {
    hide Once, Spliced, RangeRelisted, M.StaysInRange;
    var c, v, was, now := d.done.c, d.done.v, d.was, d.now;
    var n, range := M.Second(c.at, v.dot), M.CheckRange(c.at, v.dot, v.dot + if c.Join? then 1 else 0, |was|);
    OnceRange(was, x, p - 1);
    if M.Legal(c.at, |was|) {
      if M.NeedsRange(c) {
        if range.Some? {
          RangeWhere(c, v, was, now, range.value.0, range.value.1, d.block, x, p);
        }
      } else if c.Append? {
        SplicedWhere(was, now, n, n, |c.input|, x, p);
      } else if c.Insert? && n > 0 {
        SplicedWhere(was, now, n - 1, n - 1, |c.input|, x, p);
      }
    }
    if M.Stays(c, v, p).Some? {
      OnceRange(now, x, M.Stays(c, v, p).value - 1);
    }
  }

  // ---- all of them ----

  /** `EdModel.Follow` is where a line stands after the first n commands, unless one has deleted or moved it
      or undone what was done. */
  lemma {:induction false} FollowOk(deeds: seq<Deed>, first: seq<Line>, n: nat, x: Line, p: nat)
    requires Consecutive(deeds, first) && n <= |deeds| && 1 <= p && Once(first, x, p - 1)
    ensures match M.Follow(Commands(deeds)[..n], p)
            case Some(q) =>
              q >= 1 && Once(ListAfter(deeds, first, n), x, q - 1) && !HitBy(deeds, n, x) && !Undone(deeds[..n])
            case None => HitBy(deeds, n, x) || Undone(deeds[..n])
  {
    hide Once, DeedOk, M.Stays;
    if n > 0 {
      var dones, d := Commands(deeds), deeds[n - 1];
      FollowOk(deeds, first, n - 1, x, p);
      assert Follows(deeds, first, n - 1);
      assert dones[..n][..n - 1] == dones[..n - 1];
      UndoneOneMore(deeds[..n - 1], d);
      assert deeds[..n] == deeds[..n - 1] + [d];
      var q := M.Follow(dones[..n - 1], p);
      if q.Some? && !IsUndo(d) {
        StaysOk(d, x, q.value);
      }
    }
  }

  // ---- the lines collected ----

  /** The lines collected are those at the addresses that `EdModel.Chosen` gives. */
  lemma {:induction false} CollectedAt(live: seq<Line>, text: seq<Text>, first: nat, second: nat, pat: Text -> bool,
                                       sense: bool, got: seq<Line>)
    requires Collected(live, text, first, second + 1, pat, sense, got)
    ensures var at := M.Chosen(text, first, second, pat, sense);
            |got| == |at| && forall m :: 0 <= m < |at| ==> 1 <= at[m] <= |live| && got[m] == live[at[m] - 1]
  {
    hide Matching;
    if second < first {
      NoneMatching(pat, sense);
      assert live[first - 1..second] == [] && text[first - 1..second] == [];
    } else {
      var i, j := first - 1, second - 1;
      var a := Matching(live[i..j], text[i..j], pat, sense);
      SliceGrows(live, i, j, j + 1);
      SliceGrows(text, i, j, j + 1);
      MatchingOneMore(live[i..j], text[i..j], pat, sense, live[j], text[j]);
      CollectedAt(live, text, first, second - 1, pat, sense, a);
    }
  }

  lemma NoneMatching(pat: Text -> bool, sense: bool)
    ensures Matching([], [], pat, sense) == []
  {
  }

  // ---- the tour ----

  lemma {:induction false} DonePrefix(addrs: seq<nat>, i: nat, script: seq<seq<M.Command>>, s: M.State)
    requires M.Wf(s) && i <= |addrs|
    ensures M.VisitsDone(addrs[..i], script, s) <= M.VisitsDone(addrs, script, s)
    decreases |addrs|
  {
    hide M.RunVisits, M.ListDone;
    if i == |addrs| {
      assert addrs[..i] == addrs;
    } else {
      var n := |addrs| - 1;
      assert addrs[..n][..i] == addrs[..i];
      DonePrefix(addrs[..n], i, script, s);
    }
  }

  /** The lines at these addresses have been collected. */
  ghost predicate Taken(at: seq<nat>, matched: seq<Line>, live: seq<Line>) {
    |at| == |matched| && forall m :: 0 <= m < |at| ==> 1 <= at[m] && Once(live, matched[m], at[m] - 1)
  }

  /** The commands executed before the i-th visit. */
  lemma {:induction false} DoneBefore(visits: seq<Visit>, i: nat, deeds: seq<Deed>, script: seq<seq<M.Command>>,
                                      s: M.State)
    requires M.Wf(s) && i < |visits| && Timed(visits, script, s)
    requires Commands(deeds) == M.VisitsDone(Route(visits), script, s)
    ensures visits[i].n <= |deeds| && M.VisitsDone(Route(visits[..i]), script, s) == Commands(deeds)[..visits[i].n]
  {
    hide M.VisitsDone, M.RunVisits;
    assert Route(visits[..i]) == Route(visits)[..i];
    DonePrefix(Route(visits), i, script, s);
  }

  /** The next visit is the next one of the tour ... */
  lemma {:induction false} NextVisit(at: seq<nat>, v: Visit, k: nat, matched: seq<Line>, deeds: seq<Deed>,
                                     live: seq<Line>)
    requires Taken(at, matched, live) && Consecutive(deeds, live) && VisitOk(v, k, matched, deeds, live)
    ensures var dones := Commands(deeds)[..v.n];
            M.NextUp(at, dones, k) == v.k && M.Follow(dones, at[v.k]) == M.Some(v.addr)
  {
    hide M.Follow, HitBy, Once, Consecutive, ListAfter, Undone;
    var dones := Commands(deeds)[..v.n];
    FollowOk(deeds, live, v.n, matched[v.k], at[v.k]);
    OnceVisited(ListAfter(deeds, live, v.n), matched[v.k], v.addr);
    var m := M.NextUp(at, dones, k);
    if m < v.k {
      FollowOk(deeds, live, v.n, matched[m], at[m]);
    }
  }

  lemma OnceVisited(s: seq<Line>, x: Line, addr: nat)
    requires 1 <= addr <= |s| && s[addr - 1] == x
    ensures forall i :: Once(s, x, i) ==> i == addr - 1
  {
  }

  /** ... and after the last visit the tour is over. */
  lemma {:induction false} NoNextVisit(at: seq<nat>, k: nat, matched: seq<Line>, deeds: seq<Deed>, live: seq<Line>)
    requires Taken(at, matched, live) && Consecutive(deeds, live) && k <= |at|
    requires Undone(deeds) || forall m :: k <= m < |matched| ==> HitBy(deeds, |deeds|, matched[m])
    ensures M.NextUp(at, Commands(deeds), k) == |at|
  {
    var m := M.NextUp(at, Commands(deeds), k);
    assert Commands(deeds)[..|deeds|] == Commands(deeds) && deeds[..|deeds|] == deeds;
    if m < |at| {
      FollowOk(deeds, live, |deeds|, matched[m], at[m]);
    }
  }

  /** From the i-th visit on, the visits are the tour. */
  lemma {:induction false} TourFrom(at: seq<nat>, script: seq<seq<M.Command>>, v: M.View, live: seq<Line>,
                                    matched: seq<Line>, deeds: seq<Deed>, visits: seq<Visit>, i: nat)
    requires VisitsRight(script, v, live, matched, deeds, visits) && Taken(at, matched, live) && i <= |visits|
    ensures Resume(visits, i) <= |at|
    ensures M.Tour(at, Resume(visits, i), Route(visits[..i]), script, M.State(v, M.Kept(v))) == Route(visits)
    decreases |visits| - i
  {
    hide M.VisitsDone, M.RunVisits, HitBy, Undone, Taken, Consecutive, VisitOk;
    var s := M.State(v, M.Kept(v));
    ResumeInList(visits, i, matched, deeds, live);
    TakenLength(at, matched, live);
    if i == |visits| {
      assert visits[..i] == visits;
      if M.RunVisits(Route(visits), script, s).1 >= 0 {
        NoNextVisit(at, Resume(visits, i), matched, deeds, live);
      }
    } else {
      DoneBefore(visits, i, deeds, script, s);
      NextVisit(at, visits[i], Resume(visits, i), matched, deeds, live);
      ResumeInList(visits, i + 1, matched, deeds, live);
      TourFrom(at, script, v, live, matched, deeds, visits, i + 1);
      assert Route(visits[..i + 1]) == Route(visits[..i]) + [visits[i].addr];
    }
  }

  lemma {:induction false} ResumeInList(visits: seq<Visit>, i: nat, matched: seq<Line>, deeds: seq<Deed>,
                                        first: seq<Line>)
    requires VisitsOk(visits, matched, deeds, first) && i <= |visits|
    ensures Resume(visits, i) <= |matched|
    ensures i < |visits| ==> VisitOk(visits[i], Resume(visits, i), matched, deeds, first)
  {
    hide HitBy, Undone, ListAfter;
    if i > 0 {
      assert VisitOk(visits[i - 1], Resume(visits, i - 1), matched, deeds, first);
    }
  }

  lemma TakenOk(at: seq<nat>, matched: seq<Line>, live: seq<Line>)
    requires Distinct(live) && |matched| == |at|
    requires forall m :: 0 <= m < |at| ==> 1 <= at[m] <= |live| && matched[m] == live[at[m] - 1]
    ensures Taken(at, matched, live)
  {
    forall m | 0 <= m < |at| ensures Once(live, matched[m], at[m] - 1) {
      assert forall k :: 0 <= k < |live| && live[k] == live[at[m] - 1] ==> k == at[m] - 1;
    }
  }

  lemma TakenLength(at: seq<nat>, matched: seq<Line>, live: seq<Line>)
    requires Taken(at, matched, live)
    ensures |at| == |matched|
  {
  }

  /** The trace of a global command, whatever lines its buffer is made of, visits the addresses that the
      texts alone determine. */
  lemma {:induction false} Determined(g: M.Entry, v: M.View, live: seq<Line>, matched: seq<Line>, deeds: seq<Deed>,
                                      visits: seq<Visit>)
    requires g.Global? && v.dot <= |v.text| && M.GlobalRange(g.at, |v.text|).Some? && Distinct(live)
    requires var range := M.GlobalRange(g.at, |v.text|).value;
             Collected(live, v.text, range.0, range.1 + 1, g.pat, g.sense, matched)
    requires VisitsRight(g.script, v, live, matched, deeds, visits)
    ensures Route(visits) == M.Visited(g, v)
  {
    var range := M.GlobalRange(g.at, |v.text|).value;
    var at := M.Chosen(v.text, range.0, range.1, g.pat, g.sense);
    hide VisitsRight, M.Tour, Taken, Collected, M.Chosen, Distinct;
    CollectedAt(live, v.text, range.0, range.1, g.pat, g.sense, matched);
    TakenOk(at, matched, live);
    TourFrom(at, g.script, v, live, matched, deeds, visits, 0);
    assert Route(visits[..0]) == [];
  }
}
