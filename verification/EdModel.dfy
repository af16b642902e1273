/** What the user of ed sees: a list of texts, a current line, and one view that undo would bring
    back.  `Execute` is the meaning of a command on it, with no nodes, links or stack. */
module EdModel {
  import opened EdTables
  import opened EdEffects
  import opened Sequences

  type Text = seq<char>

  datatype View = View(text: seq<Text>, dot: nat)

  /** The view that undo brings back, if there is one. */
  datatype Undoable = Nothing | Kept(view: View)

  datatype State = State(now: View, saved: Undoable)

  /** addr_cnt, first_addr and second_addr, as the parsed addresses leave them. */
  datatype Addrs = Addrs(cnt: nat, first: nat, second: nat)

  /** What substitute_matching_text makes of a line: nothing, the lines that take its place, or an
      error. */
  datatype Replacement = Unmatched | By(first: Text, rest: seq<Text>) | Fails

  datatype Command =
    | Append(at: Addrs, input: seq<Text>)
    | Change(at: Addrs, input: seq<Text>)
    | Copy(at: Addrs, dest: Addrs)
    | Delete(at: Addrs)
    | Goto(at: Addrs)                                  // the addr; that may precede a command
    | Insert(at: Addrs, input: seq<Text>)
    | Join(at: Addrs)
    | Mark(at: Addrs, name: char)
    | Move(at: Addrs, dest: Addrs)
    | Print(at: Addrs)
    | Substitute(at: Addrs, subst: Text -> Replacement)
    | Undo(at: Addrs)

  datatype Option<T> = None | Some(value: T)

  // ---- addresses ----

  /** What extract_addr_range lets through. */
  function Legal(at: Addrs, last: nat): bool {
    at.cnt == 0 || at.second <= last
  }

  /** second_addr, which is the current line when no address is given. */
  function Second(at: Addrs, dot: nat): nat {
    if at.cnt == 0 then dot else at.second
  }

  /** check_addr_range: the range of lines, or an error. */
  function CheckRange(at: Addrs, n: nat, m: nat, last: nat): (r: Option<(nat, nat)>)
    ensures r.Some? ==> 1 <= r.value.0 <= r.value.1 <= last
  {
    var (first, second) := if at.cnt == 0 then (n, m) else (at.first, at.second);
    if first > second || 1 > first || second > last then None else Some((first, second))
  }

  // ---- edits of a view ----

  ghost function Inserted(v: View, n: nat, lines: seq<Text>): View
    requires n <= |v.text|
  {
    View(v.text[..n] + lines + v.text[n..], n + |lines|)
  }

  ghost function Removed(v: View, first: nat, second: nat): View
    requires 1 <= first <= second <= |v.text|
  {
    View(v.text[..first - 1] + v.text[second..], first - 1)
  }

  ghost function Relocated(v: View, first: nat, second: nat, addr: nat): View
    requires 1 <= first <= second <= |v.text| && addr <= |v.text| && !(first <= addr < second)
  {
    View(EdEffects.Moved(v.text, first, second, addr), addr + if addr < first then second - first + 1 else 0)
  }

  function Flatten(s: seq<Text>): Text {
    if s == [] then [] else Flatten(s[..|s| - 1]) + s[|s| - 1]
  }

  ghost function Joined(v: View, first: nat, second: nat): View
    requires 1 <= first <= second <= |v.text|
  {
    Inserted(Removed(v, first, second), first - 1, [Flatten(v.text[first - 1..second])])
  }

  /** How many characters come before line i of s, when the lines are written one after another. */
  ghost function Offset(s: seq<Text>, i: nat): nat
    requires i <= |s|
  {
    if i == 0 then 0 else Offset(s, i - 1) + |s[i - 1]|
  }

  lemma {:induction false} FlattenParts(a: seq<Text>, b: seq<Text>, x: Text)
    ensures Flatten([]) == [] && Flatten([x]) == x && Flatten(a + b) == Flatten(a) + Flatten(b)
  {
    assert [x][..0] == [] && [] + x == x;
    if b == [] {
      assert a + b == a && Flatten(a) + [] == Flatten(a);
    } else {
      var n := |b| - 1;
      assert (a + b)[..|a| + n] == a + b[..n];
      FlattenParts(a, b[..n], x);
      Associate(Flatten(a), Flatten(b[..n]), b[n]);
    }
  }

  /** The joined line has all the lines in it, each where the ones before it end, and nothing more. */
  lemma {:induction false} FlattenAt(s: seq<Text>, i: nat)
    requires i < |s|
    ensures |Flatten(s)| == Offset(s, |s|) && Offset(s, i) + |s[i]| <= |Flatten(s)|
    ensures Flatten(s)[Offset(s, i)..Offset(s, i) + |s[i]|] == s[i]
  {
    var n := |s| - 1;
    var t := s[..n];
    FlattenLength(t);
    OffsetPrefix(s, n, n);
    assert Flatten(s) == Flatten(t) + s[n];
    if i < n {
      FlattenAt(t, i);
      OffsetPrefix(s, n, i);
      var k, l := Offset(t, i), Offset(t, i) + |s[i]|;
      assert (Flatten(t) + s[n])[k..l] == Flatten(t)[k..l];
    }
  }

  lemma {:induction false} FlattenLength(s: seq<Text>)
    ensures |Flatten(s)| == Offset(s, |s|)
  {
    if s != [] {
      FlattenLength(s[..|s| - 1]);
      OffsetPrefix(s, |s| - 1, |s| - 1);
    }
  }

  lemma {:induction false} OffsetPrefix(s: seq<Text>, n: nat, i: nat)
    requires i <= n <= |s|
    ensures Offset(s[..n], i) == Offset(s, i)
  {
    if i > 0 {
      OffsetPrefix(s, n, i - 1);
    }
  }

  /** The line has these lines in it, in their order and nothing else. */
  ghost predicate Holds(line: Text, lines: seq<Text>) {
    && |line| == Offset(lines, |lines|)
    && forall i :: 0 <= i < |lines| ==> HoldsAt(line, lines, i)
  }

  ghost predicate HoldsAt(line: Text, lines: seq<Text>, i: nat)
    requires i < |lines|
  {
    var k := Offset(lines, i);
    k + |lines[i]| <= |line| && line[k..k + |lines[i]|] == lines[i]
  }

  lemma {:induction false} JoinedIs(v: View, f: nat, z: nat)
    requires 1 <= f <= z <= |v.text|
    ensures var line := Flatten(v.text[f - 1..z]);
            && Joined(v, f, z) == View(v.text[..f - 1] + [line] + v.text[z..], f) && Holds(line, v.text[f - 1..z])
  {
    hide Flatten;
    var lines, w := v.text[f - 1..z], Removed(v, f, z);
    assert w.text[..f - 1] == v.text[..f - 1] && w.text[f - 1..] == v.text[z..];
    FlattenLength(lines);
    forall i | 0 <= i < |lines| ensures HoldsAt(Flatten(lines), lines, i) {
      FlattenAt(lines, i);
    }
  }

  /** The line after the deleted ones becomes current, or the last one. */
  ghost function Settle(v: View): View {
    if v.dot < |v.text| then v.(dot := v.dot + 1) else v
  }

  // ---- substitution ----

  ghost function ResultOf(f: Text -> Replacement, s: Text): seq<Text> {
    match f(s)
    case By(first, rest) => [first] + rest
    case _ => [s]
  }

  /** Every line replaced or kept. */
  ghost function Replaced(f: Text -> Replacement, s: seq<Text>): seq<Text> {
    if s == [] then [] else Replaced(f, s[..|s| - 1]) + ResultOf(f, s[|s| - 1])
  }

  ghost predicate Changes(f: Text -> Replacement, s: seq<Text>) {
    exists i :: 0 <= i < |s| && f(s[i]).By?
  }

  /** How many lines come before the first one on which f fails. */
  ghost function Before(f: Text -> Replacement, s: seq<Text>): (k: nat)
    ensures k <= |s|
    ensures forall i :: 0 <= i < k ==> !f(s[i]).Fails?
    ensures k < |s| ==> f(s[k]).Fails?
  {
    if s == [] || f(s[0]).Fails? then 0 else 1 + Before(f, s[1..])
  }

  /** The view after the first k lines of the range are done. */
  ghost function PartlyReplaced(v: View, first: nat, k: nat, f: Text -> Replacement): View
    requires 1 <= first && first - 1 + k <= |v.text|
  {
    var out := Replaced(f, v.text[first - 1..first - 1 + k]);
    View(v.text[..first - 1] + out + v.text[first - 1 + k..], first - 1 + |out|)
  }

  ghost function Substituted(v: View, first: nat, second: nat, f: Text -> Replacement, quiet: bool): (View, int)
    requires 1 <= first <= second <= |v.text|
  {
    var s := v.text[first - 1..second];
    var k := Before(f, s);
    var w := PartlyReplaced(v, first, k, f);
    if k < |s| then (w.(dot := w.dot + 1), ERR)
    else (w, if Changes(f, s) || quiet then 0 else ERR)
  }

  // ---- commands ----

  /** Current lines are lines, or 0. */
  ghost predicate Wf(s: State) {
    && s.now.dot <= |s.now.text|
    && (s.saved.Kept? ==> s.saved.view.dot <= |s.saved.view.text|)
  }

  /** The state after an edit: outside a global command the view before it is what undo restores. */
  ghost function Edited(s: State, v: View, inGlobal: bool): State {
    State(v, if inGlobal then s.saved else Kept(s.now))
  }

  /** exec_command, as the user sees it; the second part is the status. */
  ghost function Execute(c: Command, s: State, inGlobal: bool): (r: (State, int))
    requires Wf(s)
    ensures Wf(r.0)
  {
    var v, last, n := s.now, |s.now.text|, Second(c.at, s.now.dot);
    var range := CheckRange(c.at, v.dot, v.dot + if c.Join? then 1 else 0, last);
    if !Legal(c.at, last) then (s, ERR) else
    match c
    case Append(_, input) =>
      (Edited(s, Inserted(v, n, input), inGlobal), 0)
    case Insert(_, input) =>
      if n == 0 then (s, ERR) else (Edited(s, Inserted(v, n - 1, input), inGlobal), 0)
    case Goto(_) =>
      (State(v.(dot := n), s.saved), 0)
    case Mark(_, name) =>
      (s, if n == 0 || !('a' <= name <= 'z') then ERR else 0)
    case Undo(at) =>
      if at.cnt > 0 || s.saved.Nothing? then (s, ERR) else (State(s.saved.view, Kept(v)), 0)
    case _ =>
      if range.None? then (s, ERR) else OnRange(c, s, range.value.0, range.value.1, inGlobal)
  }

  predicate NeedsRange(c: Command) {
    c.Change? || c.Copy? || c.Delete? || c.Join? || c.Move? || c.Print? || c.Substitute?
  }

  /** The commands that work on lines first to second. */
  ghost function OnRange(c: Command, s: State, first: nat, second: nat, inGlobal: bool): (r: (State, int))
    requires Wf(s) && NeedsRange(c) && 1 <= first <= second <= |s.now.text|
    ensures Wf(r.0)
  {
    var v, last := s.now, |s.now.text|;
    match c
    case Change(_, input) =>
      (Edited(s, Inserted(Removed(v, first, second), first - 1, input), inGlobal), 0)
    case Copy(_, dest) =>
      if !Legal(dest, last) then (s, ERR)
      else (Edited(s, Inserted(v, Second(dest, v.dot), v.text[first - 1..second]), inGlobal), 0)
    case Delete(_) =>
      (Edited(s, Settle(Removed(v, first, second)), inGlobal), 0)
    case Join(_) =>
      (Edited(s, if first < second then Joined(v, first, second) else v, inGlobal), 0)
    case Move(_, dest) =>
      if !Legal(dest, last) || first <= Second(dest, v.dot) < second then (s, ERR)
      else (Edited(s, Relocated(v, first, second, Second(dest, v.dot)), inGlobal), 0)
    case Print(_) =>
      (State(v.(dot := second), s.saved), 0)
    case Substitute(_, f) =>
      var (w, status) := Substituted(v, first, second, f, inGlobal);
      (Edited(s, w, inGlobal), status)
  }

  /** What a command prints: p, the lines of its range. */
  function Output(c: Command, v: View): seq<Text> {
    var range := CheckRange(c.at, v.dot, v.dot, |v.text|);
    if c.Print? && Legal(c.at, |v.text|) && range.Some? then v.text[range.value.0 - 1..range.value.1] else []
  }

  /** For the commands that need one, everything depends on the range. */
  lemma {:induction false} ExecuteOnRange(c: Command, s: State, inGlobal: bool)
    requires Wf(s) && NeedsRange(c) && Legal(c.at, |s.now.text|)
    ensures var range := CheckRange(c.at, s.now.dot, s.now.dot + if c.Join? then 1 else 0, |s.now.text|);
            Execute(c, s, inGlobal) == if range.None? then (s, ERR)
                                       else OnRange(c, s, range.value.0, range.value.1, inGlobal)
  {
    hide OnRange, Inserted, Edited;
  }

  // ---- runs ----

  /** A command list, which ends at the first error. */
  ghost function ExecList(cs: seq<Command>, s: State, inGlobal: bool): (r: (State, int))
    requires Wf(s)
    ensures Wf(r.0)
  {
    if cs == [] then (s, 0)
    else
      var r := ExecList(cs[..|cs| - 1], s, inGlobal);
      if r.1 < 0 then r else Execute(cs[|cs| - 1], r.0, inGlobal)
  }

  /** The command list of the i-th line visited. */
  function ListFor(script: seq<seq<Command>>, i: nat): seq<Command> {
    if i < |script| then script[i] else []
  }

  /** A global command: each visit makes its line current and runs its command list. */
  ghost function RunVisits(addrs: seq<nat>, script: seq<seq<Command>>, s: State): (r: (State, int))
    requires Wf(s)
    ensures Wf(r.0)
  {
    if addrs == [] then (s, 0)
    else
      var n := |addrs| - 1;
      var r := RunVisits(addrs[..n], script, s);
      if r.1 < 0 then r
      else if addrs[n] > |r.0.now.text| then (r.0, ERR)
      else ExecList(ListFor(script, n), State(r.0.now.(dot := addrs[n]), r.0.saved), true)
  }

  /** A command that was executed, the view it found, and its status. */
  datatype Done = Done(c: Command, v: View, status: int)

  /** The commands of a list that are executed: those up to the first error. */
  ghost function ListDone(cs: seq<Command>, s: State, inGlobal: bool): seq<Done>
    requires Wf(s)
  {
    if cs == [] then []
    else
      var n := |cs| - 1;
      var r := ExecList(cs[..n], s, inGlobal);
      ListDone(cs[..n], s, inGlobal)
        + if r.1 < 0 then [] else [Done(cs[n], r.0.now, Execute(cs[n], r.0, inGlobal).1)]
  }

  /** The commands that a global command executes. */
  ghost function VisitsDone(addrs: seq<nat>, script: seq<seq<Command>>, s: State): seq<Done>
    requires Wf(s)
  {
    if addrs == [] then []
    else
      var n := |addrs| - 1;
      var r := RunVisits(addrs[..n], script, s);
      VisitsDone(addrs[..n], script, s)
        + if r.1 < 0 || addrs[n] > |r.0.now.text| then []
          else ListDone(ListFor(script, n), State(r.0.now.(dot := addrs[n]), r.0.saved), true)
  }

  // ---- where lines go ----

  /** Line p, when lines first to second have given way to m others; none may have, first being second + 1. */
  function Past(p: nat, first: nat, second: nat, m: nat): Option<nat>
    requires first <= second + 1
  {
    if p < first then Some(p) else if p <= second then None else Some(p - (second + 1 - first) + m)
  }

  /** Where line p of a view stands after a command other than u, unless that has deleted or moved it. */
  ghost function Stays(c: Command, v: View, p: nat): Option<nat> {
    var last, n := |v.text|, Second(c.at, v.dot);
    var range := CheckRange(c.at, v.dot, v.dot + if c.Join? then 1 else 0, last);
    if !(1 <= p <= last) then None
    else if !Legal(c.at, last) then Some(p)
    else if NeedsRange(c) then
      if range.None? then Some(p) else StaysInRange(c, v, range.value.0, range.value.1, p)
    else if c.Append? then Past(p, n + 1, n, |c.input|)
    else if c.Insert? && n > 0 then Past(p, n, n - 1, |c.input|)
    else Some(p)
  }

  ghost function StaysInRange(c: Command, v: View, first: nat, second: nat, p: nat): Option<nat>
    requires NeedsRange(c) && 1 <= first <= second <= |v.text| && 1 <= p <= |v.text|
  {
    var last, m := |v.text|, second + 1 - first;
    match c
    case Change(_, input) => Past(p, first, second, |input|)
    case Copy(_, dest) =>
      var addr := Second(dest, v.dot);
      if Legal(dest, last) then Past(p, addr + 1, addr, m) else Some(p)
    case Delete(_) => Past(p, first, second, 0)
    case Join(_) => if first == second then Some(p) else Past(p, first, second, 1)
    case Move(_, dest) =>
      var addr := Second(dest, v.dot);
      if !Legal(dest, last) || first <= addr < second then Some(p)
      else if first <= p <= second then None
      else if addr < p < first then Some(p + m)
      else if second < p <= addr then Some(p - m)
      else Some(p)
    case Print(_) => Some(p)
    case Substitute(_, f) => StaysUnchanged(f, v, first, second, p)
  }

  /** Substitution by f takes away the lines that it changes, up to where it fails. */
  ghost function StaysUnchanged(f: Text -> Replacement, v: View, first: nat, second: nat, p: nat): Option<nat>
    requires 1 <= first <= second <= |v.text| && 1 <= p <= |v.text|
  {
    var k := Before(f, v.text[first - 1..second]);
    if p < first then Some(p)
    else if p >= first + k then Some(p - k + |Replaced(f, v.text[first - 1..first - 1 + k])|)
    else if f(v.text[p - 1]).By? then None
    else Some(first + |Replaced(f, v.text[first - 1..p - 1])|)
  }

  predicate Undoes(d: Done) {
    d.c.Undo? && d.status == 0
  }

  /** Where a line stands after these commands, unless one has deleted or moved it or undone what was done. */
  ghost function Follow(dones: seq<Done>, p: nat): Option<nat> {
    if dones == [] then Some(p)
    else
      var n := |dones| - 1;
      var q := Follow(dones[..n], p);
      if q.None? || Undoes(dones[n]) then None else Stays(dones[n].c, dones[n].v, q.value)
  }

  // ---- global commands ----

  /** The addresses from first to second of the lines that match, for g, or do not, for v. */
  ghost function Chosen(text: seq<Text>, first: nat, second: nat, pat: Text -> bool, sense: bool): seq<nat>
    requires 1 <= first && second <= |text|
  {
    if second < first then []
    else Chosen(text, first, second - 1, pat, sense) + if pat(text[second - 1]) == sense then [second] else []
  }

  /** The first of the lines at these addresses, from the k-th on, that can still be followed. */
  ghost function NextUp(at: seq<nat>, dones: seq<Done>, k: nat): (m: nat)
    requires k <= |at|
    ensures k <= m <= |at| && forall j :: k <= j < m ==> Follow(dones, at[j]).None?
    ensures m < |at| ==> Follow(dones, at[m]).Some?
    decreases |at| - k
  {
    if k == |at| || Follow(dones, at[k]).Some? then k else NextUp(at, dones, k + 1)
  }

  /** The addresses visited after those in addrs: of each line in turn that can be followed so far, until a
      command list fails. */
  ghost function Tour(at: seq<nat>, k: nat, addrs: seq<nat>, script: seq<seq<Command>>, s: State): seq<nat>
    requires Wf(s) && k <= |at|
    decreases |at| - k
  {
    var dones := VisitsDone(addrs, script, s);
    var m := NextUp(at, dones, k);
    if RunVisits(addrs, script, s).1 < 0 || m == |at| then addrs
    else Tour(at, m + 1, addrs + [Follow(dones, at[m]).value], script, s)
  }

  /** What these commands have printed. */
  ghost function PrintedBy(dones: seq<Done>): seq<Text> {
    if dones == [] then []
    else
      var n := |dones| - 1;
      PrintedBy(dones[..n]) + Output(dones[n].c, dones[n].v)
  }

  /** What is typed: a command, or g or v with its command lists. */
  datatype Entry =
    | One(c: Command)
    | Global(at: Addrs, pat: Text -> bool, sense: bool, script: seq<seq<Command>>)

  /** The lines a global command looks at: by default all. */
  function GlobalRange(at: Addrs, last: nat): (r: Option<(nat, nat)>)
    ensures r.Some? ==> 1 <= r.value.0 <= r.value.1 <= last
  {
    if Legal(at, last) then CheckRange(at, 1, last, last) else None
  }

  /** The addresses a global command visits. */
  ghost function Visited(g: Entry, v: View): seq<nat>
    requires g.Global? && v.dot <= |v.text|
  {
    var range := GlobalRange(g.at, |v.text|);
    if range.None? then []
    else
      var at := Chosen(v.text, range.value.0, range.value.1, g.pat, g.sense);
      Tour(at, 0, [], g.script, State(v, Kept(v)))
  }

  /** g and v. */
  ghost function ExecuteGlobal(g: Entry, s: State): (r: (State, int))
    requires g.Global? && Wf(s)
    ensures Wf(r.0)
  {
    if GlobalRange(g.at, |s.now.text|).None? then (s, ERR)
    else RunVisits(Visited(g, s.now), g.script, State(s.now, Kept(s.now)))
  }

  // ---- sessions ----

  ghost function Enter(entry: Entry, s: State): (r: State)
    requires Wf(s)
    ensures Wf(r)
  {
    if entry.One? then Execute(entry.c, s, false).0 else ExecuteGlobal(entry, s).0
  }

  /** What it prints. */
  ghost function Prints(entry: Entry, s: State): seq<Text>
    requires Wf(s)
  {
    if entry.One? then Output(entry.c, s.now)
    else PrintedBy(VisitsDone(Visited(entry, s.now), entry.script, State(s.now, Kept(s.now))))
  }

  /** Entries typed one after another: an error does not end the session. */
  ghost function Session(entries: seq<Entry>, s: State): (r: State)
    requires Wf(s)
    ensures Wf(r)
  {
    if entries == [] then s
    else
      var n := |entries| - 1;
      Enter(entries[n], Session(entries[..n], s))
  }

  ghost function SessionPrints(entries: seq<Entry>, s: State): seq<Text>
    requires Wf(s)
  {
    if entries == [] then []
    else
      var n := |entries| - 1;
      SessionPrints(entries[..n], s) + Prints(entries[n], Session(entries[..n], s))
  }

  lemma {:induction false} SessionOneMore(entries: seq<Entry>, entry: Entry, s: State)
    requires Wf(s)
    ensures Session(entries + [entry], s) == Enter(entry, Session(entries, s))
    ensures SessionPrints(entries + [entry], s) == SessionPrints(entries, s) + Prints(entry, Session(entries, s))
  {
    hide Enter, Prints;
    assert (entries + [entry])[..|entries|] == entries;
  }

  // ---- what u brings back ----

  /** The view that the last successful u found, or else the one from before all these commands. */
  ghost function LastFound(dones: seq<Done>, v: View): View {
    if dones == [] then v
    else
      var n := |dones| - 1;
      if Undoes(dones[n]) then dones[n].v else LastFound(dones[..n], v)
  }

  lemma {:induction false} NoneFound(dones: seq<Done>, v: View)
    requires forall i :: 0 <= i < |dones| ==> !Undoes(dones[i])
    ensures LastFound(dones, v) == v
  {
    if dones != [] {
      NoneFound(dones[..|dones| - 1], v);
    }
  }

  lemma {:induction false} FoundConcat(a: seq<Done>, b: seq<Done>, v: View)
    ensures LastFound(a + b, v) == LastFound(b, LastFound(a, v))
  {
    if b == [] {
      assert a + b == a;
    } else {
      assert (a + b)[..|a + b| - 1] == a + b[..|b| - 1];
      FoundConcat(a, b[..|b| - 1], v);
    }
  }

  /** Inside a global command nothing but u touches what u will bring back. */
  lemma {:induction false} ListSaves(cs: seq<Command>, s: State, v: View)
    requires Wf(s) && s.saved == Kept(v)
    ensures ExecList(cs, s, true).0.saved == Kept(LastFound(ListDone(cs, s, true), v))
  {
    hide Execute;
    if cs != [] {
      var n := |cs| - 1;
      var r, d := ExecList(cs[..n], s, true), ListDone(cs[..n], s, true);
      ListSaves(cs[..n], s, v);
      if r.1 < 0 {
        assert d + [] == d;
      } else {
        CommandSaves(cs[n], r.0);
        assert (d + [Done(cs[n], r.0.now, Execute(cs[n], r.0, true).1)])[..|d|] == d;
      }
    }
  }

  lemma {:induction false} CommandSaves(c: Command, s: State)
    requires Wf(s)
    ensures var (t, status) := Execute(c, s, true);
            t.saved == if Undoes(Done(c, s.now, status)) then Kept(s.now) else s.saved
  {
    hide Inserted, Removed, Relocated, Joined, Substituted, Settle;
  }

  /** After a global command, however many lines it has changed and whether or not it ended in an error, u
      brings back the text and the current line from before it; or, when a u has been executed in it,
      those that the last one found. */
  lemma {:induction false} UndoOfGlobal(addrs: seq<nat>, script: seq<seq<Command>>, v: View, u: Command)
    requires Wf(State(v, Kept(v))) && u == Undo(Addrs(0, 0, 0))
    ensures var s, w := RunVisits(addrs, script, State(v, Kept(v))).0,
                        LastFound(VisitsDone(addrs, script, State(v, Kept(v))), v);
            s.saved == Kept(w) && Execute(u, s, false) == (State(w, Kept(s.now)), 0)
  {
    if addrs != [] {
      var n := |addrs| - 1;
      UndoOfGlobal(addrs[..n], script, v, u);
      hide ExecList, ListDone;
      var s := State(v, Kept(v));
      var r, d := RunVisits(addrs[..n], script, s), VisitsDone(addrs[..n], script, s);
      if r.1 >= 0 && addrs[n] <= |r.0.now.text| {
        var t := State(r.0.now.(dot := addrs[n]), r.0.saved);
        ListSaves(ListFor(script, n), t, LastFound(d, v));
        FoundConcat(d, ListDone(ListFor(script, n), t, true), v);
      } else {
        assert d + [] == d;
      }
    }
  }

  /** The command passes its checks and edits, even if it then finds nothing to change. */
  predicate Edits(c: Command, v: View) {
    var last := |v.text|;
    var range := CheckRange(c.at, v.dot, v.dot + if c.Join? then 1 else 0, last);
    && Legal(c.at, last)
    && if NeedsRange(c) then range.Some? && EditsRange(c, v, range.value.0, range.value.1)
       else c.Append? || (c.Insert? && Second(c.at, v.dot) > 0)
  }

  predicate EditsRange(c: Command, v: View, first: nat, second: nat) {
    match c
    case Copy(_, dest) => Legal(dest, |v.text|)
    case Move(_, dest) => Legal(dest, |v.text|) && !(first <= Second(dest, v.dot) < second)
    case _ => !c.Print?
  }

  /** The entry begins a new unit of undo: a command that edits, a u that finds something to undo, or a
      global command that passes its checks. */
  predicate Begins(entry: Entry, s: State) {
    match entry
    case One(c) => Edits(c, s.now) || (c.Undo? && Legal(c.at, |s.now.text|) && c.at.cnt == 0 && s.saved.Kept?)
    case Global(at, _, _, _) => GlobalRange(at, |s.now.text|).Some?
  }

  /** What u brings back after it. */
  ghost function BroughtBack(entry: Entry, s: State): (v: View)
    requires Wf(s)
  {
    if entry.One? then s.now
    else LastFound(VisitsDone(Visited(entry, s.now), entry.script, State(s.now, Kept(s.now))), s.now)
  }

  /** Exactly the entries that begin a unit of undo change what u brings back, and no other changes the
      text. */
  lemma {:induction false} KeptExactly(entry: Entry, s: State, u: Command)
    requires Wf(s) && u == Undo(Addrs(0, 0, 0))
    ensures Enter(entry, s).saved == if Begins(entry, s) then Kept(BroughtBack(entry, s)) else s.saved
    ensures !Begins(entry, s) ==> Enter(entry, s).now.text == s.now.text
  {
    if entry.One? {
      CommandKeeps(entry.c, s);
    } else if Begins(entry, s) {
      UndoOfGlobal(Visited(entry, s.now), entry.script, s.now, u);
    }
  }

  lemma {:induction false} CommandKeeps(c: Command, s: State)
    requires Wf(s)
    ensures Execute(c, s, false).0.saved == if Begins(One(c), s) then Kept(s.now) else s.saved
    ensures !Begins(One(c), s) ==> Execute(c, s, false).0.now.text == s.now.text
  {
    hide Inserted, Removed, Relocated, Joined, Substituted, Settle;
  }

  /** Entry n has begun a unit of undo, and none after it has. */
  ghost predicate LastBegan(entries: seq<Entry>, n: nat, s: State)
    requires Wf(s)
  {
    && n < |entries|
    && var k := |entries| - 1;
       if k == n then Begins(entries[k], Session(entries[..k], s))
       else !Begins(entries[k], Session(entries[..k], s)) && LastBegan(entries[..k], n, s)
  }

  /** Whatever was typed before and after it, the last entry that began a unit of undo, be it a single
      command or a global one, is the one that u undoes: it brings back the text and the current line from
      before that entry, and another u those from before the first u. */
  lemma {:induction false} UndoInSession(entries: seq<Entry>, n: nat, s: State, u: Command)
    requires Wf(s) && LastBegan(entries, n, s) && u == Undo(Addrs(0, 0, 0))
    ensures var before, last := Session(entries[..n], s), Session(entries, s);
            var w := BroughtBack(entries[n], before);
            && last.now.text == Session(entries[..n + 1], s).now.text
            && Session(entries + [One(u)], s) == State(w, Kept(last.now))
            && Session(entries + [One(u), One(u)], s) == last
  {
    hide Begins, BroughtBack, SessionPrints, Prints;
    EntryKept(entries, n, s, u);
    SessionOneMore(entries, One(u), s);
    SessionOneMore(entries + [One(u)], One(u), s);
    assert entries + [One(u)] + [One(u)] == entries + [One(u), One(u)];
  }

  /** What u brings back stays until the next unit of undo begins. */
  lemma {:induction false} EntryKept(entries: seq<Entry>, n: nat, s: State, u: Command)
    requires Wf(s) && LastBegan(entries, n, s) && u == Undo(Addrs(0, 0, 0))
    ensures Session(entries, s).saved == Kept(BroughtBack(entries[n], Session(entries[..n], s)))
    ensures Session(entries, s).now.text == Session(entries[..n + 1], s).now.text
  {
    hide Enter, Begins, BroughtBack;
    var k := |entries| - 1;
    KeptExactly(entries[k], Session(entries[..k], s), u);
    if k == n {
      assert entries[..n + 1] == entries;
    } else {
      assert entries[..k][..n] == entries[..n] && entries[..k][..n + 1] == entries[..n + 1];
      EntryKept(entries[..k], n, s, u);
    }
  }
}
