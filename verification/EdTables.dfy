/** The two tables of ed that point into the buffer: the marks, and the lines still active in a
    global command. */
module EdTables {
  import opened EdLinks

  const ERR := -2
  const MAXMARK: nat := 26

  ghost function CountMarks(m: seq<Line>): nat {
    if m == [] then 0 else CountMarks(m[..|m| - 1]) + if m[|m| - 1] == NULL then 0 else 1
  }

  lemma {:induction false} CountUpdate(m: seq<Line>, i: nat, x: Line)
    requires i < |m|
    ensures CountMarks(m[i := x]) == CountMarks(m) - (if m[i] == NULL then 0 else 1) + (if x == NULL then 0 else 1)
  {
    var n := |m| - 1;
    if i == n {
      assert m[i := x][..n] == m[..n];
    } else {
      assert m[i := x][..n] == m[..n][i := x];
      CountUpdate(m[..n], i, x);
    }
  }

  lemma {:induction false} CountZero(m: seq<Line>)
    ensures CountMarks(m) == 0 <==> forall i :: 0 <= i < |m| ==> m[i] == NULL
  {
    if m != [] {
      CountZero(m[..|m| - 1]);
      assert forall i :: 0 <= i < |m| - 1 ==> m[..|m| - 1][i] == m[i];
    }
  }

  /** A mark table with every mark on x cleared. */
  ghost function Cleared(m: seq<Line>, x: Line): seq<Line> {
    seq(|m|, i requires 0 <= i < |m| => if m[i] == x then NULL else m[i])
  }

  /** A mark table in which only the marks on these lines are left. */
  ghost function Within(m: seq<Line>, lines: set<Line>): seq<Line> {
    seq(|m|, i requires 0 <= i < |m| => if m[i] in lines then m[i] else NULL)
  }

  lemma WithinTwice(m: seq<Line>, a: set<Line>, b: set<Line>)
    requires b <= a
    ensures Within(Within(m, a), b) == Within(m, b)
  {
  }

  /** mark[] and markno. */
  class MarkTable {
    const mark: array<Line>
    var markno: nat

    ghost predicate Valid()
      reads this, mark
    {
      mark.Length == MAXMARK && markno == CountMarks(mark[..])
    }

    constructor ()
      ensures Valid() && fresh(mark)
      ensures forall i :: 0 <= i < MAXMARK ==> mark[i] == NULL
    {
      mark := new Line[MAXMARK](_ => NULL);
      markno := 0;
      new;
      CountZero(mark[..]);
    }

    /** mark_line_node */
    method MarkLineNode(lp: Line, n: char) returns (status: int)
      requires Valid() && lp != NULL
      modifies this, mark
      ensures Valid()
      ensures status == if 'a' <= n <= 'z' then 0 else ERR
      ensures mark[..] == if status == 0 then old(mark[..])[(n as int - 'a' as int) := lp] else old(mark[..])
    {
      if !('a' <= n <= 'z') {
        return ERR;
      }
      var i := n as int - 'a' as int;
      if mark[i] == NULL {
        markno := markno + 1;
      }
      ghost var before := mark[..];
      mark[i] := lp;
      CountUpdate(before, i, lp);
      assert mark[..] == before[i := lp];
      return 0;
    }

    /** unmark_line_node: the loop may stop as soon as no mark is left. */
    method UnmarkLineNode(lp: Line)
      requires Valid() && lp != NULL
      modifies this, mark
      ensures Valid() && mark[..] == Cleared(old(mark[..]), lp)
    {
      var i := 0;
      while markno != 0 && i < MAXMARK
        invariant 0 <= i <= MAXMARK && Valid()
        invariant forall j :: 0 <= j < i ==> mark[j] == Cleared(old(mark[..]), lp)[j]
        invariant forall j :: i <= j < MAXMARK ==> mark[j] == old(mark[j])
      {
        if mark[i] == lp {
          ghost var before := mark[..];
          mark[i] := NULL;
          CountUpdate(before, i, NULL);
          assert mark[..] == before[i := NULL];
          markno := markno - 1;
        }
        i := i + 1;
      }
      CountZero(mark[..]);
      assert mark[..] == Cleared(old(mark[..]), lp) by {
        forall j | 0 <= j < MAXMARK ensures mark[j] == Cleared(old(mark[..]), lp)[j] {
          assert markno == 0 ==> mark[..][j] == NULL;
        }
      }
    }
  }

  // ---- lines active in a global command ----

  ghost predicate DistinctEntries(a: seq<Line>) {
    forall i, j :: 0 <= i < j < |a| && a[i] != NULL ==> a[i] != a[j]
  }

  /** An active list with the lines of seg struck off. */
  ghost function Struck(a: seq<Line>, seg: seq<Line>): seq<Line> {
    seq(|a|, i requires 0 <= i < |a| => if a[i] in seg then NULL else a[i])
  }

  ghost function Next(seg: seq<Line>, i: nat, mp: Line): Line {
    if i + 1 < |seg| then seg[i + 1] else mp
  }

  /** The lines of seg follow one another and lead to mp. */
  ghost predicate LeadsTo(l: Links, seg: seq<Line>, mp: Line) {
    && mp !in seg && NULL !in seg
    && (forall i :: 0 <= i < |seg| ==> seg[i] in l.forw && l.forw[seg[i]] == Next(seg, i, mp))
  }

  /** active_list, active_ptr and active_ndx; active_last is the length of the list. */
  class ActiveList {
    var list: seq<Line>
    var ptr: nat
    var ndx: nat

    ghost predicate Valid()
      reads this
    {
      && ptr <= |list| && DistinctEntries(list)
      && if list == [] then ndx == 0 else ndx < |list|
    }

    constructor ()
      ensures Valid() && list == [] && ptr == 0
    {
      list, ptr, ndx := [], 0, 0;
    }

    /** clear_active_list */
    method Clear()
      modifies this
      ensures Valid() && list == [] && ptr == 0
    {
      list, ptr, ndx := [], 0, 0;
    }

    /** set_active_node */
    method SetActiveNode(lp: Line)
      requires Valid() && lp != NULL && lp !in list
      modifies this`list
      ensures Valid() && list == old(list) + [lp]
    {
      list := list + [lp];
    }

    /** unset_active_nodes: strike off the lines from np up to, but not including, mp.  Each search
        resumes where the last one ended and goes at most once round the list. */
    method UnsetActiveNodes(np: Line, mp: Line, l: Links, ghost seg: seq<Line>)
      requires Valid() && LeadsTo(l, seg, mp)
      requires np == if seg == [] then mp else seg[0]
      modifies this`list, this`ndx
      ensures Valid() && list == Struck(old(list), seg)
    {
      var lp := np;
      ghost var k := 0;
      assert list == Struck(list, []);
      while lp != mp
        invariant 0 <= k <= |seg| && lp == (if k == |seg| then mp else seg[k])
        invariant Valid() && list == Struck(old(list), seg[..k])
        decreases |seg| - k
      {
        UnsetOne(lp);
        assert seg[k] in l.forw && l.forw[seg[k]] == Next(seg, k, mp);
        assert seg[..k + 1] == seg[..k] + [lp];
        lp, k := l.forw[lp], k + 1;
      }
      assert k == |seg|;
      assert seg[..k] == seg;
    }

    /** The inner loop of unset_active_nodes. */
    method UnsetOne(lp: Line)
      requires Valid() && lp != NULL
      modifies this`list, this`ndx
      ensures Valid() && list == Struck(old(list), [lp])
    {
      var n := |list|;
      ghost var start := ndx;
      var i := 0;
      while i < n
        invariant 0 <= i <= n == |list| && list == old(list) && Valid()
        invariant n > 0 ==> ndx == if start + i < n then start + i else start + i - n
        invariant forall j :: start <= j < n && j < start + i ==> list[j] != lp
        invariant forall j :: 0 <= j < start + i - n ==> list[j] != lp
      {
        if list[ndx] == lp {
          list := list[ndx := NULL];
          ndx := IncMod(ndx, n - 1);
          break;
        }
        ndx := IncMod(ndx, n - 1);
        i := i + 1;
      }
    }

    /** next_active_node */
    method NextActiveNode() returns (r: Line)
      requires Valid()
      modifies this`ptr
      ensures Valid() && old(ptr) <= ptr
      ensures r == NULL ==> ptr == |list| && forall i :: old(ptr) <= i < |list| ==> list[i] == NULL
      ensures r != NULL ==> old(ptr) < ptr && list[ptr - 1] == r
      ensures r != NULL ==> forall i :: old(ptr) <= i < ptr - 1 ==> list[i] == NULL
    {
      while ptr < |list| && list[ptr] == NULL
        invariant old(ptr) <= ptr <= |list|
        invariant forall i :: old(ptr) <= i < ptr ==> list[i] == NULL
      {
        ptr := ptr + 1;
      }
      if ptr < |list| {
        r := list[ptr];
        ptr := ptr + 1;
      } else {
        r := NULL;
      }
    }
  }

  /** INC_MOD(l, k) */
  function IncMod(l: nat, k: nat): nat {
    if l + 1 > k then 0 else l + 1
  }
}
