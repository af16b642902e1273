/** Line nodes of the ed buffer and the theory of their links.

    The links of all allocated nodes are two maps from addresses to addresses, which the editor
    updates in place.  The lemmas below say what each pattern of REQUE steps does to the circular
    list and to the detached segments that hang beside it. */
module EdLinks {
  import Addresses

  /** The address of a line_t. */
  type Line = Addresses.Address

  const NULL := Addresses.NULL

  /** The q_forw and q_back of all nodes that are allocated: following a pointer to any other address
      is an error that the verifier would report. */
  datatype Links = Links(forw: map<Line, Line>, back: map<Line, Line>)

  /** REQUE: link pred before succ. */
  function Reque(l: Links, pred: Line, succ: Line): Links {
    Links(l.forw[pred := succ], l.back[succ := pred])
  }

  ghost predicate Linked(l: Links, a: Line, b: Line) {
    a in l.forw && l.forw[a] == b && b in l.back && l.back[b] == a
  }

  ghost predicate Distinct(s: seq<Line>) {
    forall i, j :: 0 <= i < j < |s| ==> s[i] != s[j]
  }

  ghost function Elems(s: seq<Line>): set<Line> {
    set x | x in s
  }

  ghost predicate Disjoint(s: seq<Line>, t: seq<Line>) {
    forall x :: x in s ==> x !in t
  }

  ghost function Last(s: seq<Line>): Line
    requires s != []
  {
    s[|s| - 1]
  }

  /** Consecutive elements of c are linked both ways. */
  ghost predicate Path(l: Links, c: seq<Line>) {
    forall i, j {:trigger Linked(l, c[i], c[j])} :: 0 <= i && j == i + 1 && j < |c| ==> Linked(l, c[i], c[j])
  }

  /** The node before a gap: the last of what precedes it, or head when nothing does. */
  ghost function Pred(head: Line, pre: seq<Line>): Line {
    if pre == [] then head else Last(pre)
  }

  /** The node after a gap: the first of what follows it, or head when nothing does. */
  ghost function Succ(head: Line, post: seq<Line>): Line {
    if post == [] then head else post[0]
  }

  /** The nodes of s, in that order, form the circular list that starts and ends at head. */
  ghost predicate Ring(l: Links, head: Line, s: seq<Line>) {
    Distinct([head] + s) && Path(l, [head] + s + [head])
  }

  /** A detached segment: its inner links are whole, and its two ends still point at the
      neighbours it had when it was cut out. */
  ghost predicate Detached(l: Links, p: Line, seg: seq<Line>, n: Line) {
    && seg != []
    && Path(l, seg)
    && seg[0] in l.back && l.back[seg[0]] == p
    && Last(seg) in l.forw && l.forw[Last(seg)] == n
  }

  /** The links of exactly these nodes. */
  ghost predicate Covers(l: Links, nodes: set<Line>) {
    l.forw.Keys == nodes && l.back.Keys == nodes
  }

  // ---- paths ----

  lemma PathGlue(l: Links, a: seq<Line>, b: seq<Line>)
    requires Path(l, a) && Path(l, b)
    requires a != [] && b != [] ==> Linked(l, Last(a), b[0])
    ensures Path(l, a + b)
  {
    var c := a + b;
    forall i, j | 0 <= i && j == i + 1 && j < |c|
      ensures Linked(l, c[i], c[j])
    {
      if j < |a| {
        assert Linked(l, a[i], a[j]);
      } else if j > |a| {
        assert Linked(l, b[i - |a|], b[j - |a|]);
      }
    }
  }

  lemma PathCut(l: Links, a: seq<Line>, b: seq<Line>)
    requires Path(l, a + b)
    ensures Path(l, a) && Path(l, b)
    ensures a != [] && b != [] ==> Linked(l, Last(a), b[0])
  {
    var c := a + b;
    forall i, j | 0 <= i && j == i + 1 && j < |a|
      ensures Linked(l, a[i], a[j])
    {
      assert Linked(l, c[i], c[j]);
    }
    forall i, j | 0 <= i && j == i + 1 && j < |b|
      ensures Linked(l, b[i], b[j])
    {
      assert Linked(l, c[|a| + i], c[|a| + j]);
    }
    if a != [] && b != [] {
      assert Linked(l, c[|a| - 1], c[|a|]);
    }
  }

  /** REQUE(p, s) keeps a path in which p has no successor and s no predecessor. */
  lemma PathFrame(l: Links, p: Line, s: Line, c: seq<Line>)
    requires c != [] && Path(l, c) && Distinct(c)
    requires p in c ==> p == Last(c)
    requires s in c ==> s == c[0]
    ensures Path(Reque(l, p, s), c)
  {
    var l' := Reque(l, p, s);
    forall i, j | 0 <= i && j == i + 1 && j < |c|
      ensures Linked(l', c[i], c[j])
    {
      assert Linked(l, c[i], c[j]);
    }
  }

  /** REQUE on nodes outside a detached segment does not touch it. */
  lemma DetachedFrame(l: Links, p: Line, s: Line, a: Line, seg: seq<Line>, b: Line)
    requires Detached(l, a, seg, b)
    requires Distinct(seg) && p !in seg && s !in seg
    ensures Detached(Reque(l, p, s), a, seg, b)
  {
    PathFrame(l, p, s, seg);
  }

  lemma PathGlue3(l: Links, a: seq<Line>, b: seq<Line>, c: seq<Line>)
    requires a != [] && b != [] && c != []
    requires Path(l, a) && Path(l, b) && Path(l, c)
    requires Linked(l, Last(a), b[0]) && Linked(l, Last(b), c[0])
    ensures Path(l, a + b + c)
  {
    PathGlue(l, a, b);
    PathGlue(l, a + b, c);
  }

  lemma PathCut3(l: Links, a: seq<Line>, b: seq<Line>, c: seq<Line>)
    requires a != [] && b != [] && c != []
    requires Path(l, a + b + c)
    ensures Path(l, a) && Path(l, b) && Path(l, c)
    ensures Linked(l, Last(a), b[0]) && Linked(l, Last(b), c[0])
  {
    PathCut(l, a + b, c);
    PathCut(l, a, b);
  }

  /** The ring through pre + post, seen from the gap between them. */
  lemma RingGap(l: Links, head: Line, pre: seq<Line>, post: seq<Line>)
    requires Path(l, [head] + (pre + post) + [head])
    ensures Path(l, [head] + pre) && Path(l, post + [head])
    ensures Linked(l, Pred(head, pre), Succ(head, post))
  {
    assert [head] + (pre + post) + [head] == ([head] + pre) + (post + [head]);
    PathCut(l, [head] + pre, post + [head]);
  }

  lemma ElemsConcat(a: seq<Line>, b: seq<Line>)
    ensures Elems(a + b) == Elems(a) + Elems(b)
  {
  }

  // ---- distinctness ----

  lemma DistinctCut(a: seq<Line>, b: seq<Line>)
    requires Distinct(a + b)
    ensures Distinct(a) && Distinct(b) && Disjoint(a, b) && Disjoint(b, a)
  {
    var w := a + b;
    assert forall i :: 0 <= i < |a| ==> w[i] == a[i];
    forall i, j | 0 <= i < |a| && 0 <= j < |b| ensures a[i] != b[j] { assert w[i] != w[|a| + j]; }
    forall i, j | 0 <= i < j < |b| ensures b[i] != b[j] { assert w[|a| + i] != w[|a| + j]; }
  }

  lemma DistinctGlue(a: seq<Line>, b: seq<Line>)
    requires Distinct(a) && Distinct(b) && Disjoint(a, b)
    ensures Distinct(a + b)
  {
    forall i, j | 0 <= i < j < |a + b| ensures (a + b)[i] != (a + b)[j] {
      if i < |a| <= j {
        assert a[i] in a && b[j - |a|] in b;
      }
    }
  }

  /** The four pieces of a list: before, two blocks, after. */
  lemma DistinctCut4(head: Line, pre: seq<Line>, a: seq<Line>, b: seq<Line>, post: seq<Line>)
    requires Distinct([head] + (pre + a + b + post))
    ensures Distinct([head] + pre) && Distinct(a) && Distinct(b) && Distinct(post + [head])
    ensures Disjoint([head] + pre, a) && Disjoint([head] + pre, b) && Disjoint(pre, post)
    ensures Disjoint(a, b) && Disjoint(a, post + [head]) && Disjoint(b, post + [head])
    ensures head !in pre && head !in post
    ensures Distinct([head] + (pre + b + a + post)) && Distinct([head] + (pre + post))
  {
    assert [head] + (pre + a + b + post) == ([head] + pre) + (a + (b + post));
    DistinctCut([head] + pre, a + (b + post));
    DistinctCut(a, b + post);
    DistinctCut(b, post);
    DistinctCut([head], pre);
    assert head in [head] + pre;
    DistinctGlue(post, [head]);
    DistinctGlue(a, post);
    DistinctGlue(b, a + post);
    assert [head] + (pre + b + a + post) == ([head] + pre) + (b + (a + post));
    DistinctGlue([head] + pre, b + (a + post));
    assert [head] + (pre + post) == ([head] + pre) + post;
    DistinctGlue([head] + pre, post);
  }

  // ---- what each pattern of REQUE does to the ring ----

  /** delete_lines, and undo of an addition: one REQUE across a segment cuts it out and leaves
      it detached, with its ends pointing at the neighbours it had. */
  lemma CutOut(l: Links, head: Line, pre: seq<Line>, seg: seq<Line>, post: seq<Line>)
    requires seg != []
    requires Ring(l, head, pre + seg + post)
    ensures var p, n := Pred(head, pre), Succ(head, post);
            && Ring(Reque(l, p, n), head, pre + post)
            && Detached(l, p, seg, n)
            && Detached(Reque(l, p, n), p, seg, n)
            && Linked(l, p, seg[0]) && Linked(l, Last(seg), n)
  {
    var p, n := Pred(head, pre), Succ(head, post);
    var a, b := [head] + pre, post + [head];
    assert [head] + (pre + seg + post) + [head] == a + seg + b;
    PathCut3(l, a, seg, b);
    assert pre + seg + [] + post == pre + seg + post;
    DistinctCut4(head, pre, seg, [], post);
    DetachedFrame(l, p, n, p, seg, n);
    PathFrame(l, p, n, a);
    PathFrame(l, p, n, b);
    PathGlue(Reque(l, p, n), a, b);
    assert [head] + (pre + post) + [head] == a + b;
  }

  /** Undo of a deletion: the ends of the detached segment say where it belongs, and two REQUE
      steps put it back. */
  lemma PutBack(l: Links, head: Line, pre: seq<Line>, seg: seq<Line>, post: seq<Line>)
    requires Ring(l, head, pre + post)
    requires Detached(l, Pred(head, pre), seg, Succ(head, post))
    requires Distinct([head] + (pre + seg + post))
    ensures var h, t := seg[0], Last(seg);
            Ring(Reque(Reque(l, Pred(head, pre), h), t, Succ(head, post)), head, pre + seg + post)
  {
    var p, n, h, t := Pred(head, pre), Succ(head, post), seg[0], Last(seg);
    var a, b := [head] + pre, post + [head];
    assert pre + seg + [] + post == pre + seg + post;
    DistinctCut4(head, pre, seg, [], post);
    RingGap(l, head, pre, post);
    var l1 := Reque(l, p, h);
    PathFrame(l, p, h, a); PathFrame(l, p, h, seg); PathFrame(l, p, h, b);
    var l2 := Reque(l1, t, n);
    PathFrame(l1, t, n, a); PathFrame(l1, t, n, seg); PathFrame(l1, t, n, b);
    PathGlue3(l2, a, seg, b);
    assert [head] + (pre + seg + post) + [head] == a + seg + b;
  }

  /** Three REQUE steps across the three gaps exchange two neighbouring blocks a and b; the order
      of the steps does not matter because the gaps share no pointer. */
  lemma Exchange(l: Links, head: Line, pre: seq<Line>, a: seq<Line>, b: seq<Line>, post: seq<Line>)
    requires a != [] && b != []
    requires Ring(l, head, pre + a + b + post)
    ensures Ring(Exchanged(l, Pred(head, pre), a, b, Succ(head, post)), head, pre + b + a + post)
  {
    var p, n := Pred(head, pre), Succ(head, post);
    var x, y := [head] + pre, post + [head];
    DistinctCut4(head, pre, a, b, post);
    assert [head] + (pre + a + b + post) + [head] == x + a + (b + y);
    PathCut3(l, x, a, b + y);
    PathCut(l, b, y);
    var l1 := Reque(l, p, b[0]);
    PathFrame(l, p, b[0], x); PathFrame(l, p, b[0], a); PathFrame(l, p, b[0], b); PathFrame(l, p, b[0], y);
    var l2 := Reque(l1, Last(b), a[0]);
    PathFrame(l1, Last(b), a[0], x); PathFrame(l1, Last(b), a[0], a);
    PathFrame(l1, Last(b), a[0], b); PathFrame(l1, Last(b), a[0], y);
    var l3 := Reque(l2, Last(a), n);
    PathFrame(l2, Last(a), n, x); PathFrame(l2, Last(a), n, a); PathFrame(l2, Last(a), n, b); PathFrame(l2, Last(a),
              n, y);
    PathGlue3(l3, x, b, a);
    PathGlue(l3, x + b + a, y);
    assert [head] + (pre + b + a + post) + [head] == x + b + a + y;
  }

  ghost function Exchanged(l: Links, p: Line, a: seq<Line>, b: seq<Line>, n: Line): Links
    requires a != [] && b != []
  {
    Reque(Reque(Reque(l, p, b[0]), Last(b), a[0]), Last(a), n)
  }
}
