/** The entries of a search tree as a finite map, and the way down to a name. */
module CshOrder {
  import opened CshNames
  import opened CshTree
  import opened CshMemory
  import opened Sequences

  ghost predicate Before(a: Name, b: Name) {
    Cmp(a, b) < 0
  }

  /** Names in strictly ascending order. */
  ghost predicate Sorted(s: seq<Entry>) {
    forall i, j :: 0 <= i < j < |s| ==> Before(s[i].name, s[j].name)
  }

  ghost predicate AllBefore(s: seq<Entry>, name: Name) {
    forall i :: 0 <= i < |s| ==> Before(s[i].name, name)
  }

  ghost predicate AllAfter(s: seq<Entry>, name: Name) {
    forall i :: 0 <= i < |s| ==> Before(name, s[i].name)
  }

  ghost predicate Has(s: seq<Entry>, name: Name) {
    exists i :: 0 <= i < |s| && s[i].name == name
  }

  /** The bindings of names to values. */
  ghost function MapOf(s: seq<Entry>): map<Name, Vec> {
    if s == [] then map[] else MapOf(s[..|s| - 1])[s[|s| - 1].name := s[|s| - 1].vec]
  }

  lemma Differ(s: seq<Entry>, i: int, j: int)
    requires Sorted(s) && 0 <= i < |s| && 0 <= j < |s| && i != j
    ensures s[i].name != s[j].name
  {
    TotalOrder(s[i].name, s[j].name);
    TotalOrder(s[j].name, s[i].name);
  }

  lemma {:induction false} MapOfAt(s: seq<Entry>, i: nat)
    requires Sorted(s) && i < |s|
    ensures s[i].name in MapOf(s) && MapOf(s)[s[i].name] == s[i].vec
  {
    var n := |s| - 1;
    if i < n {
      MapOfAt(s[..n], i);
      Differ(s, i, n);
    }
  }

  lemma {:induction false} MapOfHas(s: seq<Entry>, name: Name)
    ensures name in MapOf(s) <==> Has(s, name)
  {
    if s != [] {
      var n := |s| - 1;
      MapOfHas(s[..n], name);
      if Has(s[..n], name) {
        var i :| 0 <= i < n && s[..n][i].name == name;
        assert s[i].name == name;
      }
      if Has(s, name) {
        var i :| 0 <= i < |s| && s[i].name == name;
        assert i < n ==> s[..n][i].name == name;
      }
    }
  }

  /** m is the map of s, said without recursion. */
  lemma {:induction false} IsMapOf(s: seq<Entry>, m: map<Name, Vec>)
    requires Sorted(s)
    requires forall name :: name in m <==> Has(s, name)
    requires forall i :: 0 <= i < |s| ==> s[i].name in m && m[s[i].name] == s[i].vec
    ensures MapOf(s) == m
  {
    hide MapOf, Sorted, Before;
    forall name ensures name in MapOf(s) <==> name in m {
      MapOfHas(s, name);
    }
    forall name | name in m ensures MapOf(s)[name] == m[name] {
      var i :| 0 <= i < |s| && s[i].name == name;
      MapOfAt(s, i);
    }
  }

  // ---- insertion, replacement, removal ----

  lemma SortedInsert(a: seq<Entry>, e: Entry, b: seq<Entry>)
    requires Sorted(a + b) && AllBefore(a, e.name) && AllAfter(b, e.name)
    ensures Sorted(a + [e] + b)
  {
    var s, t := a + [e] + b, a + b;
    forall i, j | 0 <= i < j < |s| ensures Before(s[i].name, s[j].name) {
      var i', j' := if i < |a| then i else i - 1, if j < |a| then j else j - 1;
      if i != |a| && j != |a| {
        assert t[i'] == s[i] && t[j'] == s[j];
      }
    }
  }

  lemma SortedRemove(a: seq<Entry>, e: Entry, b: seq<Entry>)
    requires Sorted(a + [e] + b)
    ensures Sorted(a + b) && AllBefore(a, e.name) && AllAfter(b, e.name)
  {
    var s, t := a + [e] + b, a + b;
    assert s[|a|] == e;
    forall i, j | 0 <= i < j < |t| ensures Before(t[i].name, t[j].name) {
      var i', j' := if i < |a| then i else i + 1, if j < |a| then j else j + 1;
      assert t[i] == s[i'] && t[j] == s[j'];
    }
    forall i | 0 <= i < |a| ensures Before(a[i].name, e.name) {
      assert s[i] == a[i];
    }
    forall i | 0 <= i < |b| ensures Before(e.name, b[i].name) {
      assert s[|a| + 1 + i] == b[i];
    }
  }

  /** With an entry more, or with another value, the map is updated; without it, the name is gone. */
  lemma MapInsert(a: seq<Entry>, e: Entry, b: seq<Entry>)
    requires Sorted(a + [e] + b)
    ensures MapOf(a + [e] + b) == MapOf(a + b)[e.name := e.vec]
    ensures MapOf(a + b) == MapOf(a + [e] + b) - {e.name}
  {
    var s, t := a + [e] + b, a + b;
    SortedRemove(a, e, b);
    assert s[|a|] == e;
    forall i | 0 <= i < |s|
      ensures s[i].name in MapOf(t)[e.name := e.vec] && MapOf(t)[e.name := e.vec][s[i].name] == s[i].vec
    {
      if i != |a| {
        var j := if i < |a| then i else i - 1;
        assert t[j] == s[i];
        MapOfAt(t, j);
        Differ(s, i, |a|);
      }
    }
    forall name ensures name in MapOf(t)[e.name := e.vec] <==> Has(s, name) {
      HasOneMore(a, e, b, name);
      MapOfHas(t, name);
    }
    IsMapOf(s, MapOf(t)[e.name := e.vec]);
    NotThere(a, e, b);
    MapOfHas(t, e.name);
  }

  lemma HasOneMore(a: seq<Entry>, e: Entry, b: seq<Entry>, name: Name)
    ensures Has(a + [e] + b, name) <==> Has(a + b, name) || name == e.name
  {
    var s, t := a + [e] + b, a + b;
    assert s[|a|] == e;
    if Has(s, name) && name != e.name {
      var i :| 0 <= i < |s| && s[i].name == name;
      var j := if i < |a| then i else i - 1;
      assert t[j] == s[i];
    }
    if Has(t, name) {
      var i :| 0 <= i < |t| && t[i].name == name;
      var j := if i < |a| then i else i + 1;
      assert s[j] == t[i];
    }
  }

  /** A name between the entries is not among them. */
  lemma NotThere(a: seq<Entry>, e: Entry, b: seq<Entry>)
    requires AllBefore(a, e.name) && AllAfter(b, e.name)
    ensures !Has(a + b, e.name)
  {
    forall i | 0 <= i < |a + b| ensures (a + b)[i].name != e.name {
      TotalOrder((a + b)[i].name, e.name);
      TotalOrder(e.name, (a + b)[i].name);
      assert if i < |a| then Before(a[i].name, e.name) else Before(e.name, b[i - |a|].name);
    }
  }

  // ---- the way down ----

  /** What lies to the left of the hole comes before name, and what lies to the right after it. */
  ghost predicate Around(c: Ctx, name: Name) {
    AllBefore(LeftOf(c), name) && AllAfter(RightOf(c), name)
  }

  lemma SortedParts(a: seq<Entry>, b: seq<Entry>)
    requires Sorted(a + b)
    ensures Sorted(a) && Sorted(b)
    ensures a != [] ==> AllAfter(b, a[|a| - 1].name)
    ensures b != [] ==> AllBefore(a, b[0].name)
  {
    var s := a + b;
    assert forall i :: 0 <= i < |a| ==> s[i] == a[i];
    assert forall i :: 0 <= i < |b| ==> s[|a| + i] == b[i];
    forall i, j | 0 <= i < j < |b| ensures Before(b[i].name, b[j].name) {
      assert Before(s[|a| + i].name, s[|a| + j].name);
    }
    forall i | 0 <= i < |b| && a != [] ensures Before(a[|a| - 1].name, b[i].name) {
      assert Before(s[|a| - 1].name, s[|a| + i].name);
    }
    forall i | 0 <= i < |a| && b != [] ensures Before(a[i].name, b[0].name) {
      assert Before(s[i].name, s[|a|].name);
    }
  }

  lemma AllAfterTrans(s: seq<Entry>, name: Name, mid: Name)
    requires Before(name, mid) && AllAfter(s, mid)
    ensures AllAfter(s, name)
  {
    forall i | 0 <= i < |s| ensures Before(name, s[i].name) {
      Transitive(name, mid, s[i].name);
    }
  }

  lemma AllBeforeTrans(s: seq<Entry>, mid: Name, name: Name)
    requires AllBefore(s, mid) && Before(mid, name)
    ensures AllBefore(s, name)
  {
    forall i | 0 <= i < |s| ensures Before(s[i].name, name) {
      Transitive(s[i].name, mid, name);
    }
  }

  lemma SearchLeft(c: Ctx, t: Tree, name: Name)
    requires t.Node? && Sorted(Entries(t)) && Around(c, name) && Before(name, t.entry.name)
    ensures Around(InLeft(t.ref, t.entry, t.bal, t.r, c), name) && Sorted(Entries(t.l))
  {
    SortedParts(Entries(t.l) + [t.entry], Entries(t.r));
    SortedParts(Entries(t.l), [t.entry]);
    AllAfterTrans(Entries(t.r), name, t.entry.name);
  }

  lemma SearchRight(c: Ctx, t: Tree, name: Name)
    requires t.Node? && Sorted(Entries(t)) && Around(c, name) && Before(t.entry.name, name)
    ensures Around(InRight(t.ref, t.l, t.entry, t.bal, c), name) && Sorted(Entries(t.r))
  {
    SortedParts(Entries(t.l) + [t.entry], Entries(t.r));
    SortedParts(Entries(t.l), [t.entry]);
    AllBeforeTrans(Entries(t.l), t.entry.name, name);
  }

  lemma MapReplace(a: seq<Entry>, e: Entry, b: seq<Entry>, vec: Vec)
    requires Sorted(a + [e] + b)
    ensures var e' := Entry(e.name, vec);
            Sorted(a + [e'] + b) && MapOf(a + [e'] + b) == MapOf(a + [e] + b)[e.name := vec]
  {
    SortedRemove(a, e, b);
    SortedInsert(a, Entry(e.name, vec), b);
    MapInsert(a, e, b);
    MapInsert(a, Entry(e.name, vec), b);
    hide MapOf, Sorted;
    assert MapOf(a + b)[e.name := vec] == MapOf(a + b)[e.name := e.vec][e.name := vec];
  }

  /** Another value for the entry in the hole. */
  lemma {:induction false} Revalued(c: Ctx, t: Tree, vec: Vec)
    requires t.Node? && Sorted(Entries(Plug(c, t))) && Balanced(Plug(c, t))
    ensures var u := t.(entry := Entry(t.entry.name, vec));
            && Sorted(Entries(Plug(c, u))) && Balanced(Plug(c, u))
            && MapOf(Entries(Plug(c, u))) == MapOf(Entries(Plug(c, t)))[t.entry.name := vec]
  {
    hide Plug, LeftOf, RightOf, Entries, Sorted, MapOf, BalancedCtx;
    var u := t.(entry := Entry(t.entry.name, vec));
    EntriesAround(c, t);
    EntriesAround(c, u);
    BalancedPlug(c, t);
    BalancedPlug(c, u);
    MapReplace(LeftOf(c) + Entries(t.l), t.entry, Entries(t.r) + RightOf(c), vec);
  }

  lemma {:induction false} EntriesAround(c: Ctx, t: Tree)
    requires t.Node?
    ensures Entries(Plug(c, t)) == (LeftOf(c) + Entries(t.l)) + [t.entry] + (Entries(t.r) + RightOf(c))
  {
    EntriesPlug(c, t);
    Regrouped(LeftOf(c), Entries(t.l), [t.entry], Entries(t.r));
    Associate(LeftOf(c) + Entries(t.l) + [t.entry], Entries(t.r), RightOf(c));
  }

  /** An entry more, in an empty hole at the place of its name. */
  lemma {:induction false} Inserted(c: Ctx, e: Entry, x: Ref)
    requires Sorted(Entries(Plug(c, Leaf))) && Balanced(Plug(c, Leaf)) && Around(c, e.name)
    ensures var es := Entries(Plug(c, Node(x, Leaf, e, 0, Leaf)));
            && Sorted(es) && MapOf(es) == MapOf(Entries(Plug(c, Leaf)))[e.name := e.vec]
    ensures BalancedCtx(c, 0)
  {
    EntriesPlug(c, Leaf);
    EntriesPlug(c, Node(x, Leaf, e, 0, Leaf));
    BalancedPlug(c, Leaf);
    var a, b := LeftOf(c), RightOf(c);
    assert Entries(Leaf) == [] && Entries(Node(x, Leaf, e, 0, Leaf)) == [e];
    assert a + [] + b == a + b;
    hide Plug, LeftOf, RightOf, Balanced;
    SortedInsert(a, e, b);
    MapInsert(a, e, b);
  }

  /** The entry of a node without two children is gone when its child takes its place. */
  lemma {:induction false} EntryGone(c: Ctx, t: Tree)
    requires t.Node? && (t.l.Leaf? || t.r.Leaf?) && Sorted(Entries(Plug(c, t)))
    ensures var es := LeftOf(c) + Entries(OnlyChild(t)) + RightOf(c);
            Sorted(es) && MapOf(es) == MapOf(Entries(Plug(c, t))) - {t.entry.name}
  {
    var a, b := LeftOf(c) + Entries(t.l), Entries(t.r) + RightOf(c);
    EntriesAround(c, t);
    assert LeftOf(c) + Entries(OnlyChild(t)) + RightOf(c) == a + b;
    hide Plug, LeftOf, RightOf, Entries;
    SortedRemove(a, t.entry, b);
    MapInsert(a, t.entry, b);
  }

  /** Of a node with two children the entry is gone when its predecessor's has taken its place, and the
      predecessor itself is gone. */
  lemma {:induction false} EntryReplaced(c: Ctx, t: Tree)
    requires t.Node? && t.r.Leaf? && Spine(c) && Sorted(Entries(Plug(c, t)))
    ensures var d := WithEntry(c, t.entry);
            var es := LeftOf(d) + Entries(OnlyChild(t)) + RightOf(d);
            Sorted(es) && MapOf(es) == MapOf(Entries(Plug(c, t))) - {SpineTop(c).entry.name}
  {
    var d, p := WithEntry(c, t.entry), SpineTop(c).entry;
    WithEntryKeeps(c, t.entry, NULL, 0);
    EntriesAround(c, t);
    var l, x, r := LeftOf(c) + Entries(t.l), [t.entry], RightOf(c);
    assert Entries(t.r) + r == r == [p] + r[1..];
    assert l + x + r == (l + x) + [p] + r[1..];
    assert LeftOf(d) + Entries(OnlyChild(t)) + RightOf(d) == (l + x) + r[1..];
    hide Plug, LeftOf, RightOf, Entries;
    SortedRemove(l + x, p, r[1..]);
    MapInsert(l + x, p, r[1..]);
  }

  /** Entries listed in the order of the tree are listed in that of their names. */
  lemma {:induction false} SortedMeans(s: seq<Entry>)
    ensures Sorted(s) <==> forall i, j :: 0 <= i < j < |s| ==> ComesBefore(s[i].name, s[j].name)
  {
    forall i, j | 0 <= i < j < |s| ensures Before(s[i].name, s[j].name) <==> ComesBefore(s[i].name, s[j].name) {
      CmpMeans(s[i].name, s[j].name);
    }
  }

  // ---- pattern matching ----

  ghost predicate NoMatch(s: seq<Entry>, pat: Name -> bool) {
    forall i :: 0 <= i < |s| ==> !pat(s[i].name)
  }

  /** e is the first entry of s whose name matches. */
  ghost predicate FirstMatch(s: seq<Entry>, pat: Name -> bool, e: Entry) {
    exists k :: 0 <= k < |s| && s[k] == e && pat(e.name) && NoMatch(s[..k], pat)
  }

  /** The first match of a sorted list is that of the name that comes before all others that match. */
  lemma {:induction false} FirstMatchMeans(s: seq<Entry>, pat: Name -> bool, e: Entry)
    requires Sorted(s) && FirstMatch(s, pat, e)
    ensures e in s && pat(e.name)
    ensures forall e' :: e' in s && pat(e'.name) && e' != e ==> ComesBefore(e.name, e'.name)
  {
    var k :| 0 <= k < |s| && s[k] == e && NoMatch(s[..k], pat);
    SortedMeans(s);
    assert forall i :: 0 <= i < k ==> s[..k][i] == s[i];
  }

  /** The first match of a subtree, and where else it may be. */
  lemma {:induction false} MatchInLeft(pre: seq<Entry>, t: Tree, pat: Name -> bool, e: Entry)
    requires t.Node? && NoMatch(pre, pat) && FirstMatch(Entries(t.l), pat, e)
    ensures FirstMatch(pre + Entries(t), pat, e)
  {
    var l, s := Entries(t.l), pre + Entries(t);
    var k :| 0 <= k < |l| && l[k] == e && NoMatch(l[..k], pat);
    assert Entries(t)[..k] == l[..k];
    assert s[..|pre| + k] == pre + l[..k];
    assert s[|pre| + k] == e;
    hide Entries;
    assert NoMatch(pre + l[..k], pat);
  }

  lemma {:induction false} MatchHere(pre: seq<Entry>, t: Tree, pat: Name -> bool)
    requires t.Node? && NoMatch(pre, pat) && NoMatch(Entries(t.l), pat)
    ensures pat(t.entry.name) ==> FirstMatch(pre + Entries(t), pat, t.entry)
    ensures pre + Entries(t) == (pre + Entries(t.l) + [t.entry]) + Entries(t.r)
    ensures !pat(t.entry.name) ==> NoMatch(pre + Entries(t.l) + [t.entry], pat)
  {
    var l, s := Entries(t.l), pre + Entries(t);
    assert s == (pre + l) + [t.entry] + Entries(t.r);
    hide Entries;
    assert s[..|pre + l|] == pre + l && s[|pre + l|] == t.entry;
    assert NoMatch(pre + l, pat);
  }
}
