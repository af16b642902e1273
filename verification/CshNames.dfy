/** How csh orders the names of its variables and aliases. */
module CshNames {

  /** A character other than NUL; a Char is a signed short, so that it may look negative. */
  newtype Char = c: int | -0x8000 <= c < 0x8000 && c != 0 witness 1

  type Name = seq<Char>

  /** The first character of a string: NUL when it is empty. */
  function First(s: Name): int {
    if s == [] then 0 else s[0] as int
  }

  /** s_strcmp: the end of a string collates low against every character. */
  function Strcmp(a: Name, b: Name): int {
    if a == [] && b == [] then 0
    else if a == [] then -1
    else if b == [] then 1
    else if a[0] != b[0] then a[0] as int - b[0] as int
    else Strcmp(a[1..], b[1..])
  }

  /** How the searches compare a name with that of a node: by the first characters as they are, signs and
      all, and by Strcmp only if these agree. */
  function Cmp(name: Name, other: Name): int {
    if First(name) != First(other) then First(name) - First(other) else Strcmp(name, other)
  }

  lemma {:induction false} StrcmpEqual(a: Name, b: Name)
    ensures Strcmp(a, b) == 0 <==> a == b
    ensures Strcmp(a, b) < 0 <==> Strcmp(b, a) > 0
  {
    if a != [] && b != [] && a[0] == b[0] {
      StrcmpEqual(a[1..], b[1..]);
      assert a == [a[0]] + a[1..] && b == [b[0]] + b[1..];
    }
  }

  lemma {:induction false} StrcmpTrans(a: Name, b: Name, c: Name)
    requires Strcmp(a, b) < 0 && Strcmp(b, c) < 0
    ensures Strcmp(a, c) < 0
  {
    if a != [] && b != [] && c != [] && a[0] == b[0] == c[0] {
      StrcmpTrans(a[1..], b[1..], c[1..]);
    }
  }

  /** Where a and b first differ, at k, a has ended or has the smaller character. */
  ghost predicate LessAt(a: Name, b: Name, k: nat) {
    k <= |a| && k < |b| && a[..k] == b[..k] && (k == |a| || a[k] < b[k])
  }

  /** s_strcmp is the lexicographic order of the characters, which compare as numbers. */
  lemma {:induction false} StrcmpMeans(a: Name, b: Name)
    ensures Strcmp(a, b) < 0 <==> exists k: nat :: LessAt(a, b, k)
  {
    if a == [] || b == [] || a[0] != b[0] {
      assert b != [] && (a == [] || a[0] < b[0]) ==> LessAt(a, b, 0);
      forall k: nat {
        SameStart(a, b, k);
      }
    } else {
      StrcmpMeans(a[1..], b[1..]);
      forall k: nat ensures k > 0 ==> (LessAt(a, b, k) <==> LessAt(a[1..], b[1..], k - 1)) {
        if k > 0 {
          LessAtNext(a, b, k);
        }
      }
      if k: nat :| LessAt(a[1..], b[1..], k) {
        assert LessAt(a, b, k + 1);
      }
    }
  }

  lemma SameStart(a: Name, b: Name, k: nat)
    ensures LessAt(a, b, k) && k > 0 ==> a != [] && a[0] == b[0]
  {
    if k > 0 && k <= |a| && k <= |b| {
      assert a[..k][0] == a[0] && b[..k][0] == b[0];
    }
  }

  lemma LessAtNext(a: Name, b: Name, k: nat)
    requires a != [] && b != [] && a[0] == b[0] && k > 0
    ensures LessAt(a, b, k) <==> LessAt(a[1..], b[1..], k - 1)
  {
    if k <= |a| && k <= |b| {
      assert a[..k] == [a[0]] + a[1..][..k - 1] && b[..k] == [b[0]] + b[1..][..k - 1];
    }
  }

  /** The order of the names in the tree: lexicographic too, but the empty name comes before those that begin
      with a positive character and after those that begin with a negative one. */
  ghost predicate ComesBefore(a: Name, b: Name) {
    if a == [] then b != [] && b[0] as int > 0
    else if b == [] then a[0] as int < 0
    else exists k: nat :: LessAt(a, b, k)
  }

  lemma {:induction false} CmpMeans(a: Name, b: Name)
    ensures Cmp(a, b) < 0 <==> ComesBefore(a, b)
  {
    StrcmpMeans(a, b);
    if a != [] && b != [] {
      if a[0] < b[0] {
        assert LessAt(a, b, 0);
      } else if a[0] > b[0] {
        forall k: nat {
          SameStart(a, b, k);
        }
      }
    }
  }

  /** The tree is searched and extended by one strict total order ... */
  lemma TotalOrder(a: Name, b: Name)
    ensures Cmp(a, b) == 0 <==> a == b
    ensures Cmp(a, b) < 0 <==> Cmp(b, a) > 0
  {
    StrcmpEqual(a, b);
  }

  lemma Transitive(a: Name, b: Name, c: Name)
    requires Cmp(a, b) < 0 && Cmp(b, c) < 0
    ensures Cmp(a, c) < 0
  {
    if First(a) == First(b) == First(c) {
      StrcmpTrans(a, b, c);
    }
  }

  /** ... which is the order of s_strcmp, except that the empty name comes after the names that begin
      with a character that looks negative. */
  lemma NotQuiteStrcmp(a: Name, b: Name)
    ensures (Cmp(a, b) < 0 <==> Strcmp(a, b) < 0)
            <==> !(a == [] && b != [] && b[0] as int < 0) && !(b == [] && a != [] && a[0] as int < 0)
  {
  }
}
