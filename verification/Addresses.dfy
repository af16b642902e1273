/** Where nodes lie in memory. */
module Addresses {
  datatype Address = Address(addr: nat)

  const NULL := Address(0)

  /** Some address is always free. */
  lemma FreshAddress(nodes: set<Address>)
    ensures exists x :: x !in nodes && x != NULL
  {
    var bound := Bound(nodes);
    assert Address(bound + 1) !in nodes;
  }

  lemma Bound(nodes: set<Address>) returns (b: nat)
    ensures forall x :: x in nodes ==> x.addr <= b
    decreases |nodes|
  {
    if nodes == {} {
      b := 0;
    } else {
      var x :| x in nodes;
      b := Bound(nodes - {x});
      b := if x.addr > b then x.addr else b;
    }
  }
}
