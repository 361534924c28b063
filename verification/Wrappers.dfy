/** A value or the null pointer, and addresses not yet taken. */
module Wrappers {
  datatype Option<+T> = None | Some(value: T)

  lemma {:induction false} FreshAddress(taken: set<nat>) returns (p: nat)
    ensures p !in taken && forall q :: q in taken ==> q < p
  {
    if q :| q in taken {
      var r := FreshAddress(taken - {q});
      p := if q < r then r else q + 1;
      assert forall x :: x in taken ==> x == q || x in taken - {q};
    } else {
      p := 1;
    }
  }
}
