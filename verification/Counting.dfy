/** How many of the first `n` numbers have a property. */
module Counting {
  function Marks(n: nat, f: nat -> bool): nat {
    |set i: nat | i < n && f(i)|
  }

  lemma NoMarks(f: nat -> bool)
    ensures Marks(0, f) == 0
  {
  }

  lemma MarksNext(n: nat, f: nat -> bool)
    ensures Marks(n + 1, f) == Marks(n, f) + if f(n) then 1 else 0
  {
    var before, after := (set i: nat | i < n && f(i)), (set i: nat | i < n + 1 && f(i));
    assert after == before + if f(n) then {n} else {};
  }
}
