/** Things that arrive, are forgotten and may arrive again: how many lifetimes they have, read off the steps
    at which either happens. */
module Lifetimes {

  /** What a step means to one slot; a step that does both lets it arrive first. */
  datatype Mark = Mark(arrives: bool, forgets: bool)

  predicate Present(ms: seq<Mark>, n: nat)
    requires n <= |ms|
  {
    n > 0 && (ms[n - 1].arrives || Present(ms, n - 1)) && !ms[n - 1].forgets
  }

  /** The arrivals that find the slot absent. */
  function Births(ms: seq<Mark>, n: nat): nat
    requires n <= |ms|
  {
    if n == 0 then 0
    else Births(ms, n - 1) + if ms[n - 1].arrives && !Present(ms, n - 1) then 1 else 0
  }

  ghost predicate ArrivedBefore(ms: seq<Mark>, n: nat)
    requires n <= |ms|
  {
    exists i :: 0 <= i < n && ms[i].arrives
  }

  /** No step from `i` on, before `j`, forgets the slot. */
  ghost predicate KeptSince(ms: seq<Mark>, i: nat, j: nat)
    requires j <= |ms|
  {
    forall m :: i <= m < j ==> !ms[m].forgets
  }

  /** An arrival that follows a step which forgot an earlier one. */
  ghost predicate Restarted(ms: seq<Mark>, n: nat)
    requires n <= |ms|
  {
    exists i, j :: 0 <= i < j < n && ms[i].arrives && ms[j].arrives && !KeptSince(ms, i, j)
  }

  lemma {:induction false} BirthsNeedArrivals(ms: seq<Mark>, n: nat)
    requires n <= |ms|
    ensures Present(ms, n) ==> Births(ms, n) >= 1
    ensures Births(ms, n) >= 1 <==> ArrivedBefore(ms, n)
  {
    if n > 0 {
      BirthsNeedArrivals(ms, n - 1);
      if i :| 0 <= i < n && ms[i].arrives {
        assert i == n - 1 || i < n - 1;
      }
    }
  }

  lemma {:induction false} BirthsGrow(ms: seq<Mark>, m: nat, n: nat)
    requires m <= n <= |ms|
    ensures Births(ms, m) <= Births(ms, n)
    decreases n
  {
    if m < n {
      BirthsGrow(ms, m, n - 1);
    }
  }

  lemma {:induction false} KeptIsPresent(ms: seq<Mark>, i: nat, n: nat)
    requires i < n <= |ms| && ms[i].arrives && KeptSince(ms, i, n)
    ensures Present(ms, n) && Births(ms, n) == Births(ms, i + 1)
    decreases n
  {
    if i < n - 1 {
      KeptIsPresent(ms, i, n - 1);
    }
  }

  /** A forgotten slot is absent until its next arrival, which is a birth. */
  lemma {:induction false} ForgottenIsReborn(ms: seq<Mark>, m: nat, n: nat)
    requires m < n <= |ms| && ms[m].forgets
    ensures (exists j :: m < j < n && ms[j].arrives) ==> Births(ms, n) > Births(ms, m + 1)
    ensures Present(ms, n) ==> exists j :: m < j < n && ms[j].arrives
    decreases n
  {
    if m < n - 1 {
      ForgottenIsReborn(ms, m, n - 1);
      BirthsGrow(ms, m + 1, n - 1);
    }
  }

  /** Two arrivals are of the same lifetime exactly when nothing between them forgot the slot. */
  lemma SameLifetimeExactly(ms: seq<Mark>, i: nat, j: nat)
    requires i < j < |ms| && ms[i].arrives && ms[j].arrives
    ensures Births(ms, i + 1) == Births(ms, j + 1) <==> KeptSince(ms, i, j)
  {
    if KeptSince(ms, i, j) {
      KeptIsPresent(ms, i, j);
    } else {
      var m :| i <= m < j && ms[m].forgets;
      ForgottenIsReborn(ms, m, j + 1);
      BirthsGrow(ms, i + 1, m + 1);
    }
  }

  /** Exactly when there is more than one lifetime. */
  lemma {:induction false} MoreThanOneExactly(ms: seq<Mark>, n: nat)
    requires n <= |ms|
    ensures Births(ms, n) > 1 <==> Restarted(ms, n)
  {
    if Restarted(ms, n) {
      var i, j :| 0 <= i < j < n && ms[i].arrives && ms[j].arrives && !KeptSince(ms, i, j);
      SameLifetimeExactly(ms, i, j);
      BirthsNeedArrivals(ms, i + 1);
      BirthsGrow(ms, i + 1, j + 1);
      BirthsGrow(ms, j + 1, n);
    }
    if Births(ms, n) > 1 {
      MoreThanOneExactly(ms, n - 1);
      if Births(ms, n - 1) == 1 {
        BirthsNeedArrivals(ms, n - 1);
        var i :| 0 <= i < n - 1 && ms[i].arrives;
        if KeptSince(ms, i, n - 1) {
          KeptIsPresent(ms, i, n - 1);
        }
      }
    }
  }
}
