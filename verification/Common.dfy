/** Values shared by every component: hashes, saturating arithmetic, and the ordered view of a
    key set that the source gets from its BTreeMaps. */
module Common {

  datatype Option<+T> = None | Some(value: T)

  /** A 256-bit hash, known only by its bits; the all-zero hash is the default one. */
  datatype Hash = Hash(bits: nat)

  const DEFAULT_HASH := Hash(0)

  const U32_MAX: nat := 0xFFFF_FFFF
  const U64_MAX: nat := 0xFFFF_FFFF_FFFF_FFFF
  const TICKS_PER_SLOT: nat := 64
  const HASHES_PER_TICK: nat := 62_500

  function Min(a: nat, b: nat): nat {
    if a <= b then a else b
  }

  function Max(a: nat, b: nat): nat {
    if a <= b then b else a
  }

  function SatAdd64(a: nat, b: nat): nat {
    Min(U64_MAX, a + b)
  }

  function SatSub(a: nat, b: nat): nat {
    if a >= b then a - b else 0
  }

  lemma {:induction false} MinExists(s: set<nat>, x: nat)
    requires x in s
    ensures exists k :: k in s && forall j :: j in s ==> k <= j
    decreases x
  {
    if y :| y in s && y < x {
      MinExists(s, y);
    }
  }

  lemma {:induction false} MaxExists(s: set<nat>, x: nat)
    requires x in s
    ensures exists k :: k in s && forall j :: j in s ==> j <= k
    decreases |set y | y in s && y > x|
  {
    if y :| y in s && y > x {
      var above := set z | z in s && z > x;
      var fewer := set z | z in s && z > y;
      assert y in above && fewer <= above - {y};
      Subset(fewer, above - {y});
      MaxExists(s, y);
    }
  }

  lemma {:induction false} Subset<T>(a: set<T>, b: set<T>)
    requires a <= b
    ensures |a| <= |b|
  {
    if x :| x in a {
      Subset(a - {x}, b - {x});
    }
  }

  /** `first_key_value` of a BTreeMap. */
  function MinKey(s: set<nat>): (k: nat)
    requires s != {}
    ensures k in s && forall j :: j in s ==> k <= j
  {
    var x :| x in s;
    MinExists(s, x);
    var k :| k in s && forall j :: j in s ==> k <= j;
    k
  }

  /** `last_key_value` of a BTreeMap. */
  function MaxKey(s: set<nat>): (k: nat)
    requires s != {}
    ensures k in s && forall j :: j in s ==> j <= k
  {
    var x :| x in s;
    MaxExists(s, x);
    var k :| k in s && forall j :: j in s ==> j <= k;
    k
  }

  /** Removing another key leaves the lowest one in place. */
  lemma MinKeyStays(s: set<nat>, x: nat)
    requires x in s && x != MinKey(s)
    ensures s - {x} != {} && MinKey(s - {x}) == MinKey(s)
  {
    assert MinKey(s) in s - {x};
  }

  ghost predicate Increasing(ks: seq<nat>) {
    forall i, j :: 0 <= i < j < |ks| ==> ks[i] < ks[j]
  }

  /** `keys().copied().collect()` of a BTreeMap: every key once, in ascending order. */
  function SortedKeys(s: set<nat>): (ks: seq<nat>)
    ensures forall k :: k in ks <==> k in s
    ensures Increasing(ks)
  {
    if s == {} then []
    else
      var k := MinKey(s);
      [k] + SortedKeys(s - {k})
  }

  /** A finite set of numbers in `lo..hi` has at most `hi - lo` members. */
  lemma {:induction false} BoundedSetSize(s: set<nat>, lo: nat, hi: nat)
    requires lo <= hi
    requires forall k :: k in s ==> lo <= k < hi
    ensures |s| <= hi - lo
    decreases hi - lo
  {
    if lo == hi {
      assert s == {};
    } else {
      var rest := s - {hi - 1};
      BoundedSetSize(rest, lo, hi - 1);
      if hi - 1 in s {
        assert s == rest + {hi - 1};
      } else {
        assert s == rest;
      }
    }
  }

  // ---------------------------------------------------------------- joining sequences

  lemma AppendNothing<T>(a: seq<T>)
    ensures a + [] == a
  {
  }

  lemma NothingAppend<T>(a: seq<T>)
    ensures [] + a == a
  {
  }

  lemma AppendTwice<T>(a: seq<T>, b: seq<T>, c: seq<T>)
    ensures a + (b + c) == a + b + c
  {
  }

  lemma Reassociate<T>(a: seq<T>, x: T, b: seq<T>)
    ensures a + ([x] + b) == a + [x] + b
  {
  }

  // ---------------------------------------------------------------- totals over recorded numbers

  function Sum(ds: seq<nat>): nat {
    if ds == [] then 0 else Sum(ds[..|ds| - 1]) + ds[|ds| - 1]
  }

  function Least(ds: seq<nat>): nat {
    if ds == [] then U64_MAX else Min(Least(ds[..|ds| - 1]), ds[|ds| - 1])
  }

  function Greatest(ds: seq<nat>): nat {
    if ds == [] then 0 else Max(Greatest(ds[..|ds| - 1]), ds[|ds| - 1])
  }

  lemma StatsSnoc(ds: seq<nat>, d: nat)
    ensures Sum(ds + [d]) == Sum(ds) + d
    ensures Least(ds + [d]) == Min(Least(ds), d) && Greatest(ds + [d]) == Max(Greatest(ds), d)
  {
    assert (ds + [d])[..|ds + [d]| - 1] == ds;
  }

  lemma Distribute(n: nat, m: nat)
    ensures (n + 1) * m == n * m + m
  {
  }

  lemma {:induction false} SumIsBetween(ds: seq<nat>, lo: nat, hi: nat)
    requires lo <= Least(ds) && Greatest(ds) <= hi
    ensures |ds| * lo <= Sum(ds) <= |ds| * hi
  {
    if ds != [] {
      SumIsBetween(ds[..|ds| - 1], lo, hi);
      Distribute(|ds| - 1, lo);
      Distribute(|ds| - 1, hi);
    }
  }

}
