/** Orders and sorting shared by the models. Identities (names, values, ids) are naturals; tuples
    of identities compare as Python tuples do. */
module Order {

  /** Tuple comparison: the first difference decides, and a proper prefix is smaller. */
  predicate LexLess(a: seq<nat>, b: seq<nat>) {
    if b == [] then false
    else if a == [] then true
    else a[0] < b[0] || (a[0] == b[0] && LexLess(a[1..], b[1..]))
  }

  lemma LexIrreflexive(a: seq<nat>)
    ensures !LexLess(a, a)
  {}

  lemma {:induction false} LexTransitive(a: seq<nat>, b: seq<nat>, c: seq<nat>)
    requires LexLess(a, b) && LexLess(b, c)
    ensures LexLess(a, c)
  {
    if a != [] && a[0] == b[0] == c[0] {
      LexTransitive(a[1..], b[1..], c[1..]);
    }
  }

  lemma {:induction false} LexTotal(a: seq<nat>, b: seq<nat>)
    ensures LexLess(a, b) || a == b || LexLess(b, a)
  {
    if a != [] && b != [] && a[0] == b[0] {
      LexTotal(a[1..], b[1..]);
      assert a == [a[0]] + a[1..] && b == [b[0]] + b[1..];
    }
  }

  lemma LexAsymmetric(a: seq<nat>, b: seq<nat>)
    requires LexLess(a, b)
    ensures !LexLess(b, a)
  {
    if LexLess(b, a) {
      LexTransitive(a, b, a);
      LexIrreflexive(a);
    }
  }

  /** Extending two equally long tuples by the same element keeps their order. */
  lemma {:induction false} LexAppend(a: seq<nat>, b: seq<nat>, x: nat)
    requires |a| == |b| && LexLess(a, b)
    ensures LexLess(a + [x], b + [x])
  {
    assert (a + [x])[1..] == a[1..] + [x] && (b + [x])[1..] == b[1..] + [x];
    if a[0] == b[0] {
      LexAppend(a[1..], b[1..], x);
    }
  }

  predicate StrictlyAscending(s: seq<nat>) {
    forall i, j | 0 <= i < j < |s| :: s[i] < s[j]
  }

  predicate NoDuplicates<T(==)>(s: seq<T>) {
    forall i, j | 0 <= i < j < |s| :: s[i] != s[j]
  }

  lemma PrefixStep<T>(s: seq<T>, k: nat)
    requires k < |s|
    ensures s[..k + 1] == s[..k] + [s[k]]
  {}

  lemma {:induction false} MinimumExists(s: set<nat>)
    requires s != {}
    ensures exists m :: m in s && forall x | x in s :: m <= x
  {
    var m := Minimum(s);
  }

  lemma {:induction false} Minimum(s: set<nat>) returns (m: nat)
    requires s != {}
    ensures m in s && forall x | x in s :: m <= x
    decreases |s|
  {
    var y :| y in s;
    var rest := s - {y};
    m := y;
    if rest != {} {
      var least := Minimum(rest);
      m := if y < least then y else least;
    }
    forall x | x in s ensures m <= x {
      assert x == y || x in rest;
    }
  }

  /** Python's `min` on a set of identities. */
  function Least(s: set<nat>): (m: nat)
    requires s != {}
    ensures m in s && forall x | x in s :: m <= x
  {
    MinimumExists(s);
    var m :| m in s && forall x | x in s :: m <= x;
    m
  }

  /** Python's `sorted` on a set of identities. */
  function Sorted(s: set<nat>): (r: seq<nat>)
    ensures StrictlyAscending(r)
    ensures forall x :: x in r <==> x in s
    decreases |s|
  {
    if s == {} then [] else
      var m := Least(s);
      [m] + Sorted(s - {m})
  }
}
