/** Small value-level building blocks shared by both extractors: an optional
    value, the "push when the callback yields something" shape of a
    `forEach`, the insertion order of a JavaScript `Set`, and sequential
    assignment into a JavaScript object used as a dictionary. */
module Util {

  datatype Option<T> = None | Some(value: T)

  /** The `Some` values `f` yields over `xs`, in order: what a `forEach`
      whose callback pushes at most one value per element leaves behind. */
  function Harvest<T, U(==,!new)>(xs: seq<T>, f: T -> Option<U>): (r: seq<U>)
    ensures |r| <= |xs|
    ensures forall y :: y in r <==> exists i :: 0 <= i < |xs| && f(xs[i]) == Some(y)
  {
    if xs == [] then []
    else
      var init := Harvest(xs[..|xs| - 1], f);
      assert forall i :: 0 <= i < |xs| - 1 ==> xs[..|xs| - 1][i] == xs[i];
      match f(xs[|xs| - 1])
      case Some(y) => init + [y]
      case None => init
  }

  /** A `forEach` whose callback yields several values per item, kept in order. */
  function Gather<T, U(==,!new)>(xs: seq<T>, f: T -> seq<U>): (r: seq<U>)
    ensures forall y :: y in r <==> exists i :: 0 <= i < |xs| && y in f(xs[i])
  {
    if xs == [] then []
    else
      var init := xs[..|xs| - 1];
      assert forall i :: 0 <= i < |init| ==> init[i] == xs[i];
      Gather(init, f) + f(xs[|xs| - 1])
  }

  lemma HarvestEmpty<T, U(!new)>(xs: seq<T>, f: T -> Option<U>)
    ensures |Harvest(xs, f)| == 0 <==> forall i :: 0 <= i < |xs| ==> f(xs[i]).None?
  {
    if |Harvest(xs, f)| != 0 {
      assert Harvest(xs, f)[0] in Harvest(xs, f);
    }
  }

  lemma HarvestStep<T, U(!new)>(xs: seq<T>, i: nat, f: T -> Option<U>)
    requires i < |xs|
    ensures Harvest(xs[..i + 1], f) ==
              Harvest(xs[..i], f) + (match f(xs[i]) case Some(y) => [y] case None => [])
  {
    assert xs[..i + 1][..i] == xs[..i];
  }

  lemma HarvestThree<T, U(!new)>(a: T, b: T, c: T, f: T -> Option<U>, x: U, y: U, z: U)
    requires f(a) == Some(x) && f(b) == Some(y) && f(c) == Some(z)
    ensures Harvest([a, b, c], f) == [x, y, z]
  {
    assert [a][..0] == [];
    assert Harvest([a], f) == [x];
    assert [a, b][..1] == [a];
    assert Harvest([a, b], f) == [x, y];
    assert [a, b, c][..2] == [a, b];
  }

  /** `xs.forEach(x => { const y = f(x); if (y) out.push(y); })`. */
  method PushEach<T, U(==,!new)>(xs: seq<T>, f: T -> Option<U>) returns (out: seq<U>)
    ensures out == Harvest(xs, f)
  {
    out := [];
    var i := 0;
    while i < |xs|
      invariant i <= |xs|
      invariant out == Harvest(xs[..i], f)
    {
      match f(xs[i]) {
        case Some(y) => out := out + [y];
        case None =>
      }
      HarvestStep(xs, i, f);
      i := i + 1;
    }
    assert xs[..i] == xs;
  }

  predicate NoDuplicates<T(==,!new)>(s: seq<T>) {
    forall i, j :: 0 <= i < j < |s| ==> s[i] != s[j]
  }

  /** `[...new Set(s)]`: the values of `s` inserted one by one into a set
      that keeps insertion order, so a value already present is skipped. */
  function Dedup<T(==,!new)>(s: seq<T>): (r: seq<T>)
    ensures NoDuplicates(r)
    ensures forall x :: x in r <==> x in s
  {
    if s == [] then []
    else
      var d := Dedup(s[..|s| - 1]);
      assert forall x :: x in s <==> x in s[..|s| - 1] || x == s[|s| - 1];
      if s[|s| - 1] in d then d else d + [s[|s| - 1]]
  }

  lemma DedupEmptyIff<T(!new)>(s: seq<T>)
    ensures Dedup(s) == [] <==> s == []
  {
    if s != [] {
      assert s[0] in Dedup(s);
    }
  }

  /** The position at which `x` first occurs in `s`. */
  function FirstIndex<T(==,!new)>(s: seq<T>, x: T): (k: nat)
    requires x in s
    ensures k < |s| && s[k] == x && x !in s[..k]
  {
    if s[0] == x then 0
    else
      var k := FirstIndex(s[1..], x);
      assert s[1..][..k] == s[1..k + 1];
      1 + k
  }

  lemma {:induction false} FirstIndexExtend<T(!new)>(s: seq<T>, z: T, x: T)
    requires x in s
    ensures FirstIndex(s + [z], x) == FirstIndex(s, x)
  {
    if s[0] != x {
      assert (s + [z])[1..] == s[1..] + [z];
      FirstIndexExtend(s[1..], z, x);
    }
  }

  /** The order of a de-duplicated list is the order in which its values
      first occur in the original list. */
  lemma {:induction false} DedupFirstOccurrenceOrder<T(!new)>(s: seq<T>, i: nat, j: nat)
    requires i < j < |Dedup(s)|
    ensures FirstIndex(s, Dedup(s)[i]) < FirstIndex(s, Dedup(s)[j])
  {
    var init := s[..|s| - 1];
    var z := s[|s| - 1];
    assert s == init + [z];
    var d := Dedup(init);
    var x, y := Dedup(s)[i], Dedup(s)[j];
    if j < |d| {
      assert x == d[i] && y == d[j];
      DedupFirstOccurrenceOrder(init, i, j);
      FirstIndexExtend(init, z, x);
      FirstIndexExtend(init, z, y);
    } else {
      assert y == z && z !in d && x == d[i];
      assert x in init;
      FirstIndexExtend(init, z, x);
      assert FirstIndex(init, x) < |init|;
      assert z !in init;
      assert FirstIndex(s, y) == |init|;
    }
  }

  /** A list without repeated values is left as it is. */
  lemma {:induction false} DedupOfDistinct<T(!new)>(s: seq<T>)
    requires NoDuplicates(s)
    ensures Dedup(s) == s
  {
    if s != [] {
      var init := s[..|s| - 1];
      assert NoDuplicates(init);
      DedupOfDistinct(init);
      assert s[|s| - 1] !in init;
      assert s == init + [s[|s| - 1]];
    }
  }

  /** `obj[k] = v` for each pair `(k, v)` of `ps`, in order, starting from `m`. */
  function Assign<K(!new), V>(m: map<K, V>, ps: seq<(K, V)>): (r: map<K, V>)
    ensures forall k :: k in r <==> k in m || exists i :: 0 <= i < |ps| && ps[i].0 == k
  {
    if ps == [] then m
    else
      var init := ps[..|ps| - 1];
      assert forall i :: 0 <= i < |ps| - 1 ==> init[i] == ps[i];
      Assign(m, init)[ps[|ps| - 1].0 := ps[|ps| - 1].1]
  }

  lemma {:induction false} AssignAppend<K(!new), V>(m: map<K, V>, a: seq<(K, V)>, b: seq<(K, V)>)
    ensures Assign(m, a + b) == Assign(Assign(m, a), b)
  {
    if b != [] {
      var b' := b[..|b| - 1];
      assert (a + b)[..|a + b| - 1] == a + b';
      AssignAppend(m, a, b');
    } else {
      assert a + b == a;
    }
  }

  lemma AssignStep<K(!new), V>(m: map<K, V>, ps: seq<(K, V)>, i: nat)
    requires i < |ps|
    ensures Assign(m, ps[..i + 1]) == Assign(m, ps[..i])[ps[i].0 := ps[i].1]
  {
    assert ps[..i + 1][..i] == ps[..i];
  }

  /** Last write wins: the value under a key is the one of the last pair
      written with that key. */
  lemma {:induction false} AssignLastWriteWins<K(!new), V>(m: map<K, V>, ps: seq<(K, V)>, i: nat)
    requires i < |ps|
    requires forall j :: i < j < |ps| ==> ps[j].0 != ps[i].0
    ensures ps[i].0 in Assign(m, ps) && Assign(m, ps)[ps[i].0] == ps[i].1
  {
    if i < |ps| - 1 {
      AssignLastWriteWins(m, ps[..|ps| - 1], i);
    }
  }

  /** A key no pair writes keeps its old value. */
  lemma {:induction false} AssignUntouched<K(!new), V>(m: map<K, V>, ps: seq<(K, V)>, k: K)
    requires k in m
    requires forall j :: 0 <= j < |ps| ==> ps[j].0 != k
    ensures k in Assign(m, ps) && Assign(m, ps)[k] == m[k]
  {
    if ps != [] {
      AssignUntouched(m, ps[..|ps| - 1], k);
    }
  }

  /** Every entry of the result comes from `m` or is one of the pairs. */
  lemma {:induction false} AssignProvenance<K(!new), V>(m: map<K, V>, ps: seq<(K, V)>, k: K)
    requires k in Assign(m, ps)
    ensures (k in m && Assign(m, ps)[k] == m[k]) || (k, Assign(m, ps)[k]) in ps
  {
    if ps != [] {
      var init := ps[..|ps| - 1];
      if k != ps[|ps| - 1].0 {
        AssignProvenance(m, init, k);
        if (k, Assign(m, init)[k]) in init {
          var j :| 0 <= j < |init| && init[j] == (k, Assign(m, init)[k]);
          assert ps[j] == init[j];
        }
      }
    }
  }
}
