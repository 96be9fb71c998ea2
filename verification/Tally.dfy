/** Sums and bags collected over a sequence of thread states. */
module Tally {

  function Sum<T>(f: T -> nat, s: seq<T>): nat {
    if s == [] then 0 else Sum(f, s[..|s| - 1]) + f(s[|s| - 1])
  }

  /** Changing one element changes the sum by exactly the difference. */
  lemma {:induction false} SumUpdate<T>(f: T -> nat, s: seq<T>, i: nat, x: T)
    requires i < |s|
    ensures Sum(f, s[i := x]) + f(s[i]) == Sum(f, s) + f(x)
    decreases |s|
  {
    var n := |s| - 1;
    if i == n {
      assert s[i := x][..n] == s[..n];
    } else {
      assert s[i := x][..n] == s[..n][i := x];
      SumUpdate(f, s[..n], i, x);
    }
  }

  lemma {:induction false} SumZero<T>(f: T -> nat, s: seq<T>)
    requires forall i :: 0 <= i < |s| ==> f(s[i]) == 0
    ensures Sum(f, s) == 0
  {
    if s != [] {
      SumZero(f, s[..|s| - 1]);
    }
  }

  lemma SumNothing<T>(f: T -> nat)
    ensures Sum(f, []) == 0
  {
  }

  /** The sum from the front. */
  lemma {:induction false} SumHead<T>(f: T -> nat, s: seq<T>)
    requires s != []
    ensures Sum(f, s) == f(s[0]) + Sum(f, s[1..])
    decreases |s|
  {
    var n := |s| - 1;
    if n == 0 {
      assert s[..0] == [] && s[1..] == [];
    } else {
      SumHead(f, s[..n]);
      assert s[..n][1..] == s[1..][..n - 1];
    }
  }

  /** The union of what each element holds; an element may depend on its index. */
  function Bag<T, U>(f: (nat, T) -> multiset<U>, s: seq<T>): multiset<U> {
    if s == [] then multiset{} else Bag(f, s[..|s| - 1]) + f(|s| - 1, s[|s| - 1])
  }

  lemma {:induction false} BagUpdate<T, U>(f: (nat, T) -> multiset<U>, s: seq<T>, i: nat, x: T)
    requires i < |s|
    ensures Bag(f, s[i := x]) + f(i, s[i]) == Bag(f, s) + f(i, x)
    decreases |s|
  {
    var n := |s| - 1;
    if i == n {
      assert s[i := x][..n] == s[..n];
    } else {
      assert s[i := x][..n] == s[..n][i := x];
      BagUpdate(f, s[..n], i, x);
      AddBoth(Bag(f, s[..n][i := x]), f(i, s[i]), Bag(f, s[..n]), f(i, x), f(n, s[n]));
    }
  }

  lemma AddBoth<U>(a: multiset<U>, x: multiset<U>, b: multiset<U>, y: multiset<U>, g: multiset<U>)
    requires a + x == b + y
    ensures (a + g) + x == (b + g) + y
  {
    assert (a + g) + x == (a + x) + g;
    assert (b + g) + y == (b + y) + g;
  }

  lemma {:induction false} BagEmpty<T, U>(f: (nat, T) -> multiset<U>, s: seq<T>)
    requires forall i :: 0 <= i < |s| ==> f(i, s[i]) == multiset{}
    ensures Bag(f, s) == multiset{}
  {
    if s != [] {
      BagEmpty(f, s[..|s| - 1]);
      assert forall i :: 0 <= i < |s| - 1 ==> s[..|s| - 1][i] == s[i];
    }
  }

  /** A balance `t == f + b` survives when what enters and leaves each side matches. */
  lemma Rebalance<U>(t: multiset<U>, f: multiset<U>, b: multiset<U>, b': multiset<U>,
                     was: multiset<U>, now: multiset<U>, dt: multiset<U>, df: multiset<U>)
    requires t == f + b && b' + was == b + now && dt + was == df + now
    ensures t + dt == (f + df) + b'
  {
    forall u
      ensures (t + dt)[u] == ((f + df) + b')[u]
    {
      assert t[u] == f[u] + b[u];
      assert b'[u] + was[u] == (b' + was)[u] == (b + now)[u] == b[u] + now[u];
      assert dt[u] + was[u] == (dt + was)[u] == (df + now)[u] == df[u] + now[u];
    }
  }

  /** Every element through `f`, in order. */
  function Image<T, U>(f: T -> U, s: seq<T>): (r: seq<U>)
    ensures |r| == |s| && forall k :: 0 <= k < |s| ==> r[k] == f(s[k])
  {
    seq(|s|, k requires 0 <= k < |s| => f(s[k]))
  }

  /** Equal bags have equal images. */
  lemma {:induction false} ImageBag<T, U>(f: T -> U, a: seq<T>, b: seq<T>)
    requires multiset(a) == multiset(b)
    ensures multiset(Image(f, a)) == multiset(Image(f, b))
    decreases |a|
  {
    if a == [] {
      assert |multiset(b)| == 0 && |b| == |multiset(b)|;
    } else {
      hide Image;
      var n := |a| - 1;
      assert a == a[..n] + [a[n]];
      assert a[n] in multiset(b);
      var k :| 0 <= k < |b| && b[k] == a[n];
      var l, r := b[..k], b[k + 1..];
      assert b == l + [a[n]] + r;
      SameRest(a[..n], a[n], l, r);
      ImageBag(f, a[..n], l + r);
      ImageInsert(f, a[..n], a[n], []);
      ImageInsert(f, l, a[n], r);
      assert a[..n] + [a[n]] + [] == a && a[..n] + [] == a[..n];
    }
  }

  lemma SameRest<T>(a: seq<T>, x: T, l: seq<T>, r: seq<T>)
    requires multiset(a + [x]) == multiset(l + [x] + r)
    ensures multiset(a) == multiset(l + r)
  {
    assert multiset(a + [x]) - multiset{x} == multiset(a);
    assert multiset(l + [x] + r) == multiset(l) + multiset{x} + multiset(r);
    assert multiset(l + r) == multiset(l) + multiset(r);
  }

  lemma ImageInsert<T, U>(f: T -> U, l: seq<T>, x: T, r: seq<T>)
    ensures multiset(Image(f, l + [x] + r)) == multiset(Image(f, l + r)) + multiset{f(x)}
  {
    assert Image(f, l + [x] + r) == Image(f, l) + [f(x)] + Image(f, r);
    assert Image(f, l + r) == Image(f, l) + Image(f, r);
  }
}
