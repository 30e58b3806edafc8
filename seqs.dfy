/** Generic sequence helpers: `map`, `filter`, the values of a list of options, and slicing facts. */
module Seqs {
  import opened Wrappers

  /** The values present in a list of options, in order. */
  function Somes<T>(opts: seq<Option<T>>): (r: seq<T>)
    ensures |r| <= |opts|
  {
    if opts == [] then []
    else (if opts[0].Some? then [opts[0].value] else []) + Somes(opts[1..])
  }

  /** `xs.map(f)` */
  function MapSeq<A, B>(f: A -> B, xs: seq<A>): (r: seq<B>)
    ensures |r| == |xs|
    ensures forall i :: 0 <= i < |xs| ==> r[i] == f(xs[i])
  {
    seq(|xs|, i requires 0 <= i < |xs| => f(xs[i]))
  }

  /** Taking the values of two lists of options one after the other keeps their order. */
  lemma {:induction false} SomesAppend<T>(a: seq<Option<T>>, b: seq<Option<T>>)
    ensures Somes(a + b) == Somes(a) + Somes(b)
  {
    if a == [] {
      assert a + b == b;
    } else {
      assert (a + b)[0] == a[0] && (a + b)[1..] == a[1..] + b;
      SomesAppend(a[1..], b);
    }
  }

  /** Every value taken comes from some option of the list. */
  lemma {:induction false} SomesFrom<T>(opts: seq<Option<T>>, k: nat)
    requires k < |Somes(opts)|
    ensures exists i :: 0 <= i < |opts| && opts[i] == Some(Somes(opts)[k])
  {
    var rest := Somes(opts[1..]);
    if opts[0].Some? {
      if k == 0 {
        assert opts[0] == Some(Somes(opts)[k]);
      } else {
        SomesFrom(opts[1..], k - 1);
        var i :| 0 <= i < |opts[1..]| && opts[1..][i] == Some(rest[k - 1]);
        assert opts[i + 1] == Some(Somes(opts)[k]);
      }
    } else {
      SomesFrom(opts[1..], k);
      var i :| 0 <= i < |opts[1..]| && opts[1..][i] == Some(rest[k]);
      assert opts[i + 1] == Some(Somes(opts)[k]);
    }
  }

  /** Mapping over two lists one after the other is mapping over each. */
  lemma MapAppend<A, B>(f: A -> B, a: seq<A>, b: seq<A>)
    ensures MapSeq(f, a + b) == MapSeq(f, a) + MapSeq(f, b)
  {
  }

  /** `xs.filter(keep)`: the elements that pass, in order. */
  function Filter<T>(keep: T -> bool, xs: seq<T>): (r: seq<T>)
    ensures |r| <= |xs|
    ensures forall i :: 0 <= i < |r| ==> keep(r[i])
  {
    if xs == [] then [] else (if keep(xs[0]) then [xs[0]] else []) + Filter(keep, xs[1..])
  }

  /** Filtering two lists one after the other is filtering each. */
  lemma {:induction false} FilterAppend<T>(keep: T -> bool, a: seq<T>, b: seq<T>)
    ensures Filter(keep, a + b) == Filter(keep, a) + Filter(keep, b)
  {
    if a == [] {
      assert a + b == b;
    } else {
      assert (a + b)[0] == a[0] && (a + b)[1..] == a[1..] + b;
      FilterAppend(keep, a[1..], b);
    }
  }

  /** A list of elements none of which passes filters to nothing. */
  lemma {:induction false} FilterNone<T>(keep: T -> bool, xs: seq<T>)
    requires forall i :: 0 <= i < |xs| ==> !keep(xs[i])
    ensures Filter(keep, xs) == []
  {
    if xs != [] {
      FilterNone(keep, xs[1..]);
    }
  }

  /** Concatenation regrouped. */
  lemma Regroup<T>(a: seq<T>, b: seq<T>, c: seq<T>, d: seq<T>)
    ensures a + (b + (c + d)) == (a + b) + c + d
  {
  }

  /** The first `i + 1` elements are the first `i` and then the element at `i`. */
  lemma TakeOneMore<T>(s: seq<T>, i: nat)
    requires i < |s|
    ensures s[..i + 1] == s[..i] + [s[i]]
  {
  }

  /** Taking every element gives the whole sequence. */
  lemma TakeAll<T>(s: seq<T>)
    ensures s[..|s|] == s
  {
  }

  /** A slice from `a` is its five consecutive slices at the cuts `b` to `e`, then the rest. */
  lemma SliceSplit<T>(s: seq<T>, a: nat, b: nat, c: nat, d: nat, e: nat)
    requires a <= b <= c <= d <= e <= |s|
    ensures s[a..] == s[a..b] + s[b..c] + s[c..d] + s[d..e] + s[e..]
  {
  }
}
