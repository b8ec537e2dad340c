/** What the queue operations do to the abstract sequence. */
module Edits {
  datatype Edit<+T> =
    | InsertHead(x: T)
    | InsertTail(x: T)
    | InsertAfter(k: nat, x: T)
    | InsertBefore(k: nat, x: T)
    | Remove(k: nat)
    | Replace(k: nat, x: T)

  /** One edit; a position past the end selects no element, and the sequence stays. */
  function Apply<T>(s: seq<T>, e: Edit<T>): seq<T> {
    match e
    case InsertHead(x) => [x] + s
    case InsertTail(x) => s + [x]
    case InsertAfter(k, x) => if k < |s| then s[..k + 1] + [x] + s[k + 1..] else s
    case InsertBefore(k, x) => if k < |s| then s[..k] + [x] + s[k..] else s
    case Remove(k) => if k < |s| then s[..k] + s[k + 1..] else s
    case Replace(k, x) => if k < |s| then s[k := x] else s
  }

  /** Element by element: what an edit makes of a sequence that has the position it names. */
  lemma ApplyAt<T>(s: seq<T>, e: Edit<T>, i: nat)
    ensures e.InsertHead? ==> |Apply(s, e)| == |s| + 1 && Apply(s, e)[0] == e.x && (i < |s| ==> Apply(s, e)[i + 1] == s[i])
    ensures e.InsertTail? ==> |Apply(s, e)| == |s| + 1 && Apply(s, e)[|s|] == e.x && (i < |s| ==> Apply(s, e)[i] == s[i])
    ensures e.InsertAfter? && e.k < |s| ==>
      |Apply(s, e)| == |s| + 1 && Apply(s, e)[e.k + 1] == e.x
      && (i < |s| ==> Apply(s, e)[if i <= e.k then i else i + 1] == s[i])
    ensures e.InsertBefore? && e.k < |s| ==>
      |Apply(s, e)| == |s| + 1 && Apply(s, e)[e.k] == e.x
      && (i < |s| ==> Apply(s, e)[if i < e.k then i else i + 1] == s[i])
    ensures e.Remove? && e.k < |s| ==>
      |Apply(s, e)| == |s| - 1 && (i < |s| && i != e.k ==> Apply(s, e)[if i < e.k then i else i - 1] == s[i])
    ensures e.Replace? && e.k < |s| ==>
      |Apply(s, e)| == |s| && Apply(s, e)[e.k] == e.x && (i < |s| && i != e.k ==> Apply(s, e)[i] == s[i])
  {
  }

  /** A script of edits on the empty sequence. */
  function Run<T>(script: seq<Edit<T>>): seq<T> {
    if script == [] then [] else Apply(Run(script[..|script| - 1]), script[|script| - 1])
  }

  function Reverse<T>(s: seq<T>): (r: seq<T>)
    ensures |r| == |s|
    ensures forall i :: 0 <= i < |s| ==> r[i] == s[|s| - 1 - i]
  {
    if s == [] then [] else [s[|s| - 1]] + Reverse(s[..|s| - 1])
  }

  /** The elements of s outside `gone`, in order. */
  function Without<T>(s: seq<T>, gone: set<T>): (r: seq<T>)
    ensures |r| <= |s|
  {
    if s == [] then []
    else
      var rest := Without(s[..|s| - 1], gone);
      if s[|s| - 1] in gone then rest else rest + [s[|s| - 1]]
  }

  /** That is: all of them and no other, in their order, because it takes concatenation to concatenation. */
  lemma {:induction false} WithoutConcat<T>(xs: seq<T>, ys: seq<T>, gone: set<T>)
    ensures Without(xs + ys, gone) == Without(xs, gone) + Without(ys, gone)
  {
    if ys == [] {
      assert xs + ys == xs;
    } else {
      var n := |ys| - 1;
      assert (xs + ys)[..|xs| + n] == xs + ys[..n];
      WithoutConcat(xs, ys[..n], gone);
    }
  }

  lemma WithoutOne<T>(x: T, gone: set<T>)
    ensures Without([x], gone) == if x in gone then [] else [x]
  {
    assert [x][..0] == [];
  }

  /** What the two walks over a queue report. */
  datatype View<+T> = View(forward: seq<T>, backward: seq<T>)

  function ViewOf<T>(s: seq<T>): View<T> {
    View(s, Reverse(s))
  }
}
