/** Keeping the elements of a sequence that a partial map accepts: the shape of
    a loop that appends one output per accepted input. */
module Sequences {
  import opened Wrappers

  /** The images of the elements of `s` that `f` accepts, in the order of `s`. */
  function KeepMap<T, U>(s: seq<T>, f: T -> Option<U>): seq<U>
  {
    if s == [] then []
    else (if f(s[0]).Some? then [f(s[0]).value] else []) + KeepMap(s[1..], f)
  }

  /** Add one to every position. */
  function Shift(idx: seq<nat>): (r: seq<nat>)
    ensures |r| == |idx| && forall i :: 0 <= i < |idx| ==> r[i] == idx[i] + 1
  {
    seq(|idx|, i requires 0 <= i < |idx| => idx[i] + 1)
  }

  /** The positions in `s` of the elements that `KeepMap` keeps. */
  ghost function Kept<T, U>(s: seq<T>, f: T -> Option<U>): (idx: seq<nat>)
    ensures |idx| == |KeepMap(s, f)|
    ensures forall i :: 0 <= i < |idx| ==> idx[i] < |s|
  {
    if s == [] then []
    else (if f(s[0]).Some? then [0] else []) + Shift(Kept(s[1..], f))
  }

  /** Appending an element to the input appends its image, if any, to the output. */
  lemma {:induction false} KeepMapSnoc<T, U>(s: seq<T>, x: T, f: T -> Option<U>)
    ensures KeepMap(s + [x], f) == KeepMap(s, f) + (if f(x).Some? then [f(x).value] else [])
  {
    if s != [] {
      assert (s + [x])[1..] == s[1..] + [x];
      KeepMapSnoc(s[1..], x, f);
    }
  }

  /** The output is empty exactly when `f` accepts no element. */
  lemma {:induction false} KeepMapEmpty<T, U>(s: seq<T>, f: T -> Option<U>)
    ensures KeepMap(s, f) == [] <==> forall k :: 0 <= k < |s| ==> f(s[k]).None?
  {
    if s != [] {
      KeepMapEmpty(s[1..], f);
      assert forall k :: 1 <= k < |s| ==> s[k] == s[1..][k - 1];
    }
  }

  /** How many positions the head of a non-empty sequence contributes: one if kept. */
  function HeadKept<T, U>(s: seq<T>, f: T -> Option<U>): nat
    requires s != []
  {
    if f(s[0]).Some? then 1 else 0
  }

  /** The positions kept in a non-empty sequence: its head's, if kept, then the tail's. */
  lemma KeptHead<T, U>(s: seq<T>, f: T -> Option<U>)
    requires s != []
    ensures |Kept(s, f)| == HeadKept(s, f) + |Kept(s[1..], f)|
    ensures HeadKept(s, f) == 1 ==> Kept(s, f)[0] == 0
  {
  }

  /** A kept position past the head's is one more than the matching kept
      position of the tail. */
  lemma KeptStep<T, U>(s: seq<T>, f: T -> Option<U>, j: nat)
    requires s != [] && HeadKept(s, f) <= j < |Kept(s, f)|
    ensures j - HeadKept(s, f) < |Kept(s[1..], f)|
    ensures Kept(s, f)[j] == Kept(s[1..], f)[j - HeadKept(s, f)] + 1
  {
  }

  /** The i-th output is the image of the element at the i-th kept position. */
  lemma {:induction false} KeptAt<T, U>(s: seq<T>, f: T -> Option<U>, i: nat)
    requires i < |Kept(s, f)|
    ensures f(s[Kept(s, f)[i]]) == Some(KeepMap(s, f)[i])
  {
    var n := HeadKept(s, f);
    if i >= n {
      var rest := s[1..];
      KeptStep(s, f, i);
      KeptAt(rest, f, i - n);
      assert KeepMap(s, f)[i] == KeepMap(rest, f)[i - n];
    }
  }

  /** The kept positions are strictly increasing. */
  lemma {:induction false} KeptIncrease<T, U>(s: seq<T>, f: T -> Option<U>, i: nat, j: nat)
    requires i < j < |Kept(s, f)|
    ensures Kept(s, f)[i] < Kept(s, f)[j]
  {
    var n := HeadKept(s, f);
    KeptHead(s, f);
    KeptStep(s, f, j);
    if i >= n {
      KeptStep(s, f, i);
      KeptIncrease(s[1..], f, i - n, j - n);
    } else {
      assert Kept(s, f)[i] == 0;
    }
  }

  /** Every element that `f` accepts has its position among the kept ones. */
  lemma {:induction false} KeptCover<T, U>(s: seq<T>, f: T -> Option<U>, k: nat) returns (i: nat)
    requires k < |s| && f(s[k]).Some?
    ensures i < |Kept(s, f)| && Kept(s, f)[i] == k
  {
    KeptHead(s, f);
    if k == 0 {
      i := 0;
    } else {
      var rest := s[1..];
      assert rest[k - 1] == s[k];
      var t := KeptCover(rest, f, k - 1);
      i := HeadKept(s, f) + t;
      KeptStep(s, f, i);
    }
  }

  /** `KeepMap` keeps exactly the accepted elements, in order. */
  lemma KeptExact<T, U>(s: seq<T>, f: T -> Option<U>)
    ensures forall i :: 0 <= i < |Kept(s, f)| ==> f(s[Kept(s, f)[i]]) == Some(KeepMap(s, f)[i])
    ensures forall i, j :: 0 <= i < j < |Kept(s, f)| ==> Kept(s, f)[i] < Kept(s, f)[j]
    ensures forall k :: 0 <= k < |s| && f(s[k]).Some? ==> k in Kept(s, f)
  {
    forall i | 0 <= i < |Kept(s, f)|
      ensures f(s[Kept(s, f)[i]]) == Some(KeepMap(s, f)[i])
    {
      KeptAt(s, f, i);
    }
    forall i, j | 0 <= i < j < |Kept(s, f)|
      ensures Kept(s, f)[i] < Kept(s, f)[j]
    {
      KeptIncrease(s, f, i, j);
    }
    forall k | 0 <= k < |s| && f(s[k]).Some?
      ensures k in Kept(s, f)
    {
      var i := KeptCover(s, f, k);
    }
  }
}
