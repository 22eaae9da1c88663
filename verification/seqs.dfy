/** Sequence helpers shared by the models: positions, removal, insertion, distinctness. */
module Seqs {
  /** No element occurs twice. */
  predicate NoDup(xs: seq<nat>)
  {
    forall i, j :: 0 <= i < j < |xs| ==> xs[i] != xs[j]
  }

  /** A new element in front keeps a list duplicate-free. */
  lemma NoDupCons(b: nat, L: seq<nat>)
    requires NoDup(L) && b !in L
    ensures NoDup([b] + L)
  {
    forall i, j | 0 <= i < j < |L| + 1
      ensures ([b] + L)[i] != ([b] + L)[j]
    {
      assert ([b] + L)[j] == L[j - 1];
      if i > 0 {
        assert ([b] + L)[i] == L[i - 1];
      }
    }
  }

  /** The position of x in xs. */
  function IndexOf(xs: seq<nat>, x: nat): (k: nat)
    requires x in xs
    ensures k < |xs| && xs[k] == x
    ensures forall j :: 0 <= j < k ==> xs[j] != x
  {
    if xs[0] == x then 0 else 1 + IndexOf(xs[1..], x)
  }

  /** xs with the element at position k taken out. */
  function RemoveAt(xs: seq<nat>, k: nat): (r: seq<nat>)
    requires k < |xs|
    ensures |r| == |xs| - 1
    ensures forall j :: 0 <= j < |r| ==> r[j] == if j < k then xs[j] else xs[j + 1]
  {
    xs[..k] + xs[k + 1..]
  }

  /** Distinct positions of a duplicate-free list hold distinct elements. */
  lemma NoDupAt(xs: seq<nat>, i: nat, j: nat)
    requires NoDup(xs) && i < |xs| && j < |xs| && i != j
    ensures xs[i] != xs[j]
  {
    if i > j {
      NoDupAt(xs, j, i);
    }
  }

  /** Removing a position of a duplicate-free list removes exactly that element. */
  lemma RemoveNoDup(xs: seq<nat>, k: nat)
    requires NoDup(xs) && k < |xs|
    ensures NoDup(RemoveAt(xs, k)) && xs[k] !in RemoveAt(xs, k)
    ensures forall x :: x in RemoveAt(xs, k) <==> x in xs && x != xs[k]
  {
    var r := RemoveAt(xs, k);
    forall x | x in xs && x != xs[k]
      ensures x in r
    {
      var j :| 0 <= j < |xs| && xs[j] == x;
      assert r[if j < k then j else j - 1] == x;
    }
  }

  /** ys is xs with x inserted at position k: earlier elements stay, later ones move up by one. */
  predicate Inserted(xs: seq<nat>, k: nat, x: nat, ys: seq<nat>)
  {
    && k <= |xs| && |ys| == |xs| + 1 && ys[k] == x
    && forall j {:trigger ys[j]} :: 0 <= j < |ys| && j != k ==> ys[j] == if j < k then xs[j] else xs[j - 1]
  }

  /** xs with x inserted at position k. */
  function InsertAt(xs: seq<nat>, k: nat, x: nat): (r: seq<nat>)
    requires k <= |xs|
    ensures Inserted(xs, k, x, r)
  {
    xs[..k] + [x] + xs[k..]
  }

  /** Writing a slot and then writing back its old value restores the sequence. */
  lemma UpdateRestore(lists: seq<seq<nat>>, c: nat, x: seq<nat>)
    requires c < |lists|
    ensures lists[c := x][c := lists[c]] == lists
  {
  }

  /** Inserting keeps every element and adds the new one. */
  lemma InsertedKeeps(xs: seq<nat>, k: nat, x: nat, ys: seq<nat>)
    requires Inserted(xs, k, x, ys)
    ensures x in ys
    ensures forall y :: y in xs ==> y in ys
  {
    forall y | y in xs
      ensures y in ys
    {
      var j :| 0 <= j < |xs| && xs[j] == y;
      assert ys[if j < k then j else j + 1] == y;
    }
  }

  /** The elements after an insertion are the old ones and the inserted one. */
  lemma InsertedMembers(xs: seq<nat>, k: nat, x: nat, ys: seq<nat>)
    requires Inserted(xs, k, x, ys)
    ensures forall y :: y in ys <==> y in xs || y == x
  {
    InsertedKeeps(xs, k, x, ys);
    forall y | y in ys
      ensures y in xs || y == x
    {
      var j :| 0 <= j < |ys| && ys[j] == y;
      if j != k {
        assert ys[j] == if j < k then xs[j] else xs[j - 1];
      }
    }
  }
}
