/** The lists without some of their blocks, everything else in its old order. */
module Listings {
  import opened SizeClasses
  import opened Blocks
  import opened Rings
  import opened Layouts

  /** Ring r without the nodes in xs. */
  function Kept(r: Ring, xs: set<int>): Ring {
    if r == [] then [] else (if r[0] in xs then [] else [r[0]]) + Kept(r[1..], xs)
  }

  lemma {:induction false} KeptConcat(r: Ring, s: Ring, xs: set<int>)
    ensures Kept(r + s, xs) == Kept(r, xs) + Kept(s, xs)
  {
    if r == [] {
      assert r + s == s;
    } else {
      var head, t := if r[0] in xs then [] else [r[0]], r[1..];
      KeptConcat(t, s, xs);
      assert (r + s)[0] == r[0] && (r + s)[1..] == t + s;
      Associate(head, Kept(t, xs), Kept(s, xs));
    }
  }

  lemma Associate(a: Ring, b: Ring, c: Ring)
    ensures a + (b + c) == (a + b) + c
  {
  }

  lemma {:induction false} KeptAbsent(r: Ring, xs: set<int>)
    requires forall k {:trigger r[k]} :: 0 <= k < |r| ==> r[k] !in xs
    ensures Kept(r, xs) == r
  {
    if r != [] { KeptAbsent(r[1..], xs); }
  }

  lemma {:induction false} KeptTwice(r: Ring, xs: set<int>, ys: set<int>)
    ensures Kept(Kept(r, xs), ys) == Kept(r, xs + ys)
  {
    if r != [] {
      KeptTwice(r[1..], xs, ys);
      KeptConcat(if r[0] in xs then [] else [r[0]], Kept(r[1..], xs), ys);
    }
  }

  lemma KeptAround(a: Ring, p: int, b: Ring)
    requires forall j {:trigger a[j]} :: 0 <= j < |a| ==> a[j] != p
    requires forall j {:trigger b[j]} :: 0 <= j < |b| ==> b[j] != p
    ensures Kept(a + [p] + b, {p}) == a + b
  {
    hide Kept;
    KeptConcat(a + [p], b, {p});
    KeptConcat(a, [p], {p});
    KeptOne(p);
    KeptAbsent(a, {p});
    KeptAbsent(b, {p});
    assert a + [] == a;
  }

  lemma KeptOne(p: int)
    ensures Kept([p], {p}) == []
  {
    assert [p][1..] == [];
  }

  /** Taking one node out keeps all others in order. */
  lemma KeptDrop(r: Ring, k: int)
    requires 0 < k < |r| - 1
    requires forall j {:trigger r[j]} :: 0 <= j < |r| && j != k ==> r[j] != r[k]
    ensures Kept(r, {r[k]}) == Drop(r, k)
  {
    hide Kept;
    var a, p, b := r[..k], r[k], r[k + 1..];
    RestDiffers(r, k, b);
    KeptAround(a, p, b);
    assert r == a + [p] + b;
  }

  lemma RestDiffers(r: Ring, k: int, b: Ring)
    requires 0 < k < |r| - 1 && b == r[k + 1..]
    requires forall j {:trigger r[j]} :: 0 <= j < |r| && j != k ==> r[j] != r[k]
    ensures forall j {:trigger b[j]} :: 0 <= j < |b| ==> b[j] != r[k]
  {
    forall j | 0 <= j < |b| ensures b[j] != r[k] { assert b[j] == r[k + 1 + j]; }
  }

  /** A node put in front and taken out again. */
  lemma KeptFront(r: Ring, p: int, xs: set<int>)
    requires |r| >= 2 && p in xs && r[0] !in xs
    ensures Kept(PushFront(r, p), xs) == Kept(r, xs)
  {
    assert PushFront(r, p) == [r[0]] + ([p] + r[1..]) && r == [r[0]] + r[1..];
    KeptConcat([r[0]], [p] + r[1..], xs);
    KeptConcat([p], r[1..], xs);
    KeptConcat([r[0]], r[1..], xs);
  }

  /** Layout l with the blocks xs in no list, and the others where they were. */
  ghost function Unlist(l: Layout, xs: set<int>): (l': Layout)
    ensures l'.blocks == l.blocks && l'.base == l.base && l'.brk == l.brk
    ensures l'.cls == l.cls - xs && |l'.rings| == |l.rings|
  {
    l.(cls := l.cls - xs, rings := seq(|l.rings|, c requires 0 <= c < |l.rings| => Kept(l.rings[c], xs)))
  }

  lemma UnlistNone(l: Layout)
    ensures Unlist(l, {}) == l
  {
    forall c | 0 <= c < |l.rings| ensures Kept(l.rings[c], {}) == l.rings[c] { KeptAbsent(l.rings[c], {}); }
    assert Unlist(l, {}).rings == l.rings;
    assert l.cls - {} == l.cls;
  }

  lemma UnlistTwice(l: Layout, xs: set<int>, ys: set<int>)
    ensures Unlist(Unlist(l, xs), ys) == Unlist(l, xs + ys)
  {
    forall c | 0 <= c < |l.rings| ensures Kept(Kept(l.rings[c], xs), ys) == Kept(l.rings[c], xs + ys) {
      KeptTwice(l.rings[c], xs, ys);
    }
    assert Unlist(Unlist(l, xs), ys).rings == Unlist(l, xs + ys).rings;
    assert l.cls - xs - ys == l.cls - (xs + ys);
  }

  /** remove_from_list takes one block out and leaves the order of the others. */
  lemma RemoveIsUnlist(l: Layout, p: int)
    requires l.Tiled() && l.Threaded() && p in l.cls
    ensures l.ListedAt(p) && l.Remove(p) == Unlist(l, {p})
  {
    assert l.ListedAt(p) && InExtent(l.blocks, p, l.First(), l.brk);
    var c := l.cls[p];
    forall d | 0 <= d < |l.rings| ensures l.Remove(p).rings[d] == Kept(l.rings[d], {p}) {
      assert l.RingAt(d);
      var r := l.rings[d];
      if d == c {
        KeptDrop(r, Position(r, p));
      } else {
        KeptAbsent(r, {p});
      }
    }
    assert l.Remove(p).rings == Unlist(l, {p}).rings;
  }
}
