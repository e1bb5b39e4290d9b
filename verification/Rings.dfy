/**
 * Circular doubly linked lists threaded through memory. A node at address x keeps its
 * successor in the word at x and its predecessor in the word at x + 4. A ring is the sequence
 * of its nodes in list order, with the root both first and last.
 */
module Rings {

  type Ring = seq<int>

  /** No two nodes share a word. */
  ghost predicate Spaced(r: Ring) {
    forall j, k {:trigger r[j], r[k]} :: 0 <= j < k < |r| - 1 ==> r[j] + 8 <= r[k] || r[k] + 8 <= r[j]
  }

  ghost predicate Clear(r: Ring, p: int) {
    forall k {:trigger r[k]} :: 0 <= k < |r| ==> r[k] + 8 <= p || p + 8 <= r[k]
  }

  ghost predicate LinkAt(m: seq<int>, r: Ring, k: int)
    requires 0 <= k < |r| - 1
  {
    && 0 <= r[k] < |m| && m[r[k]] == r[k + 1]
    && 0 <= r[k + 1] + 4 < |m| && m[r[k + 1] + 4] == r[k]
  }

  ghost predicate Linked(m: seq<int>, r: Ring) {
    && |r| >= 2
    && r[0] == r[|r| - 1]
    && forall k {:trigger LinkAt(m, r, k)} :: 0 <= k < |r| - 1 ==> LinkAt(m, r, k)
  }

  /** p is a node other than the root. */
  ghost predicate Inside(r: Ring, p: int) { exists k :: 0 < k < |r| - 1 && r[k] == p }

  ghost function Position(r: Ring, p: int): (k: int)
    requires Inside(r, p)
    ensures 0 < k < |r| - 1 && r[k] == p
  {
    var k :| 0 < k < |r| - 1 && r[k] == p; k
  }

  function PushFront(r: Ring, p: int): Ring
    requires |r| >= 2
  {
    [r[0], p] + r[1..]
  }

  function Drop(r: Ring, k: int): Ring
    requires 0 < k < |r| - 1
  {
    r[..k] + r[k + 1..]
  }

  lemma PushFrontLinked(m: seq<int>, r: Ring, p: int)
    requires Linked(m, r) && Spaced(r) && Clear(r, p)
    requires 0 <= p && p + 4 < |m|
    ensures r[0] < |m| && 0 <= r[0] && 0 <= r[1] + 4 < |m| && m[r[0]] == r[1]
    ensures Linked(m[p + 4 := r[0]][p := r[1]][r[1] + 4 := p][r[0] := p], PushFront(r, p))
  {
    assert LinkAt(m, r, 0) && LinkAt(m, r, |r| - 2);
    var m' := m[p + 4 := r[0]][p := r[1]][r[1] + 4 := p][r[0] := p];
    var r' := PushFront(r, p);
    forall k | 0 <= k < |r'| - 1 ensures LinkAt(m', r', k) {
      if k >= 2 {
        assert LinkAt(m, r, k - 1);
        assert r'[k] == r[k - 1] && r'[k + 1] == r[k];
        assert r[0] == r[0] && r[1] == r[1];
      }
    }
  }

  lemma DropLinked(m: seq<int>, r: Ring, k: int)
    requires Linked(m, r) && Spaced(r)
    requires 0 < k < |r| - 1
    ensures LinkAt(m, r, k) && LinkAt(m, r, k - 1)
    ensures Linked(m[r[k - 1] := r[k + 1]][r[k + 1] + 4 := r[k - 1]], Drop(r, k))
  {
    assert LinkAt(m, r, k) && LinkAt(m, r, k - 1);
    var m' := m[r[k - 1] := r[k + 1]][r[k + 1] + 4 := r[k - 1]];
    var r' := Drop(r, k);
    assert r'[0] == r[0] && r'[|r'| - 1] == r[|r| - 1];
    forall i | 0 <= i < |r'| - 1 ensures LinkAt(m', r', i) {
      if i < k - 1 {
        assert LinkAt(m, r, i) && r'[i] == r[i] && r'[i + 1] == r[i + 1];
      } else if i >= k {
        assert LinkAt(m, r, i + 1) && r'[i] == r[i + 1] && r'[i + 1] == r[i + 2];
      }
    }
  }

  lemma SwapLinked(m: seq<int>, r: Ring, k: int, q: int)
    requires Linked(m, r) && Spaced(r) && Clear(r, q)
    requires 0 < k < |r| - 1
    requires 0 <= q && q + 4 < |m|
    ensures LinkAt(m, r, k) && LinkAt(m, r, k - 1)
    ensures Linked(m[q + 4 := r[k - 1]][q := r[k + 1]][r[k - 1] := q][r[k + 1] + 4 := q], r[k := q])
  {
    assert LinkAt(m, r, k) && LinkAt(m, r, k - 1);
    var m' := m[q + 4 := r[k - 1]][q := r[k + 1]][r[k - 1] := q][r[k + 1] + 4 := q];
    var r' := r[k := q];
    forall i | 0 <= i < |r'| - 1 ensures LinkAt(m', r', i) {
      if i != k && i != k - 1 {
        assert LinkAt(m, r, i);
      }
    }
  }
}
