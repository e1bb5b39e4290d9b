/** The driver's range list, kept in step with the blocks a trace holds. */
module RangeChecks {
  import opened Ranges

  /** Records exactly the payloads of the requests in req, once each. */
  ghost predicate Records(rs: seq<Range>, req: map<int, int>) {
    && (forall i {:trigger rs[i]} :: 0 <= i < |rs| ==> rs[i].lo in req && rs[i].hi == rs[i].lo + req[rs[i].lo] - 1)
    && (forall i, j {:trigger rs[i], rs[j]} :: 0 <= i < j < |rs| ==> rs[i].lo != rs[j].lo)
    && (forall p {:trigger Recorded(rs, p)} :: p in req ==> Recorded(rs, p))
  }

  ghost predicate Recorded(rs: seq<Range>, p: int) { exists i :: 0 <= i < |rs| && rs[i].lo == p }

  lemma RecordsAdded(rs: seq<Range>, req: map<int, int>, p: int, size: int)
    requires Records(rs, req) && p !in req
    ensures Records([Range(p, p + size - 1)] + rs, req[p := size])
  {
    var rs' := [Range(p, p + size - 1)] + rs;
    forall q | q in req[p := size] ensures Recorded(rs', q) {
      if q == p {
        assert rs'[0].lo == p;
      } else {
        assert Recorded(rs, q);
        var i :| 0 <= i < |rs| && rs[i].lo == q;
        assert rs'[i + 1].lo == q;
      }
    }
  }

  lemma {:induction false} WithoutIs(rs: seq<Range>, p: int, i: nat)
    requires i < |rs| && rs[i].lo == p
    requires forall j, k {:trigger rs[j], rs[k]} :: 0 <= j < k < |rs| ==> rs[j].lo != rs[k].lo
    ensures Without(rs, p) == rs[..i] + rs[i + 1..]
  {
    if i > 0 {
      assert rs[0].lo != rs[i].lo;
      WithoutIs(rs[1..], p, i - 1);
      assert [rs[0]] + (rs[1..][..i - 1] + rs[1..][i..]) == rs[..i] + rs[i + 1..];
    } else {
      assert rs[..0] + rs[1..] == rs[1..];
    }
  }

  /** Index k of a list from which index i was dropped, in the list it was dropped from. */
  function Before(k: int, i: int): int { if k < i then k else k + 1 }

  lemma DroppedAt(rs: seq<Range>, i: nat, k: nat)
    requires i < |rs| && k < |rs| - 1
    ensures (rs[..i] + rs[i + 1..])[k] == rs[Before(k, i)]
  {
  }

  lemma RecordedStill(rs: seq<Range>, i: nat, q: int)
    requires i < |rs| && Recorded(rs, q) && rs[i].lo != q
    ensures Recorded(rs[..i] + rs[i + 1..], q)
  {
    var k :| 0 <= k < |rs| && rs[k].lo == q;
    var j := if k < i then k else k - 1;
    DroppedAt(rs, i, j);
    assert (rs[..i] + rs[i + 1..])[j].lo == q;
  }

  lemma RecordsDropped(rs: seq<Range>, req: map<int, int>, p: int, i: nat)
    requires Records(rs, req) && i < |rs| && rs[i].lo == p
    ensures Records(rs[..i] + rs[i + 1..], req - {p})
  {
    var rs' := rs[..i] + rs[i + 1..];
    forall q | q in req - {p} ensures Recorded(rs', q) {
      assert Recorded(rs, q);
      RecordedStill(rs, i, q);
    }
    forall k | 0 <= k < |rs'| ensures rs'[k].lo in req - {p} && rs'[k].hi == rs'[k].lo + req[rs'[k].lo] - 1 {
      DroppedAt(rs, i, k);
      assert k < i ==> rs[k].lo != rs[i].lo;
      assert k >= i ==> rs[i].lo != rs[k + 1].lo;
    }
    forall j, k | 0 <= j < k < |rs'| ensures rs'[j].lo != rs'[k].lo {
      DroppedAt(rs, i, j);
      DroppedAt(rs, i, k);
    }
  }

  lemma RecordsRemoved(rs: seq<Range>, req: map<int, int>, p: int)
    requires Records(rs, req) && p in req
    ensures Records(Without(rs, p), req - {p})
  {
    assert Recorded(rs, p);
    var i :| 0 <= i < |rs| && rs[i].lo == p;
    WithoutIs(rs, p, i);
    RecordsDropped(rs, req, p, i);
  }

  /** Removing every recorded payload leaves nothing. */
  lemma {:induction false} AllRemoved(rs: seq<Range>, ps: set<int>)
    requires forall i {:trigger rs[i]} :: 0 <= i < |rs| ==> rs[i].lo in ps
    requires forall j, k {:trigger rs[j], rs[k]} :: 0 <= j < k < |rs| ==> rs[j].lo != rs[k].lo
    ensures WithoutEach(rs, ps) == []
  {
    if rs != [] {
      var t := rs[1..];
      forall i | 0 <= i < |t| ensures t[i].lo in ps - {rs[0].lo} { assert t[i] == rs[i + 1]; }
      AllRemoved(t, ps - {rs[0].lo});
    }
  }
}
