/** The driver's record of the payloads in use, newest first. */
module Ranges {

  datatype Range = Range(lo: int, hi: int)

  /** The list without its first record that starts at lo. */
  function Without(rs: seq<Range>, lo: int): seq<Range> {
    if rs == [] then []
    else if rs[0].lo == lo then rs[1..]
    else [rs[0]] + Without(rs[1..], lo)
  }

  /** The list without its first record at each of the addresses ps. */
  ghost function WithoutEach(rs: seq<Range>, ps: set<int>): seq<Range> {
    if rs == [] then []
    else if rs[0].lo in ps then WithoutEach(rs[1..], ps - {rs[0].lo})
    else [rs[0]] + WithoutEach(rs[1..], ps)
  }

  lemma {:induction false} WithoutNone(rs: seq<Range>)
    ensures WithoutEach(rs, {}) == rs
  {
    if rs != [] { WithoutNone(rs[1..]); }
  }

  /** Removing records one address at a time removes them all, in whatever order. */
  lemma {:induction false} WithoutOneMore(rs: seq<Range>, ps: set<int>, p: int)
    requires p !in ps
    ensures Without(WithoutEach(rs, ps), p) == WithoutEach(rs, ps + {p})
  {
    if rs != [] {
      var q := rs[0].lo;
      if q in ps {
        WithoutOneMore(rs[1..], ps - {q}, p);
        assert (ps - {q}) + {p} == (ps + {p}) - {q};
      } else if q == p {
        assert (ps + {p}) - {p} == ps;
        assert WithoutEach(rs, ps)[1..] == WithoutEach(rs[1..], ps);
      } else {
        WithoutOneMore(rs[1..], ps, p);
        assert WithoutEach(rs, ps)[1..] == WithoutEach(rs[1..], ps);
      }
    }
  }

  class RangeList {
    var ranges: seq<Range>

    constructor ()
      ensures ranges == []
    {
      ranges := [];
    }

    /** Unlinks the record that starts at lo, if there is one. */
    method RemoveRange(lo: int)
      modifies this
      ensures ranges == Without(old(ranges), lo)
    {
      var i := 0;
      while i < |ranges|
        invariant 0 <= i <= |ranges| && ranges == old(ranges)
        invariant Without(ranges, lo) == ranges[..i] + Without(ranges[i..], lo)
      {
        if ranges[i].lo == lo {
          ranges := ranges[..i] + ranges[i + 1..];
          return;
        }
        i := i + 1;
      }
      assert ranges[..i] == ranges;
    }

    method ClearRanges()
      modifies this
      ensures ranges == []
    {
      ranges := [];
    }
  }
}
