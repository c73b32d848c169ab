/** The range end a prefix read sends to etcd: the prefix with its last byte below 0xff incremented. */
module PrefixRange {
  import opened Bytes

  // Strict lexicographic order on byte strings.
  predicate Less(a: seq<byte>, b: seq<byte>) {
    b != [] && (a == [] || a[0] < b[0] || (a[0] == b[0] && Less(a[1..], b[1..])))
  }

  // Some byte of p is below 0xff.
  predicate HasLow(p: seq<byte>) {
    p != [] && (p[0] < 255 || HasLow(p[1..]))
  }

  lemma {:induction false} HasLowBack(p: seq<byte>)
    requires p != []
    ensures HasLow(p) <==> p[|p| - 1] < 255 || HasLow(p[..|p| - 1])
  {
    if |p| > 1 {
      HasLowBack(p[1..]);
      assert p[1..][..|p| - 2] == p[..|p| - 1][1..];
    }
  }

  // Trailing 0xff bytes dropped, the byte before them incremented; empty when there is none.
  function Bump(p: seq<byte>): seq<byte> {
    if p == [] then []
    else if p[|p| - 1] < 255 then p[..|p| - 1] + [p[|p| - 1] + 1]
    else Bump(p[..|p| - 1])
  }

  function RangeEnd(p: seq<byte>): seq<byte> {
    if p == [] then [0] else Bump(p)
  }

  method PrefixRangeEnd(prefix: seq<byte>) returns (e: seq<byte>)
    ensures e == RangeEnd(prefix)
  {
    e := prefix;
    if e == [] { return [0]; }
    var i := |e|;
    assert prefix[..i] == prefix;
    while i > 0
      invariant 0 <= i <= |e| && e == prefix
      invariant Bump(prefix[..i]) == Bump(prefix)
    {
      i := i - 1;
      assert prefix[..i + 1][..i] == prefix[..i];
      if e[i] < 255 {
        e := e[i := e[i] + 1];
        e := e[..i + 1];
        return;
      }
    }
    return [];
  }

  // The same string, computed from the front.
  lemma {:induction false} BumpFront(p: seq<byte>)
    requires p != []
    ensures Bump(p) == if HasLow(p[1..]) then [p[0]] + Bump(p[1..]) else if p[0] < 255 then [p[0] + 1] else []
  {
    var n := |p| - 1;
    if n > 0 {
      assert p[1..][..n - 1] == p[..n][1..];
      assert p[1..][n - 1] == p[n];
      HasLowBack(p[1..]);
      if p[n] == 255 {
        BumpFront(p[..n]);
      }
    }
  }

  // Nothing of equal length exceeds a string of 0xff bytes, so only its extensions are not below it.
  lemma {:induction false} NotBelowAllFF(q: seq<byte>, key: seq<byte>)
    requires !HasLow(q)
    ensures !Less(key, q) <==> q <= key
  {
    if q != [] && key != [] {
      NotBelowAllFF(q[1..], key[1..]);
      assert q <= key <==> q[0] == key[0] && q[1..] <= key[1..];
    }
  }

  // A key lies in [prefix, PrefixRangeEnd(prefix)) exactly when it starts with the prefix.
  lemma {:induction false} IntervalIsPrefix(p: seq<byte>, key: seq<byte>)
    requires HasLow(p)
    ensures !Less(key, p) && Less(key, Bump(p)) <==> p <= key
  {
    BumpFront(p);
    if key != [] {
      assert p <= key <==> p[0] == key[0] && p[1..] <= key[1..];
      if HasLow(p[1..]) {
        IntervalIsPrefix(p[1..], key[1..]);
        assert Bump(p)[1..] == Bump(p[1..]);
      } else {
        NotBelowAllFF(p[1..], key[1..]);
        assert Bump(p)[1..] == [];
      }
    }
  }

  lemma BumpAllFF(p: seq<byte>)
    requires p != [] && !HasLow(p)
    ensures Bump(p) == []
  {
    BumpFront(p);
  }

  // As a plain interval the range is right exactly for prefixes with a byte below 0xff.
  lemma PlainIntervalIff(p: seq<byte>)
    ensures (forall key :: (!Less(key, p) && Less(key, RangeEnd(p)) <==> p <= key)) <==> HasLow(p)
  {
    if HasLow(p) {
      forall key ensures !Less(key, p) && Less(key, RangeEnd(p)) <==> p <= key { IntervalIsPrefix(p, key); }
    } else if p == [] {
      var key: seq<byte> := [0];
      assert p <= key && !Less(key, RangeEnd(p));
    } else {
      BumpAllFF(p);
      assert p <= p && !Less(p, RangeEnd(p));
    }
  }

  // How etcd v3 reads a range request: no end is a single key, end "\0" is everything from the start.
  predicate InEtcdRange(key: seq<byte>, start: seq<byte>, end: seq<byte>) {
    if end == [] then key == start
    else if end == [0] then !Less(key, start)
    else !Less(key, start) && Less(key, end)
  }

  lemma {:induction false} BumpEnds(p: seq<byte>)
    requires HasLow(p)
    ensures Bump(p) != [] && Bump(p)[|Bump(p)| - 1] >= 1
  {
    if p[|p| - 1] == 255 {
      HasLowBack(p);
      BumpEnds(p[..|p| - 1]);
    }
  }

  // With etcd's conventions the empty prefix is right too; a prefix of 0xff bytes reads one key only.
  lemma EtcdRangeIff(p: seq<byte>)
    ensures (forall key :: (InEtcdRange(key, p, RangeEnd(p)) <==> p <= key)) <==> p == [] || HasLow(p)
  {
    if HasLow(p) {
      BumpEnds(p);
      forall key ensures InEtcdRange(key, p, RangeEnd(p)) <==> p <= key { IntervalIsPrefix(p, key); }
    } else if p != [] {
      BumpAllFF(p);
      var key := p + [0];
      assert p <= key && !InEtcdRange(key, p, RangeEnd(p));
    }
  }
}
