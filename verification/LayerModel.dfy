/**
 The values behind per-layer save and load: the order layers are joined in, the joined
 blob, and the slice of it each layer gets back.
 */
module LayerModel {
  import opened Bytes
  import opened Wrapping

  type Name = string
  type Layers = map<Name, seq<byte>>

  // ----- Python's sorted() on a set of strings ---------------------------

  predicate Le(a: Name, b: Name) {
    a == [] || (b != [] && (a[0] < b[0] || (a[0] == b[0] && Le(a[1..], b[1..]))))
  }

  lemma {:induction false} LeTotal(a: Name, b: Name)
    ensures Le(a, b) || Le(b, a)
    ensures Le(a, b) && Le(b, a) ==> a == b
  {
    if a != [] && b != [] && a[0] == b[0] {
      LeTotal(a[1..], b[1..]);
      assert a == [a[0]] + a[1..] && b == [b[0]] + b[1..];
    }
  }

  lemma {:induction false} LeTransitive(a: Name, b: Name, c: Name)
    requires Le(a, b) && Le(b, c)
    ensures Le(a, c)
  {
    if a != [] && b != [] && c != [] && a[0] == b[0] == c[0] { LeTransitive(a[1..], b[1..], c[1..]); }
  }

  // Lexicographic order: a is a prefix of b, or smaller at the first difference.
  lemma {:induction false} LeIff(a: Name, b: Name)
    ensures Le(a, b) <==> a <= b || exists i :: Differs(a, b, i) && a[i] < b[i]
  {
    if a != [] && b != [] && a[0] == b[0] {
      LeIff(a[1..], b[1..]);
      assert a == [a[0]] + a[1..] && b == [b[0]] + b[1..];
      if i :| Differs(a[1..], b[1..], i) && a[1..][i] < b[1..][i] {
        assert a[..i + 1] == [a[0]] + a[1..][..i] && b[..i + 1] == [b[0]] + b[1..][..i];
        assert Differs(a, b, i + 1) && a[i + 1] < b[i + 1];
      }
      if i :| Differs(a, b, i) && a[i] < b[i] {
        assert a[1..][..i - 1] == a[..i][1..] && b[1..][..i - 1] == b[..i][1..];
        assert Differs(a[1..], b[1..], i - 1) && a[1..][i - 1] < b[1..][i - 1];
      }
    } else if a != [] && b != [] && a[0] < b[0] {
      assert Differs(a, b, 0) && a[0] < b[0];
    }
  }

  // The two first differ at i.
  predicate Differs(a: Name, b: Name, i: int) {
    0 <= i < |a| && i < |b| && a[..i] == b[..i] && a[i] != b[i]
  }

  predicate IsLeast(m: Name, s: set<Name>) {
    m in s && forall x | x in s :: Le(m, x)
  }

  lemma {:induction false} LeastExists(s: set<Name>)
    requires s != {}
    ensures exists m :: IsLeast(m, s)
    decreases |s|
  {
    var x :| x in s;
    LeTotal(x, x);
    var rest := s - {x};
    if rest == {} {
      assert s == {x};
      assert IsLeast(x, s);
    } else {
      LeastExists(rest);
      var m :| IsLeast(m, rest);
      LeTotal(x, m);
      if Le(x, m) {
        forall y | y in rest ensures Le(x, y) { LeTransitive(x, m, y); }
        assert IsLeast(x, s);
      } else {
        assert IsLeast(m, s);
      }
    }
  }

  ghost function Least(s: set<Name>): (m: Name)
    requires s != {}
    ensures IsLeast(m, s)
  {
    LeastExists(s);
    var m :| IsLeast(m, s);
    m
  }

  ghost function SortedNames(s: set<Name>): seq<Name>
    decreases |s|
  {
    if s == {} then [] else [Least(s)] + SortedNames(s - {Least(s)})
  }

  ghost predicate Increasing(l: seq<Name>) {
    forall i, j | 0 <= i < j < |l| :: Le(l[i], l[j]) && l[i] != l[j]
  }

  // The sorted listing of a set is strictly increasing and has exactly its elements.
  lemma {:induction false} SortedNamesSorted(s: set<Name>)
    ensures Increasing(SortedNames(s)) && (forall x :: x in SortedNames(s) <==> x in s)
    decreases |s|
  {
    if s != {} {
      var m := Least(s);
      var rest := SortedNames(s - {m});
      SortedNamesSorted(s - {m});
      assert SortedNames(s) == [m] + rest;
      forall x ensures x in SortedNames(s) <==> x in s { assert x in [m] + rest <==> x == m || x in rest; }
      forall i, j | 0 <= i < j < |SortedNames(s)|
        ensures Le(SortedNames(s)[i], SortedNames(s)[j]) && SortedNames(s)[i] != SortedNames(s)[j]
      {
        assert rest[j - 1] in rest;
      }
    }
  }

  // It is the only such listing, so the wire image does not depend on the order of arrival.
  lemma {:induction false} SortedNamesUnique(s: set<Name>, l: seq<Name>)
    requires Increasing(l) && forall x :: x in l <==> x in s
    ensures l == SortedNames(s)
    decreases |l|
  {
    if l == [] {
      assert s == {};
    } else {
      assert l[0] in s;
      var m := Least(s);
      assert Le(m, l[0]);
      LeTotal(m, l[0]);
      assert m == l[0];
      forall x ensures x in l[1..] <==> x in s - {m} {
        if x in l[1..] { var i :| 0 <= i < |l[1..]| && l[1..][i] == x; assert l[i + 1] == x; }
      }
      SortedNamesUnique(s - {m}, l[1..]);
    }
  }

  // ----- Joining ---------------------------------------------------------

  function Present(order: seq<Name>, names: set<Name>): seq<Name> {
    if order == [] then []
    else (if order[0] in names then [order[0]] else []) + Present(order[1..], names)
  }

  // Registered layers in registered order, then the unregistered ones by name.
  ghost function EffectiveOrder(order: seq<Name>, names: set<Name>): seq<Name> {
    Present(order, names) + SortedNames(names - set n | n in order)
  }

  function Join(layers: Layers, order: seq<Name>): seq<byte>
    requires forall n | n in order :: n in layers
  {
    if order == [] then [] else layers[order[0]] + Join(layers, order[1..])
  }

  lemma {:induction false} PresentMembers(order: seq<Name>, names: set<Name>)
    ensures forall n :: n in Present(order, names) <==> n in order && n in names
  {
    if order != [] {
      PresentMembers(order[1..], names);
      assert order == [order[0]] + order[1..];
    }
  }

  lemma EffectiveMembers(order: seq<Name>, names: set<Name>)
    ensures forall n :: n in EffectiveOrder(order, names) <==> n in names
  {
    PresentMembers(order, names);
    SortedNamesSorted(names - set n | n in order);
  }

  // ----- Arrival ---------------------------------------------------------

  datatype Arrival = Arrival(name: Name, bytes: seq<byte>)

  function Accumulated(l: Layers, a: Arrival): Layers {
    if a.bytes == [] then l else l[a.name := a.bytes]
  }

  function Buffered(arrivals: seq<Arrival>): Layers {
    if arrivals == [] then map[]
    else Accumulated(Buffered(arrivals[..|arrivals| - 1]), arrivals[|arrivals| - 1])
  }

  // Arrival `i` is the last non-empty one for its layer.
  ghost predicate IsLast(arrivals: seq<Arrival>, i: nat) {
    && i < |arrivals| && arrivals[i].bytes != []
    && forall j | i < j < |arrivals| :: arrivals[j].name == arrivals[i].name ==> arrivals[j].bytes == []
  }

  lemma {:induction false} LastIsBuffered(arrivals: seq<Arrival>, i: nat)
    requires IsLast(arrivals, i)
    ensures arrivals[i].name in Buffered(arrivals) && Buffered(arrivals)[arrivals[i].name] == arrivals[i].bytes
    decreases |arrivals|
  {
    var k := |arrivals| - 1;
    if i < k {
      assert arrivals[..k][i] == arrivals[i];
      LastIsBuffered(arrivals[..k], i);
      assert arrivals[k].name == arrivals[i].name ==> arrivals[k].bytes == [];
    }
  }

  lemma {:induction false} BufferedArrived(arrivals: seq<Arrival>, n: Name) returns (i: nat)
    requires n in Buffered(arrivals)
    ensures IsLast(arrivals, i) && arrivals[i].name == n
    decreases |arrivals|
  {
    i := |arrivals| - 1;
    var k := i;
    if arrivals[k].bytes == [] || arrivals[k].name != n {
      i := BufferedArrived(arrivals[..k], n);
      assert arrivals[..k][i] == arrivals[i];
      assert forall j | i < j < k :: arrivals[..k][j] == arrivals[j];
    }
  }

  // The buffer holds, for each layer, exactly the last non-empty value that arrived for it.
  lemma BufferedIsLast(arrivals: seq<Arrival>, n: Name, v: seq<byte>)
    ensures n in Buffered(arrivals) && Buffered(arrivals)[n] == v
      <==> exists i: nat :: IsLast(arrivals, i) && arrivals[i] == Arrival(n, v)
  {
    if n in Buffered(arrivals) {
      var i := BufferedArrived(arrivals, n);
      LastIsBuffered(arrivals, i);
      assert IsLast(arrivals, i) && arrivals[i] == Arrival(n, Buffered(arrivals)[n]);
    }
    forall i: nat | IsLast(arrivals, i) && arrivals[i] == Arrival(n, v)
      ensures n in Buffered(arrivals) && Buffered(arrivals)[n] == v
    {
      LastIsBuffered(arrivals, i);
    }
  }

  // ----- Splitting -------------------------------------------------------

  function Per(blob: seq<byte>, n: nat): nat
    requires n > 0
  {
    |blob| / n
  }

  lemma SliceInRange(total: nat, n: nat, i: nat)
    requires i < n
    ensures i * (total / n) <= (i + 1) * (total / n) <= total
  {
    var per := total / n;
    assert n * per <= total;
    MulMonotone(i + 1, n, per);
    MulMonotone(i, i + 1, per);
  }

  lemma {:induction false} MulMonotone(a: nat, b: nat, c: nat)
    requires a <= b
    ensures a * c <= b * c
  {
    assert b * c == a * c + (b - a) * c;
  }

  // The bytes of blob that belong to the i-th of n layers.
  function Slice(blob: seq<byte>, n: nat, i: nat): seq<byte>
    requires i < n
  {
    SliceInRange(|blob|, n, i);
    blob[i * Per(blob, n)..(i + 1) * Per(blob, n)]
  }

  // A short destination is filled to capacity, a long one keeps its tail.
  function WriteInto(slice: seq<byte>, dst: seq<byte>): seq<byte> {
    if |slice| < |dst| then slice + dst[|slice|..] else slice[..|dst|]
  }

  // ----- Save then load --------------------------------------------------

  ghost predicate Uniform(layers: Layers, size: nat) {
    forall n | n in layers :: |layers[n]| == size
  }

  lemma OneMore(n: nat, size: nat)
    ensures (n + 1) * size == n * size + size
  {
  }

  lemma {:induction false} JoinLength(layers: Layers, order: seq<Name>, size: nat)
    requires Uniform(layers, size) && forall n | n in order :: n in layers
    ensures |Join(layers, order)| == |order| * size
  {
    if order != [] {
      JoinLength(layers, order[1..], size);
      OneMore(|order| - 1, size);
    }
  }

  lemma {:induction false} JoinAt(layers: Layers, order: seq<Name>, size: nat, i: nat)
    requires Uniform(layers, size) && i < |order| && forall n | n in order :: n in layers
    ensures 0 <= i * size <= (i + 1) * size <= |Join(layers, order)|
    ensures Join(layers, order)[i * size..(i + 1) * size] == layers[order[i]]
  {
    JoinLength(layers, order, size);
    MulMonotone(i + 1, |order|, size);
    MulMonotone(i, i + 1, size);
    var head := layers[order[0]];
    var rest := Join(layers, order[1..]);
    if i == 0 {
      assert (head + rest)[0..size] == head;
    } else {
      JoinAt(layers, order[1..], size, i - 1);
      assert (i - 1) * size + size == i * size && i * size + size == (i + 1) * size;
      assert (head + rest)[(i - 1) * size + size..i * size + size] == rest[(i - 1) * size..i * size];
    }
  }

  lemma {:induction false} PresentLength(order: seq<Name>, names: set<Name>)
    ensures |Present(order, names)| <= |order|
    ensures |Present(order, names)| == |order| <==> forall n | n in order :: n in names
    ensures |Present(order, names)| == |order| ==> Present(order, names) == order
  {
    if order != [] {
      PresentLength(order[1..], names);
      assert order == [order[0]] + order[1..];
      assert (forall n | n in order :: n in names) <==> order[0] in names && forall n | n in order[1..] :: n in names;
    }
  }

  lemma ShortPer(have: nat, n: nat, size: nat)
    requires have < n && size > 0
    ensures have * size / n < size
  {
    var q := have * size / n;
    assert n * q <= have * size;
    if q >= size {
      MulMonotone(size, q, n);
      MulMonotone(have + 1, n, size);
      assert false;
    }
  }

  lemma ExactPer(n: nat, size: nat)
    requires n > 0
    ensures n * size / n == size
  {
    UniqueRemainder(n * size, n, size, 0);
  }

  // Whatever a destination of that size held, the load leaves it with layer i's own bytes.
  ghost predicate Restores(order: seq<Name>, layers: Layers, blob: seq<byte>, size: nat, i: nat) {
    && i < |order| && order[i] in layers
    && forall dst: seq<byte> | |dst| == size :: WriteInto(Slice(blob, |order|, i), dst) == layers[order[i]]
  }

  lemma CompleteRestores(order: seq<Name>, layers: Layers, size: nat, i: nat)
    requires Uniform(layers, size) && i < |order| && forall n | n in order :: n in layers
    ensures Restores(order, layers, Join(layers, order), size, i)
  {
    var blob := Join(layers, order);
    JoinLength(layers, order, size);
    ExactPer(|order|, size);
    JoinAt(layers, order, size, i);
  }

  lemma ShortSliceLeavesTail(order: seq<Name>, layers: Layers, blob: seq<byte>, size: nat, i: nat)
    requires i < |order| && order[i] in layers && |layers[order[i]]| == size
    requires |Slice(blob, |order|, i)| < size
    ensures !Restores(order, layers, blob, size, i)
  {
    var want := layers[order[i]];
    var other: byte := if want[size - 1] == 0 then 1 else 0;
    var dst := want[size - 1 := other];
    assert WriteInto(Slice(blob, |order|, i), dst)[size - 1] == other;
  }

  /**
   Save then load. Layers of one size, all registered in a duplicate-free order, arrive in any
   order with repeats. The drained blob, split over that same order, gives every arrived layer's
   destination exactly its own last value if and only if every registered layer arrived.
   */
  lemma SaveThenLoadIff(order: seq<Name>, arrivals: seq<Arrival>, size: nat)
    requires arrivals != [] && size > 0
    requires forall i, j | 0 <= i < j < |order| :: order[i] != order[j]
    requires forall a | a in arrivals :: a.name in order && |a.bytes| == size
    ensures var layers := Buffered(arrivals);
      && (forall n | n in EffectiveOrder(order, layers.Keys) :: n in layers)
      && var blob := Join(layers, EffectiveOrder(order, layers.Keys));
         (forall i: nat | i < |order| && order[i] in layers :: Restores(order, layers, blob, size, i))
         <==> forall i | 0 <= i < |order| :: exists a :: a in arrivals && a.name == order[i]
  {
    var layers := Buffered(arrivals);
    BufferedShape(order, arrivals, size);
    EffectiveMembers(order, layers.Keys);
    assert layers.Keys - (set n | n in order) == {};
    var names := Present(order, layers.Keys);
    assert EffectiveOrder(order, layers.Keys) == names;
    PresentLength(order, layers.Keys);
    if forall n | n in order :: n in layers {
      forall i: nat | i < |order| && order[i] in layers ensures Restores(order, layers, Join(layers, names), size, i) {
        CompleteRestores(order, layers, size, i);
      }
      forall i | 0 <= i < |order| ensures exists a :: a in arrivals && a.name == order[i] { assert order[i] in layers; }
    } else {
      var k :| 0 <= k < |order| && order[k] !in layers;
      var i :| 0 <= i < |order| && order[i] == arrivals[0].name;
      MissingBreaks(order, layers, size, i);
      assert forall a | a in arrivals :: a.name != order[k];
    }
  }

  // With a registered layer missing, no arrived layer is restored.
  lemma MissingBreaks(order: seq<Name>, layers: Layers, size: nat, i: nat)
    requires Uniform(layers, size) && size > 0 && i < |order| && order[i] in layers
    requires |Present(order, layers.Keys)| < |order| && forall n | n in Present(order, layers.Keys) :: n in layers
    ensures !Restores(order, layers, Join(layers, Present(order, layers.Keys)), size, i)
  {
    var names := Present(order, layers.Keys);
    var blob := Join(layers, names);
    JoinLength(layers, names, size);
    ShortPer(|names|, |order|, size);
    SliceLength(blob, |order|, i);
    ShortSliceLeavesTail(order, layers, blob, size, i);
  }

  lemma SliceLength(blob: seq<byte>, n: nat, i: nat)
    requires i < n
    ensures |Slice(blob, n, i)| == |blob| / n
  {
    SliceInRange(|blob|, n, i);
    var per := |blob| / n;
    assert (i + 1) * per - i * per == per;
  }

  lemma BufferedShape(order: seq<Name>, arrivals: seq<Arrival>, size: nat)
    requires size > 0 && forall a | a in arrivals :: a.name in order && |a.bytes| == size
    ensures Uniform(Buffered(arrivals), size)
    ensures forall n :: n in Buffered(arrivals) <==> exists a :: a in arrivals && a.name == n
    ensures forall n | n in Buffered(arrivals) :: n in order
  {
    if arrivals != [] {
      var k := |arrivals| - 1;
      assert arrivals == arrivals[..k] + [arrivals[k]];
      assert forall a | a in arrivals[..k] :: a in arrivals;
      assert arrivals[k] in arrivals;
      BufferedShape(order, arrivals[..k], size);
    }
  }
}
