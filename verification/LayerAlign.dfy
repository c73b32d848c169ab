/**
 When the splitter gives a layer back for every content, unregistered and missing layers included. The
 accumulator joins what arrived, registered layers first; the splitter cuts the blob evenly over the
 registered order.
 */
module LayerAlign {
  import opened Bytes
  import opened LayerModel

  ghost predicate DistinctNames(l: seq<Name>) {
    forall i, j | 0 <= i < j < |l| :: l[i] != l[j]
  }

  // The blob a drain of these layers yields.
  ghost function Drain(order: seq<Name>, layers: Layers): seq<byte> {
    EffectiveMembers(order, layers.Keys);
    Join(layers, EffectiveOrder(order, layers.Keys))
  }

  // The buffered layers fill the even cut, and nothing before layer i is missing or too long. A caller can tell
  // from the names and the layer size.
  predicate Aligned(order: seq<Name>, names: set<Name>, size: nat, i: nat)
    requires i < |order|
  {
    |names| >= |order| && (i == 0 || (|names| * size / |order| == size && forall j | 0 <= j < i :: order[j] in names))
  }

  // ----- Where a layer lies in the blob ----------------------------------

  lemma {:induction false} PresentSplits(a: seq<Name>, b: seq<Name>, names: set<Name>)
    ensures Present(a + b, names) == Present(a, names) + Present(b, names)
    decreases |a|
  {
    if a == [] {
      assert a + b == b;
    } else {
      assert (a + b)[1..] == a[1..] + b;
      PresentSplits(a[1..], b, names);
    }
  }

  lemma {:induction false} PresentDistinct(order: seq<Name>, names: set<Name>)
    requires DistinctNames(order)
    ensures DistinctNames(Present(order, names))
  {
    if order != [] {
      PresentDistinct(order[1..], names);
      PresentMembers(order[1..], names);
      var rest := Present(order[1..], names);
      forall n | n in rest ensures n != order[0] { var j :| 0 <= j < |order[1..]| && order[1..][j] == n; assert order[j + 1] == n; }
    }
  }

  lemma EffectiveDistinct(order: seq<Name>, names: set<Name>)
    requires DistinctNames(order)
    ensures DistinctNames(EffectiveOrder(order, names))
  {
    var stray := names - set n | n in order;
    PresentDistinct(order, names);
    PresentMembers(order, names);
    SortedNamesSorted(stray);
    var a, b := Present(order, names), SortedNames(stray);
    forall i, j | 0 <= i < |a| && 0 <= j < |b| ensures a[i] != b[j] { assert a[i] in a && b[j] in b; }
  }

  lemma {:induction false} DistinctSize(l: seq<Name>, names: set<Name>)
    requires DistinctNames(l) && forall n :: n in l <==> n in names
    ensures |l| == |names|
    decreases |l|
  {
    if l == [] {
      assert names == {};
    } else {
      var rest := names - {l[0]};
      assert l[0] in names;
      forall n ensures n in l[1..] <==> n in rest {
        if n in l[1..] { var j :| 0 <= j < |l[1..]| && l[1..][j] == n; assert l[j + 1] == n; }
      }
      DistinctSize(l[1..], rest);
    }
  }

  // The place of registered layer i among the layers joined.
  ghost function Rank(order: seq<Name>, names: set<Name>, i: nat): nat
    requires i < |order|
  {
    |Present(order[..i], names)|
  }

  lemma RankFinds(order: seq<Name>, names: set<Name>, i: nat)
    requires i < |order| && order[i] in names
    ensures var eff := EffectiveOrder(order, names); var r := Rank(order, names, i); r < |eff| && eff[r] == order[i]
    ensures Rank(order, names, i) <= i
    ensures Rank(order, names, i) == i <==> forall j | 0 <= j < i :: order[j] in names
  {
    assert order == order[..i] + ([order[i]] + order[i + 1..]);
    PresentSplits(order[..i], [order[i]] + order[i + 1..], names);
    assert Present([order[i]] + order[i + 1..], names)[0] == order[i];
    PresentLength(order[..i], names);
    assert (forall n | n in order[..i] :: n in names) <==> forall j | 0 <= j < i :: order[j] in names by {
      if forall n | n in order[..i] :: n in names {
        forall j | 0 <= j < i ensures order[j] in names { assert order[..i][j] in order[..i]; }
      }
    }
  }

  lemma BlobShape(order: seq<Name>, layers: Layers, size: nat, i: nat)
    requires DistinctNames(order) && Uniform(layers, size) && i < |order| && order[i] in layers
    ensures var r := Rank(order, layers.Keys, i);
      && |Drain(order, layers)| == |layers.Keys| * size && (r + 1) * size <= |Drain(order, layers)|
      && r * size <= (r + 1) * size && Drain(order, layers)[r * size..(r + 1) * size] == layers[order[i]]
  {
    var eff := EffectiveOrder(order, layers.Keys);
    EffectiveMembers(order, layers.Keys);
    EffectiveDistinct(order, layers.Keys);
    DistinctSize(eff, layers.Keys);
    JoinLength(layers, eff, size);
    RankFinds(order, layers.Keys, i);
    JoinAt(layers, eff, size, Rank(order, layers.Keys, i));
  }

  // ----- Aligned layers come back ----------------------------------------

  lemma LongPer(have: nat, n: nat, size: nat)
    requires n > 0 && have >= n
    ensures have * size / n >= size
  {
    var q := have * size / n;
    assert have * size < n * (q + 1);
    MulMonotone(n, have, size);
    if q < size {
      MulMonotone(q + 1, size, n);
      assert false;
    }
  }

  lemma LongSliceWrites(blob: seq<byte>, n: nat, i: nat, size: nat, dst: seq<byte>)
    requires i < n && |blob| / n >= size && |dst| == size
    ensures i * (|blob| / n) + size <= |blob|
    ensures WriteInto(Slice(blob, n, i), dst) == blob[i * (|blob| / n)..i * (|blob| / n) + size]
  {
    var per := |blob| / n;
    SliceInRange(|blob|, n, i);
    assert (i + 1) * per == i * per + per;
  }

  lemma AlignedRestores(order: seq<Name>, layers: Layers, size: nat, i: nat)
    requires DistinctNames(order) && Uniform(layers, size) && i < |order| && order[i] in layers
    requires Aligned(order, layers.Keys, size, i)
    ensures Restores(order, layers, Drain(order, layers), size, i)
  {
    var blob, n := Drain(order, layers), |order|;
    BlobShape(order, layers, size, i);
    RankFinds(order, layers.Keys, i);
    LongPer(|layers.Keys|, n, size);
    assert (i + 1) * size == i * size + size;
    forall dst: seq<byte> | |dst| == size ensures WriteInto(Slice(blob, n, i), dst) == layers[order[i]] {
      LongSliceWrites(blob, n, i, size, dst);
    }
  }

  // ----- Others fail for some content ------------------------------------

  // Ones for the layer in question, zeros for the rest.
  function Marked(names: set<Name>, n: Name, size: nat): Layers {
    map m | m in names :: seq(size, _ => if m == n then 1 else 0)
  }

  lemma {:induction false} JoinSplits(layers: Layers, a: seq<Name>, b: seq<Name>)
    requires forall n | n in a + b :: n in layers
    ensures (forall n | n in a :: n in layers) && (forall n | n in b :: n in layers)
    ensures Join(layers, a + b) == Join(layers, a) + Join(layers, b)
    decreases |a|
  {
    assert forall n | n in a :: n in a + b;
    assert forall n | n in b :: n in a + b;
    if a == [] {
      assert a + b == b;
    } else {
      assert (a + b)[1..] == a[1..] + b;
      JoinSplits(layers, a[1..], b);
    }
  }

  lemma {:induction false} JoinZeros(names: set<Name>, n: Name, size: nat, list: seq<Name>)
    requires forall m | m in list :: m in names && m != n
    ensures forall x | 0 <= x < |Join(Marked(names, n, size), list)| :: Join(Marked(names, n, size), list)[x] == 0
    decreases |list|
  {
    if list != [] { JoinZeros(names, n, size, list[1..]); }
  }

  // Behind the marked layer the blob is all zeros.
  lemma ZerosBehind(order: seq<Name>, names: set<Name>, size: nat, i: nat, x: nat)
    requires DistinctNames(order) && i < |order| && order[i] in names
    requires (Rank(order, names, i) + 1) * size <= x < |Drain(order, Marked(names, order[i], size))|
    ensures Drain(order, Marked(names, order[i], size))[x] == 0
  {
    var layers := Marked(names, order[i], size);
    assert layers.Keys == names;
    var eff, r := EffectiveOrder(order, names), Rank(order, names, i);
    EffectiveMembers(order, names);
    EffectiveDistinct(order, names);
    RankFinds(order, names, i);
    var front, back := eff[..r + 1], eff[r + 1..];
    assert eff == front + back;
    OthersBehind(eff, r);
    JoinSplits(layers, front, back);
    JoinLength(layers, front, size);
    JoinZeros(names, order[i], size, back);
  }

  lemma OthersBehind(l: seq<Name>, r: nat)
    requires DistinctNames(l) && r < |l|
    ensures forall m | m in l[r + 1..] :: m in l && m != l[r]
  {
    forall m | m in l[r + 1..] ensures m in l && m != l[r] {
      var j :| 0 <= j < |l[r + 1..]| && l[r + 1..][j] == m;
      assert l[r + 1 + j] == m;
    }
  }

  lemma OffsetsDiffer(i: nat, r: nat, per: nat, size: nat)
    requires 0 < i && r <= i && per >= size > 0 && (per > size || r < i)
    ensures i * per >= r * size + 1
  {
    MulMonotone(size, per, i);
    if per > size {
      MulMonotone(size + 1, per, i);
      assert i * (size + 1) == i * size + i;
    }
    MulMonotone(r, i, size);
    if r < i { MulMonotone(r + 1, i, size); assert (r + 1) * size == r * size + size; }
  }

  lemma MisalignedFails(order: seq<Name>, names: set<Name>, size: nat, i: nat)
    requires DistinctNames(order) && size > 0 && i < |order| && order[i] in names && !Aligned(order, names, size, i)
    ensures !Restores(order, Marked(names, order[i], size), Drain(order, Marked(names, order[i], size)), size, i)
  {
    var layers, n := Marked(names, order[i], size), |order|;
    assert layers.Keys == names;
    var blob, r := Drain(order, layers), Rank(order, names, i);
    BlobShape(order, layers, size, i);
    RankFinds(order, names, i);
    SliceLength(blob, n, i);
    if |names| < n {
      ShortPer(|names|, n, size);
      ShortSliceLeavesTail(order, layers, blob, size, i);
    } else {
      var per := |blob| / n;
      LongPer(|names|, n, size);
      OffsetsDiffer(i, r, per, size);
      var dst: seq<byte> := seq(size, _ => 0);
      LongSliceWrites(blob, n, i, size, dst);
      var x := i * per + size - 1;
      assert (r + 1) * size == r * size + size;
      ZerosBehind(order, names, size, i, x);
      assert WriteInto(Slice(blob, n, i), dst)[size - 1] == blob[x] == 0;
      assert layers[order[i]][size - 1] == 1;
    }
  }

  // Whatever names arrived, registered or not: a load gives registered layer i its own bytes for every content of the
  // arrived layers, all of one size, if and only if it is aligned.
  lemma LayerComesBackIff(order: seq<Name>, names: set<Name>, size: nat, i: nat)
    requires DistinctNames(order) && size > 0 && i < |order| && order[i] in names
    ensures (forall layers: Layers | layers.Keys == names && Uniform(layers, size) ::
               Restores(order, layers, Drain(order, layers), size, i))
      <==> Aligned(order, names, size, i)
  {
    if Aligned(order, names, size, i) {
      forall layers: Layers | layers.Keys == names && Uniform(layers, size)
        ensures Restores(order, layers, Drain(order, layers), size, i)
      {
        AlignedRestores(order, layers, size, i);
      }
    } else {
      MisalignedFails(order, names, size, i);
      assert Marked(names, order[i], size).Keys == names && Uniform(Marked(names, order[i], size), size);
    }
  }

  lemma {:induction false} BufferedUniform(arrivals: seq<Arrival>, size: nat)
    requires size > 0 && forall a | a in arrivals :: |a.bytes| == size
    ensures Uniform(Buffered(arrivals), size)
    decreases |arrivals|
  {
    if arrivals != [] {
      var k := |arrivals| - 1;
      assert arrivals[k] in arrivals && forall a | a in arrivals[..k] :: a in arrivals;
      BufferedUniform(arrivals[..k], size);
    }
  }

  lemma {:induction false} BufferedNames(arrivals: seq<Arrival>)
    requires forall a | a in arrivals :: a.bytes != []
    ensures forall n :: n in Buffered(arrivals) <==> exists j :: 0 <= j < |arrivals| && arrivals[j].name == n
    decreases |arrivals|
  {
    if arrivals != [] {
      var k := |arrivals| - 1;
      assert arrivals[k] in arrivals && forall a | a in arrivals[..k] :: a in arrivals;
      BufferedNames(arrivals[..k]);
      forall n ensures n in Buffered(arrivals) <==> exists j :: 0 <= j < |arrivals| && arrivals[j].name == n {
        if j :| 0 <= j < |arrivals| && arrivals[j].name == n { assert j < k ==> arrivals[..k][j].name == n; }
        if j :| 0 <= j < |arrivals[..k]| && arrivals[..k][j].name == n { assert arrivals[j].name == n; }
      }
    }
  }

  // Layers of the given names, in that order, with any contents of one size.
  ghost predicate Arrive(arrivals: seq<Arrival>, names: seq<Name>, size: nat) {
    |arrivals| == |names| && forall j | 0 <= j < |names| :: arrivals[j].name == names[j] && |arrivals[j].bytes| == size
  }

  function NameSet(names: seq<Name>): set<Name> {
    set n | n in names
  }

  lemma ArrivedNames(arrivals: seq<Arrival>, names: seq<Name>, size: nat)
    requires size > 0 && Arrive(arrivals, names, size)
    ensures Buffered(arrivals).Keys == NameSet(names) && Uniform(Buffered(arrivals), size)
  {
    forall a | a in arrivals ensures |a.bytes| == size {
      var j :| 0 <= j < |arrivals| && arrivals[j] == a;
    }
    BufferedNames(arrivals);
    BufferedUniform(arrivals, size);
    forall n ensures n in Buffered(arrivals) <==> n in NameSet(names) {
      if n in names { var j :| 0 <= j < |names| && names[j] == n; assert arrivals[j].name == n; }
    }
  }

  // The layers of a map, arriving under the given names.
  function Spell(layers: Layers, names: seq<Name>): seq<Arrival>
    requires forall n | n in names :: n in layers
  {
    seq(|names|, j requires 0 <= j < |names| => Arrival(names[j], layers[names[j]]))
  }

  lemma {:induction false} SpelledBuffered(layers: Layers, names: seq<Name>, n: Name)
    requires (forall m | m in names :: m in layers && layers[m] != [])
    ensures n in Buffered(Spell(layers, names)) ==> n in layers && Buffered(Spell(layers, names))[n] == layers[n]
    decreases |names|
  {
    if names != [] {
      var k := |names| - 1;
      assert forall m | m in names[..k] :: m in names;
      SpelledBuffered(layers, names[..k], n);
      assert Spell(layers, names)[..k] == Spell(layers, names[..k]);
      assert Spell(layers, names)[k] == Arrival(names[k], layers[names[k]]);
    }
  }

  // Whatever names arrive, in any order and with repeats: a load gives registered layer i the last bytes that arrived
  // for it, for every content of the arrivals, if and only if it is aligned.
  lemma ArrivedLayerComesBackIff(order: seq<Name>, names: seq<Name>, size: nat, i: nat)
    requires DistinctNames(order) && size > 0 && i < |order| && order[i] in names
    ensures (forall arrivals | Arrive(arrivals, names, size) ::
               Restores(order, Buffered(arrivals), Drain(order, Buffered(arrivals)), size, i))
      <==> Aligned(order, NameSet(names), size, i)
  {
    if Aligned(order, NameSet(names), size, i) {
      forall arrivals | Arrive(arrivals, names, size)
        ensures Restores(order, Buffered(arrivals), Drain(order, Buffered(arrivals)), size, i)
      {
        ArrivedNames(arrivals, names, size);
        AlignedRestores(order, Buffered(arrivals), size, i);
      }
    } else {
      var layers := Marked(NameSet(names), order[i], size);
      MisalignedFails(order, NameSet(names), size, i);
      var arrivals := Spell(layers, names);
      assert Arrive(arrivals, names, size);
      ArrivedNames(arrivals, names, size);
      forall n | n in Buffered(arrivals) ensures Buffered(arrivals)[n] == layers[n] { SpelledBuffered(layers, names, n); }
      assert Buffered(arrivals) == layers;
    }
  }
}
