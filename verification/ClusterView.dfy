/** Which nodes of a published cluster view may be routed to. */
module ClusterView {
  import opened Bytes

  // A view document after JSON parsing; ill-typed fields are absent.
  datatype NodeJson = NotObject | Node(id: Option<string>, state: Option<string>, weight: Option<real>)

  datatype Json = Malformed | Document(nodes: Option<seq<NodeJson>>)

  datatype Routed = Routed(id: string, weight: real)

  function Lower(c: char): char {
    if 'A' <= c <= 'Z' then (c as int + 32) as char else c
  }

  // The state contains "drain" in any case.
  predicate Draining(state: string) {
    exists i {:trigger Lower(state[i])} | 0 <= i <= |state| - 5 ::
      && Lower(state[i]) == 'd' && Lower(state[i + 1]) == 'r' && Lower(state[i + 2]) == 'a'
      && Lower(state[i + 3]) == 'i' && Lower(state[i + 4]) == 'n'
  }

  predicate Routable(n: NodeJson) {
    && n.Node? && n.id.Some? && n.id.value != ""
    && (n.state.Some? ==> !Draining(n.state.value))
  }

  // A missing, ill-typed or non-positive weight counts as 1.0.
  function Weight(n: NodeJson): (w: real)
    ensures w > 0.0
  {
    if n.Node? && n.weight.Some? && n.weight.value > 0.0 then n.weight.value else 1.0
  }

  function RoutableNodes(view: seq<NodeJson>): seq<Routed> {
    if view == [] then []
    else
      var n := view[|view| - 1];
      RoutableNodes(view[..|view| - 1]) + (if Routable(n) then [Routed(n.id.value, Weight(n))] else [])
  }

  // An absent key is an empty body and an empty set; a malformed document is an error.
  function ParseNodes(body: seq<byte>, json: seq<byte> -> Json): Option<seq<Routed>> {
    if body == [] then Some([])
    else match json(body)
      case Malformed => None
      case Document(None) => None
      case Document(Some(view)) => Some(RoutableNodes(view))
  }

  // ----- What the filters mean -------------------------------------------

  const UPPER := "ABCDEFGHIJKLMNOPQRSTUVWXYZ"
  const LOWER := "abcdefghijklmnopqrstuvwxyz"

  // Text in lower case, letter by letter from the alphabet.
  ghost predicate LowerCased(text: string, low: string) {
    && |low| == |text|
    && (forall i, k | 0 <= i < |text| && 0 <= k < 26 && text[i] == UPPER[k] :: low[i] == LOWER[k])
    && (forall i | 0 <= i < |text| && text[i] !in UPPER :: low[i] == text[i])
  }

  predicate Begins(text: string, word: string, i: int) {
    0 <= i <= |text| - |word| && text[i..i + |word|] == word
  }

  ghost predicate Contains(text: string, word: string) {
    exists i :: Begins(text, word, i)
  }

  // The entry is an object that names r and gives its weight, and is not being drained.
  ghost predicate Installs(n: NodeJson, r: Routed) {
    && n.Node? && n.id == Some(r.id) && r.id != ""
    && (n.state.Some? ==> forall low: string | LowerCased(n.state.value, low) :: !Contains(low, "drain"))
    && (if n.weight.Some? && n.weight.value > 0.0 then r.weight == n.weight.value else r.weight == 1.0)
  }

  lemma LowerIsLower(c: char)
    ensures c !in UPPER ==> Lower(c) == c
    ensures forall k | 0 <= k < 26 && c == UPPER[k] :: Lower(c) == LOWER[k]
  {
    if 'A' <= c <= 'Z' {
      assert UPPER[c as int - 65] == c;
    }
    forall k | 0 <= k < 26 ensures UPPER[k] as int == 65 + k && LOWER[k] as int == 97 + k {
      AlphabetAt(k);
    }
  }

  lemma AlphabetAt(k: nat)
    requires k < 26
    ensures UPPER[k] as int == 65 + k && LOWER[k] as int == 97 + k
  {
  }

  lemma LoweredIs(text: string, low: string)
    ensures LowerCased(text, low) <==> |low| == |text| && forall i | 0 <= i < |text| :: low[i] == Lower(text[i])
  {
    forall i | 0 <= i < |text| { LowerIsLower(text[i]); }
    if LowerCased(text, low) {
      forall i | 0 <= i < |text| ensures low[i] == Lower(text[i]) {
        if text[i] in UPPER { var k :| 0 <= k < 26 && UPPER[k] == text[i]; }
      }
    }
  }

  predicate DrainAt(low: string, i: nat)
    requires i + 5 <= |low|
  {
    low[i] == 'd' && low[i + 1] == 'r' && low[i + 2] == 'a' && low[i + 3] == 'i' && low[i + 4] == 'n'
  }

  lemma DrainWord(low: string, i: nat)
    requires i + 5 <= |low|
    ensures low[i..i + 5] == "drain" <==> DrainAt(low, i)
  {
    var w := low[i..i + 5];
    assert w[0] == low[i] && w[1] == low[i + 1] && w[2] == low[i + 2] && w[3] == low[i + 3] && w[4] == low[i + 4];
    if DrainAt(low, i) { assert w == ['d', 'r', 'a', 'i', 'n']; }
  }

  lemma DrainingIff(state: string, low: string)
    requires LowerCased(state, low)
    ensures Draining(state) <==> Contains(low, "drain")
  {
    LoweredIs(state, low);
    if i :| Begins(low, "drain", i) {
      DrainWord(low, i);
      assert Lower(state[i]) == low[i];
    }
    if Draining(state) {
      var i :| 0 <= i <= |state| - 5 && Lower(state[i]) == 'd' && Lower(state[i + 1]) == 'r' && Lower(state[i + 2]) == 'a'
        && Lower(state[i + 3]) == 'i' && Lower(state[i + 4]) == 'n';
      DrainWord(low, i);
      assert Begins(low, "drain", i);
    }
  }

  lemma InstallsIff(n: NodeJson, r: Routed)
    ensures Installs(n, r) <==> Routable(n) && r == Routed(n.id.value, Weight(n))
  {
    if n.Node? && n.state.Some? {
      var text := n.state.value;
      forall low: string | LowerCased(text, low) ensures Draining(text) <==> Contains(low, "drain") { DrainingIff(text, low); }
      var low := seq(|text|, i requires 0 <= i < |text| => Lower(text[i]));
      LoweredIs(text, low);
    }
  }

  // `from` are the positions of exactly the entries that install anything, in order, and each node is the one its entry
  // installs.
  ghost predicate Selects(view: seq<NodeJson>, from: seq<nat>, nodes: seq<Routed>) {
    && |from| == |nodes|
    && (forall j | 0 <= j < |from| :: from[j] < |view| && Installs(view[from[j]], nodes[j]))
    && (forall i, j | 0 <= i < j < |from| :: from[i] < from[j])
    && (forall i, r | 0 <= i < |view| && Installs(view[i], r) :: i in from)
  }

  lemma SelectsOneMore(view: seq<NodeJson>, from: seq<nat>, nodes: seq<Routed>, n: NodeJson, r: Routed)
    requires Selects(view, from, nodes) && Installs(n, r)
    ensures Selects(view + [n], from + [|view|], nodes + [r])
  {
    var more := view + [n];
    forall j | 0 <= j < |from| + 1 ensures (from + [|view|])[j] < |more| && Installs(more[(from + [|view|])[j]], (nodes + [r])[j]) {
      if j < |from| { assert more[from[j]] == view[from[j]]; }
    }
    forall i, q | 0 <= i < |more| && Installs(more[i], q) ensures i in from + [|view|] {
      if i < |view| { assert Installs(view[i], q); }
    }
  }

  lemma SelectsNoMore(view: seq<NodeJson>, from: seq<nat>, nodes: seq<Routed>, n: NodeJson)
    requires Selects(view, from, nodes) && forall r :: !Installs(n, r)
    ensures Selects(view + [n], from, nodes)
  {
    var more := view + [n];
    forall j | 0 <= j < |from| ensures Installs(more[from[j]], nodes[j]) { assert more[from[j]] == view[from[j]]; }
    forall i, q | 0 <= i < |more| && Installs(more[i], q) ensures i in from {
      assert i < |view| && Installs(view[i], q);
    }
  }

  // The nodes of a view are those its entries install, in view order.
  lemma {:induction false} InstalledInOrder(view: seq<NodeJson>) returns (from: seq<nat>)
    ensures Selects(view, from, RoutableNodes(view))
    decreases |view|
  {
    if view == [] {
      from := [];
    } else {
      var k := |view| - 1;
      var n := view[k];
      from := InstalledInOrder(view[..k]);
      assert view == view[..k] + [n];
      if Routable(n) {
        InstallsIff(n, Routed(n.id.value, Weight(n)));
        SelectsOneMore(view[..k], from, RoutableNodes(view[..k]), n, Routed(n.id.value, Weight(n)));
        from := from + [k];
      } else {
        forall r ensures !Installs(n, r) { InstallsIff(n, r); }
        SelectsNoMore(view[..k], from, RoutableNodes(view[..k]), n);
      }
    }
  }

  // A node is installed exactly when some entry of the view installs it.
  lemma InstalledIff(view: seq<NodeJson>, r: Routed)
    ensures r in RoutableNodes(view) <==> exists n :: n in view && Installs(n, r)
  {
    var from := InstalledInOrder(view);
    if n :| n in view && Installs(n, r) {
      var i :| 0 <= i < |view| && view[i] == n;
      assert i in from;
      var j :| 0 <= j < |from| && from[j] == i;
      InstallsIff(n, r);
      InstallsIff(n, RoutableNodes(view)[j]);
    }
  }

  // The accumulating loop of ParseNodes.
  method CollectNodes(view: seq<NodeJson>) returns (nodes: seq<Routed>)
    ensures nodes == RoutableNodes(view)
  {
    nodes := [];
    for i := 0 to |view|
      invariant nodes == RoutableNodes(view[..i])
    {
      assert view[..i + 1][..i] == view[..i];
      var n := view[i];
      if !n.Node? { continue; }
      if n.id.None? || n.id.value == "" { continue; }
      if n.state.Some? && Draining(n.state.value) { continue; }
      var weight := 1.0;
      if n.weight.Some? && n.weight.value > 0.0 { weight := n.weight.value; }
      nodes := nodes + [Routed(n.id.value, weight)];
    }
    assert view[..|view|] == view;
  }
}
