/** The disclosure engine of `src/app.rs`: the flattened node list, the view
    of its visible rows, and the selection cursor over that view. */
module App {
  import opened Wrappers
  import Der
  import opened Asn1Der
  import opened FlatTree

  /** `get_view`: the visible nodes, in list order. */
  function GetView(nodes: seq<Node>): (view: seq<Node>)
    ensures |view| <= |nodes|
  {
    if nodes == [] then []
    else (if nodes[0].visible then [nodes[0]] else []) + GetView(nodes[1..])
  }

  lemma {:induction false} GetViewAppend(a: seq<Node>, b: seq<Node>)
    ensures GetView(a + b) == GetView(a) + GetView(b)
    decreases |a|
  {
    if a == [] {
      assert a + b == b;
    } else {
      var head := if a[0].visible then [a[0]] else [];
      GetViewAppend(a[1..], b);
      GetViewHead(a + b);
      assert (a + b)[0] == a[0] && (a + b)[1..] == a[1..] + b;
      assert GetView(a + b) == head + (GetView(a[1..]) + GetView(b));
      assert head + (GetView(a[1..]) + GetView(b)) == (head + GetView(a[1..])) + GetView(b);
    }
  }

  lemma GetViewHead(nodes: seq<Node>)
    requires nodes != []
    ensures GetView(nodes) == (if nodes[0].visible then [nodes[0]] else []) + GetView(nodes[1..])
  {
  }

  /** The view holds exactly the visible nodes. */
  lemma {:induction false} GetViewMembers(nodes: seq<Node>)
    ensures forall x :: x in GetView(nodes) <==> x in nodes && x.visible
    decreases |nodes|
  {
    if nodes != [] {
      GetViewMembers(nodes[1..]);
      assert nodes == [nodes[0]] + nodes[1..];
    }
  }

  lemma {:induction false} GetViewNoneVisible(nodes: seq<Node>)
    requires forall x | x in nodes :: !x.visible
    ensures GetView(nodes) == []
    decreases |nodes|
  {
    if nodes != [] {
      assert nodes[0] in nodes;
      forall x | x in nodes[1..] ensures !x.visible {
        assert x in nodes;
      }
      GetViewNoneVisible(nodes[1..]);
    }
  }

  lemma ViewCons(x: Node, rest: seq<Node>)
    requires x.visible
    ensures GetView([x] + rest) == [x] + GetView(rest)
  {
    assert ([x] + rest)[1..] == rest;
  }

  /** Nodes numbered from `offset` by position. */
  predicate NumberedFrom(nodes: seq<Node>, offset: nat) {
    forall i | 0 <= i < |nodes| :: nodes[i].index == offset + i
  }

  /** Row `s` of the view of a numbered list is the node its index names, and
      exactly `s` visible nodes precede it; so the rows' indices strictly
      increase. */
  lemma {:induction false} ViewRow(nodes: seq<Node>, offset: nat, s: nat)
    requires NumberedFrom(nodes, offset) && s < |GetView(nodes)|
    ensures var t := GetView(nodes)[s].index - offset;
            && 0 <= t < |nodes| && nodes[t] == GetView(nodes)[s] && nodes[t].visible
            && |GetView(nodes[..t])| == s
    decreases |nodes|
  {
    var head := if nodes[0].visible then [nodes[0]] else [];
    var rest := nodes[1..];
    assert NumberedFrom(rest, offset + 1);
    if nodes[0].visible && s == 0 {
      assert nodes[..0] == [];
    } else {
      var s' := s - |head|;
      ViewRow(rest, offset + 1, s');
      var t' := GetView(rest)[s'].index - (offset + 1);
      assert GetView(nodes)[s] == GetView(rest)[s'];
      assert nodes[..t' + 1] == [nodes[0]] + rest[..t'];
      GetViewAppend([nodes[0]], rest[..t']);
      assert GetView([nodes[0]]) == head + GetView([nodes[0]][1..]);
      assert [nodes[0]][1..] == [];
    }
  }

  lemma ViewIndicesIncrease(nodes: seq<Node>, j: nat, k: nat)
    requires NumberedFrom(nodes, 0) && j < k < |GetView(nodes)|
    ensures GetView(nodes)[j].index < GetView(nodes)[k].index
  {
    ViewRow(nodes, 0, j);
    ViewRow(nodes, 0, k);
    var tj, tk := GetView(nodes)[j].index, GetView(nodes)[k].index;
    if tk < tj {
      ViewPrefixGrows(nodes, tk, tj);
    }
  }

  /** A visible node adds a row to the view of every longer prefix. */
  lemma ViewPrefixGrows(nodes: seq<Node>, t: nat, u: nat)
    requires t < u <= |nodes| && nodes[t].visible
    ensures |GetView(nodes[..u])| > |GetView(nodes[..t])|
  {
    var tail := nodes[t..u];
    assert nodes[..u] == nodes[..t] + tail;
    GetViewAppend(nodes[..t], tail);
    assert tail[0] == nodes[t];
    GetViewHead(tail);
  }

  /** The fields decoding fixed; toggling never changes them. */
  predicate SameShape(x: Node, y: Node) {
    x.tag == y.tag && x.value == y.value && x.level == y.level && x.expandable == y.expandable
  }

  /** What `update_nodes` does to one node of the scanned run, given whether
      the target is now expanded and the level just below the target. */
  function Cascade(n: Node, expanded: bool, nextLevel: nat): (r: Node)
  {
    if !expanded then n.(visible := false)
    else n.(expanded := false, visible := if n.level > nextLevel then false else true)
  }

  /** `update_nodes(t)` on the list `a`: the run of deeper nodes after `t` is
      rewritten, nothing else. */
  function Updated(a: seq<Node>, t: nat): (r: seq<Node>)
    requires t < |a|
    ensures |r| == |a|
    ensures forall i | 0 <= i < |a| :: SameShape(r[i], a[i]) && r[i].index == a[i].index
    ensures forall i | 0 <= i < |a| && !(t < i < SubtreeEnd(a, t)) :: r[i] == a[i]
    ensures a[t].expanded ==>
              forall i | t < i < SubtreeEnd(a, t) ::
                !r[i].expanded && (r[i].visible <==> r[i].level == a[t].level + 1)
    ensures !a[t].expanded ==>
              forall i | t < i < SubtreeEnd(a, t) ::
                !r[i].visible && r[i].expanded == a[i].expanded
  {
    Partial(a, t, SubtreeEnd(a, t))
  }

  /** The list once `update_nodes(t)` has rewritten the nodes strictly
      between `t` and `i`. */
  function Partial(a: seq<Node>, t: nat, i: nat): (r: seq<Node>)
    requires t < |a| && i <= |a|
  {
    seq(|a|, k requires 0 <= k < |a| =>
      if t < k < i then Cascade(a[k], a[t].expanded, a[t].level + 1) else a[k])
  }

  /** One more node of the run rewritten. */
  lemma PartialStep(a: seq<Node>, t: nat, i: nat)
    requires t < i < |a|
    ensures Partial(a, t, i)[i := Cascade(a[i], a[t].expanded, a[t].level + 1)] == Partial(a, t, i + 1)
  {
  }

  /** The list after `toggle_selected` acts on position `t`. */
  function Toggled(a: seq<Node>, t: nat): (r: seq<Node>)
    requires t < |a|
  {
    Updated(a[t := ToggleExpand(a[t])], t)
  }

  /** The run `update_nodes` rewrites is exactly the toggled node's subtree:
      for a list with the levels of a flattened well-shaped tree, the scan
      from `t` stops right after the flattening of the node at `t`, and the
      positions it passes over hold that node's descendants in the tree. */
  lemma ScanCoversSubtree(a: seq<Node>, tree: Node, t: nat)
    requires WellShaped(tree) && |a| == |Flatten(tree)| && t < |a|
    requires forall i | 0 <= i < |a| :: a[i].level == Flatten(tree)[i].level
    ensures SubtreeEnd(a, t) == t + |Flatten(Flatten(tree)[t])|
    ensures Flatten(tree)[t + 1 .. SubtreeEnd(a, t)] == Flatten(Flatten(tree)[t])[1..]
  {
    ScanEndOnLevels(a, Flatten(tree), a[t].level, t + 1);
    SubtreeEndIsSubtree(tree, t);
  }

  /** `next`: one row down, from the last row back to the first; no
      selection selects the first row. */
  function NextRow(selected: Option<nat>, rows: nat): (r: nat)
    requires rows > 0
    ensures r < rows
    ensures selected.None? ==> r == 0
    ensures selected.Some? && selected.value < rows ==> r == (selected.value + 1) % rows
  {
    match selected
    case Some(i) => if i >= rows - 1 then 0 else i + 1
    case None => 0
  }

  /** `prev`: one row up, from the first row round to the last; no selection
      selects the first row. */
  function PrevRow(selected: Option<nat>, rows: nat): (r: nat)
    requires rows > 0
    ensures selected.Some? && selected.value < rows ==> r < rows
    ensures selected.None? ==> r == 0
    ensures selected.Some? && selected.value < rows ==> r == (selected.value + rows - 1) % rows
  {
    match selected
    case Some(i) => if i == 0 then rows - 1 else i - 1
    case None => 0
  }

  lemma NavigationInverse(i: nat, rows: nat)
    requires i < rows
    ensures PrevRow(Some(NextRow(Some(i), rows)), rows) == i
    ensures NextRow(Some(PrevRow(Some(i), rows)), rows) == i
    ensures NextRow(Some(rows - 1), rows) == 0 && PrevRow(Some(0), rows) == rows - 1
  {
  }

  /** The node list of a running app: the flattening of `tree` with every
      node numbered by its position, and the root always shown. */
  predicate Shaped(a: seq<Node>, tree: Node) {
    && WellShaped(tree) && tree.level == 0
    && |a| == |Flatten(tree)|
    && (forall i | 0 <= i < |a| :: a[i].index == i && SameShape(a[i], Flatten(tree)[i]))
    && a[0].visible
  }

  /** A node below `t` in `t`'s run: its scanned subtree. */
  predicate Below(a: seq<Node>, t: int, i: int) {
    0 <= t < i < |a| && i < SubtreeEnd(a, t)
  }

  /** A scan ends no later than a position that stops it. */
  lemma {:induction false} ScanEndBefore(a: seq<Node>, lvl: nat, i: nat, j: nat)
    requires i <= j <= |a| && (j == |a| || a[j].level <= lvl)
    ensures ScanEnd(a, lvl, i) <= j
    decreases j - i
  {
    if i < j && a[i].level > lvl {
      ScanEndBefore(a, lvl, i + 1, j);
    }
  }

  /** Subtree runs nest: a node inside `t`'s run has its own run inside
      `t`'s, and lies deeper than `t`. */
  lemma SubtreeNested(a: seq<Node>, t: nat, u: nat)
    requires Below(a, t, u)
    ensures a[u].level > a[t].level && SubtreeEnd(a, u) <= SubtreeEnd(a, t)
  {
    var e := SubtreeEnd(a, t);
    ScanEndBefore(a, a[u].level, u + 1, e);
  }

  /** How visibility follows the expanded flags: a shown node has every node
      above it shown and expanded, and a shown, expanded node shows its
      children (the nodes one level down in its run). */
  ghost predicate Disclosed(a: seq<Node>) {
    forall t, i | 0 <= t < |a| && Below(a, t, i) ::
      && (a[i].visible ==> a[t].visible && a[t].expanded)
      && (a[i].level == a[t].level + 1 && a[t].visible && a[t].expanded ==> a[i].visible)
  }

  /** Only expandable nodes are ever expanded. */
  predicate ExpandsOnlyExpandable(a: seq<Node>) {
    forall i | 0 <= i < |a| :: a[i].expanded ==> a[i].expandable
  }

  /** The state `App::new` starts from: only the root shown, nothing
      expanded. */
  lemma InitiallyDisclosed(a: seq<Node>)
    requires |a| > 0 && a[0].visible
    requires forall i | 0 <= i < |a| :: !a[i].expanded && (a[i].visible <==> i == 0)
    ensures Disclosed(a) && ExpandsOnlyExpandable(a)
    ensures GetView(a) == [a[0]]
  {
    assert a == [a[0]] + a[1..];
    GetViewAppend([a[0]], a[1..]);
    GetViewNoneVisible(a[1..]);
  }

  /** The effect of `toggle_selected` at `t`, as a relation between the
      list before (`a`) and after (`b`). */
  ghost predicate ToggleStep(a: seq<Node>, b: seq<Node>, t: nat) {
    StepFrame(a, b, t) && StepRun(a, b, t)
  }

  /** What a toggle step keeps: the decoded fields and numbering of every
      node, every node outside `t`'s run, and `t`'s visibility. */
  ghost predicate StepFrame(a: seq<Node>, b: seq<Node>, t: nat) {
    && t < |a| == |b|
    && (forall i | 0 <= i < |a| :: SameShape(b[i], a[i]) && b[i].index == a[i].index)
    && b[t].visible == a[t].visible && b[t].expanded == !a[t].expanded
    && (forall i | 0 <= i < |a| && !Below(a, t, i) && i != t :: b[i] == a[i])
  }

  /** What a toggle step does to `t`'s run: after an expand the run is
      collapsed with only its top level shown; after a collapse it is
      hidden with its flags kept. */
  ghost predicate StepRun(a: seq<Node>, b: seq<Node>, t: nat)
    requires t < |a| == |b|
  {
    && (b[t].expanded ==>
          forall i | Below(a, t, i) :: !b[i].expanded && (b[i].visible <==> b[i].level == a[t].level + 1))
    && (!b[t].expanded ==>
          forall i | Below(a, t, i) :: !b[i].visible && b[i].expanded == a[i].expanded)
  }

  lemma ToggledIsStep(a: seq<Node>, t: nat)
    requires t < |a| && a[t].value.IsContainer()
    ensures ToggleStep(a, Toggled(a, t), t)
  {
    var a' := a[t := ToggleExpand(a[t])];
    ScanEndOnLevels(a, a', a[t].level, t + 1);
    var b := Updated(a', t);
    assert b[t] == a'[t];
    forall i | 0 <= i < |a| && !Below(a, t, i) && i != t
      ensures b[i] == a[i]
    {
      assert b[i] == a'[i];
    }
  }

  /** A toggle step keeps a list shaped, keeps the row showing the toggled
      node, and leaves everything outside the node's subtree alone. */
  lemma StepShaped(a: seq<Node>, b: seq<Node>, tree: Node, s: nat, t: nat)
    requires Shaped(a, tree) && StepFrame(a, b, t)
    requires s < |GetView(a)| && GetView(a)[s].index == t
    ensures Shaped(b, tree)
    ensures s < |GetView(b)| && GetView(b)[s].index == t
  {
    assert b[..t] == a[..t];
    assert b[0] == a[0] || t == 0;
    ViewRow(a, 0, s);
    KeepsRow(a, b, t, s);
  }

  /** `b` differs from `a` at most in positions `lo` to `hi - 1`. */
  predicate SameOutside(a: seq<Node>, b: seq<Node>, lo: int, hi: int) {
    |a| == |b| && forall i | 0 <= i < |a| && !(lo <= i < hi) :: b[i] == a[i]
  }

  /** The run a toggle step may change is the toggled node's subtree. */
  lemma StepWithinSubtree(a: seq<Node>, b: seq<Node>, tree: Node, t: nat)
    requires Shaped(a, tree) && StepFrame(a, b, t)
    ensures SameOutside(a, b, t, t + |Flatten(Flatten(tree)[t])|)
  {
    ScanCoversSubtree(a, tree, t);
  }

  /** Toggling a shown container keeps both disclosure invariants. */
  lemma StepDisclosed(a: seq<Node>, b: seq<Node>, t: nat)
    requires ToggleStep(a, b, t) && a[t].visible && a[t].expandable
    requires Disclosed(a) && ExpandsOnlyExpandable(a)
    ensures Disclosed(b) && ExpandsOnlyExpandable(b)
  {
    var e := SubtreeEnd(a, t);
    forall u, i | 0 <= u < |b| && Below(b, u, i)
      ensures b[i].visible ==> b[u].visible && b[u].expanded
      ensures b[i].level == b[u].level + 1 && b[u].visible && b[u].expanded ==> b[i].visible
    {
      ScanEndOnLevels(a, b, a[u].level, u + 1);
      assert Below(a, u, i);
      if u == t {
      } else if Below(a, t, u) {
        SubtreeNested(a, t, u);
        assert Below(a, t, i);
      } else {
        if t <= i < e {
          assert Below(a, u, t);
          SubtreeNested(a, u, t);
          if i > t {
            assert Below(a, t, i);
          }
        }
      }
    }
    forall i | 0 <= i < |b| && b[i].expanded
      ensures b[i].expandable
    {
    }
  }

  /** The flattened list with its first `i` nodes numbered by position. */
  function Numbered(f: seq<Node>, i: nat): (r: seq<Node>)
    requires i <= |f|
  {
    seq(|f|, k requires 0 <= k < |f| => if k < i then f[k].(index := k) else f[k])
  }

  lemma NumberedStep(f: seq<Node>, i: nat)
    requires i < |f|
    ensures Numbered(f, i)[i := f[i].(index := i)] == Numbered(f, i + 1)
  {
  }

  /** What `App::new` builds from a decoded tree: the root made visible and
      flattened, every node numbered by its position. It satisfies the
      invariant with the root as the only row, selected. */
  lemma InitiallyConsistent(parsed: Node)
    requires WellShaped(parsed) && Pristine(parsed) && parsed.level == 0
    ensures var root := parsed.(visible := true);
            var b := Numbered(Flatten(root), |Flatten(root)|);
            && Consistent(b, root, [b[0]], Some(0))
            && (forall i | 0 <= i < |b| :: (b[i].visible <==> i == 0) && !b[i].expanded)
  {
    var root := parsed.(visible := true);
    var f := Flatten(root);
    FlattenPristine(parsed);
    assert f == [root] + Flatten(parsed)[1..];
    var b := Numbered(f, |f|);
    forall i | 0 <= i < |b|
      ensures (b[i].visible <==> i == 0) && !b[i].expanded
    {
      if i > 0 {
        assert f[i] == Flatten(parsed)[i];
      }
    }
    InitiallyDisclosed(b);
  }

  /** The invariant of a running app, on its node list, decoded tree, view
      and selection. */
  ghost predicate Consistent(a: seq<Node>, tree: Node, view: seq<Node>, state: Option<nat>) {
    && Shaped(a, tree)
    && Disclosed(a) && ExpandsOnlyExpandable(a)
    && view == GetView(a)
    && (state.Some? ==> state.value < |view|)
  }

  /** Toggling the node behind the selected row keeps the invariant, keeps
      the row where it is, flips the node and changes nothing outside its
      subtree. */
  lemma ToggleConsistent(a: seq<Node>, tree: Node, s: nat, t: nat)
    requires Consistent(a, tree, GetView(a), Some(s))
    requires GetView(a)[s].index == t && t < |a| && a[t].expandable
    ensures var b := Toggled(a, t);
            && Consistent(b, tree, GetView(b), Some(s))
            && GetView(b)[s].index == t
            && b[t].expanded == !a[t].expanded
            && SameOutside(a, b, t, t + |Flatten(Flatten(tree)[t])|)
  {
    SelectedIsContainer(a, tree, t);
    ToggleKeepsShape(a, tree, s, t);
    ToggleKeepsDisclosure(a, tree, s, t);
    ToggleFrame(a, tree, t);
  }

  /** An expandable node of a shaped list holds a container. */
  lemma SelectedIsContainer(a: seq<Node>, tree: Node, t: nat)
    requires Shaped(a, tree) && t < |a| && a[t].expandable
    ensures a[t].value.IsContainer()
  {
    assert SameShape(a[t], Flatten(tree)[t]);
    FlattenWellShaped(tree, t);
  }

  lemma ToggleKeepsShape(a: seq<Node>, tree: Node, s: nat, t: nat)
    requires Shaped(a, tree) && t < |a| && a[t].value.IsContainer()
    requires s < |GetView(a)| && GetView(a)[s].index == t
    ensures var b := Toggled(a, t);
            Shaped(b, tree) && s < |GetView(b)| && GetView(b)[s].index == t
  {
    ToggledIsStep(a, t);
    StepShaped(a, Toggled(a, t), tree, s, t);
  }

  lemma ToggleKeepsDisclosure(a: seq<Node>, tree: Node, s: nat, t: nat)
    requires Shaped(a, tree) && Disclosed(a) && ExpandsOnlyExpandable(a)
    requires t < |a| && a[t].value.IsContainer() && a[t].expandable
    requires s < |GetView(a)| && GetView(a)[s].index == t
    ensures Disclosed(Toggled(a, t)) && ExpandsOnlyExpandable(Toggled(a, t))
  {
    ViewRow(a, 0, s);
    ToggledIsStep(a, t);
    StepDisclosed(a, Toggled(a, t), t);
  }

  lemma ToggleFrame(a: seq<Node>, tree: Node, t: nat)
    requires Shaped(a, tree) && t < |a| && a[t].value.IsContainer()
    ensures var b := Toggled(a, t);
            b[t].expanded == !a[t].expanded && SameOutside(a, b, t, t + |Flatten(Flatten(tree)[t])|)
  {
    ToggledIsStep(a, t);
    StepWithinSubtree(a, Toggled(a, t), tree, t);
  }

  class App {
    var nodes: array<Node>
    var view: seq<Node>
    var state: Option<nat>
    /** The decoded root (made visible) that `nodes` flattens. */
    ghost var tree: Node

    ghost predicate Valid()
      reads this, nodes
    {
      Consistent(nodes[..], tree, view, state)
    }

    /** `App::new` once decoding has succeeded: the root is made visible, the
        tree flattened, each node numbered by its position, the view built
        and the first row selected. */
    constructor (parsed: Node)
      requires WellShaped(parsed) && Pristine(parsed) && parsed.level == 0
      ensures Valid() && fresh(nodes)
      ensures tree == parsed.(visible := true)
      ensures forall i | 0 <= i < nodes.Length :: nodes[i] == Flatten(tree)[i].(index := i)
      ensures forall i | 0 <= i < nodes.Length :: nodes[i].visible <==> i == 0
      ensures forall i | 0 <= i < nodes.Length :: !nodes[i].expanded
      ensures view == [nodes[0]] && state == Some(0)
    {
      var root := parsed.(visible := true);
      var flat := FlattenNodes(root);
      var a := new Node[|flat|](i requires 0 <= i < |flat| => flat[i]);
      assert a[..] == Numbered(flat, 0);
      var i := 0;
      while i < a.Length
        invariant 0 <= i <= a.Length
        invariant a[..] == Numbered(flat, i)
      {
        ghost var before := a[..];
        a[i] := a[i].(index := i);
        assert a[..] == before[i := flat[i].(index := i)];
        NumberedStep(flat, i);
        i := i + 1;
      }
      InitiallyConsistent(parsed);
      nodes := a;
      tree := root;
      state := Some(0);
      view := GetView(a[..]);
    }

    /** `App::new`: decode the input at level 0; a decoding error is
        returned as it is. */
    static method New(lib: Der.Library, input: seq<Der.byte>) returns (r: Result<App, DecodeError>)
      requires Der.Sound(lib)
      ensures r.Err? <==> ParseAsn1(lib, input, 0).Err?
      ensures r.Ok? ==> fresh(r.value) && r.value.Valid()
      ensures r.Ok? ==> r.value.tree == ParseAsn1(lib, input, 0).value.(visible := true)
      ensures r.Ok? ==> r.value.view == [r.value.nodes[0]] && r.value.state == Some(0)
      ensures r.Ok? ==> forall i | 0 <= i < r.value.nodes.Length ::
                && r.value.nodes[i] == Flatten(r.value.tree)[i].(index := i)
                && (r.value.nodes[i].visible <==> i == 0)
                && !r.value.nodes[i].expanded
    {
      var parsed := ParseAsn1(lib, input, 0);
      if parsed.Err? {
        return Err(parsed.error);
      }
      var app := new App(parsed.value);
      return Ok(app);
    }

    /** Whether `toggle_selected` acts: a row is selected and its node is
        expandable. */
    ghost predicate Toggles()
      reads this, nodes
      requires Valid()
    {
      state.Some? && view[state.value].index < nodes.Length && nodes[view[state.value].index].expandable
    }

    /** `update_nodes`: scan forward from `index + 1` while nodes are deeper
        than the target; hide them all if the target is now collapsed, or show
        the ones one level down and collapse and hide the rest if it is now
        expanded. */
    method UpdateNodes(index: nat)
      requires index < nodes.Length
      modifies nodes
      ensures nodes[..] == Updated(old(nodes[..]), index)
    {
      ghost var a := nodes[..];
      ghost var end := SubtreeEnd(a, index);
      var i := index + 1;
      var nextLevel := nodes[index].level + 1;
      while i < nodes.Length
        invariant index + 1 <= i <= end
        invariant ScanEnd(a, a[index].level, i) == end
        invariant nodes[..] == Partial(a, index, i)
        decreases nodes.Length - i
      {
        if nodes[i].level < nextLevel {
          break;
        }
        var n := nodes[i];
        if !nodes[index].expanded {
          n := n.(visible := false);
        } else {
          n := n.(expanded := false);
          if n.level > nextLevel {
            n := n.(visible := false);
          } else {
            n := n.(visible := true);
          }
        }
        ghost var before := nodes[..];
        nodes[i] := n;
        assert nodes[..] == before[i := n];
        PartialStep(a, index, i);
        i := i + 1;
      }
      assert i == end;
    }

    /** `toggle_selected`: flip the selected node and cascade to its subtree.
        With no selection, or on a row that is not expandable, nothing
        changes. The selection stays on the toggled row. */
    method ToggleSelected()
      requires Valid()
      modifies nodes, this`view
      ensures Valid()
      ensures nodes == old(nodes) && state == old(state) && tree == old(tree)
      ensures !old(Toggles()) ==> nodes[..] == old(nodes[..]) && view == old(view)
      ensures old(Toggles()) ==>
                var t := old(view[state.value].index);
                && nodes[..] == Toggled(old(nodes[..]), t)
                && view[state.value].index == t
                && nodes[t].expanded == !old(nodes[t].expanded)
                && SameOutside(old(nodes[..]), nodes[..], t, t + |Flatten(Flatten(tree)[t])|)
    {
      if state.Some? {
        var selected := state.value;
        ViewRow(nodes[..], 0, selected);
        var nodeIndex := view[selected].index;
        if nodes[nodeIndex].expandable {
          ghost var a := nodes[..];
          ToggleConsistent(a, tree, selected, nodeIndex);
          nodes[nodeIndex] := ToggleExpand(nodes[nodeIndex]);
          assert nodes[..] == a[nodeIndex := ToggleExpand(a[nodeIndex])];
          UpdateNodes(nodeIndex);
          view := GetView(nodes[..]);
        }
      }
    }

    /** `copy_selected_value`: the selected node's rendering, if a row is
        selected. */
    method CopySelectedValue() returns (r: Option<Rendering>)
      requires Valid()
      ensures state.None? <==> r.None?
      ensures state.Some? ==>
                var t := view[state.value].index;
                t < nodes.Length && nodes[t].visible && r == Some(DisplayValue(nodes[t]))
    {
      if state.None? {
        return None;
      }
      ViewRow(nodes[..], 0, state.value);
      GetViewMembers(nodes[..]);
      var nodeIndex := view[state.value].index;
      return Some(DisplayValue(nodes[nodeIndex]));
    }

    /** `next`. */
    method Next()
      requires Valid()
      modifies this`state
      ensures Valid()
      ensures state == Some(NextRow(old(state), |view|))
    {
      state := Some(NextRow(state, |view|));
    }

    /** `prev`. */
    method Prev()
      requires Valid()
      modifies this`state
      ensures Valid()
      ensures state == Some(PrevRow(old(state), |view|))
    {
      state := Some(PrevRow(state, |view|));
    }

    /** `first`. */
    method First()
      requires Valid()
      modifies this`state
      ensures Valid() && state == Some(0)
    {
      state := Some(0);
    }

    /** `last`. */
    method Last()
      requires Valid()
      modifies this`state
      ensures Valid() && state == Some(|view| - 1)
    {
      state := Some(|view| - 1);
    }
  }

  /** A change that leaves everything before `t` alone and keeps `t` shown
      keeps the row that shows `t`. */
  lemma KeepsRow(a: seq<Node>, b: seq<Node>, t: nat, s: nat)
    requires t < |a| == |b| && |GetView(a[..t])| == s
    requires b[..t] == a[..t] && b[t].visible
    ensures s < |GetView(b)| && GetView(b)[s] == b[t]
  {
    var pre, post := b[..t], b[t + 1..];
    assert b == pre + ([b[t]] + post);
    GetViewAppend(pre, [b[t]] + post);
    ViewCons(b[t], post);
  }
}
