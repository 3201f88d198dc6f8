/** What pre-order flattening guarantees about levels, the fact the
    disclosure scan of `update_nodes` rests on: in `flatten_nodes` output the
    nodes that follow position p and lie strictly deeper than it are exactly
    p's subtree, so a forward scan that stops at the first node no deeper than
    p visits precisely p's descendants. */
module FlatTree {
  import opened Asn1Der

  /** The first position at or after `i` whose level is at most `lvl`, or the
      length: where a forward scan with that stopping rule ends. */
  function ScanEnd(a: seq<Node>, lvl: nat, i: nat): (e: nat)
    requires i <= |a|
    decreases |a| - i
    ensures i <= e <= |a|
    ensures forall k | i <= k < e :: a[k].level > lvl
    ensures e < |a| ==> a[e].level <= lvl
  {
    if i == |a| || a[i].level <= lvl then i else ScanEnd(a, lvl, i + 1)
  }

  /** The end of the scan `update_nodes` runs from position `t`. */
  function SubtreeEnd(a: seq<Node>, t: nat): (e: nat)
    requires t < |a|
    ensures t < e <= |a|
  {
    ScanEnd(a, a[t].level, t + 1)
  }

  /** The scan's end is determined by the two facts its contract states. */
  lemma {:induction false} ScanEndUnique(a: seq<Node>, lvl: nat, i: nat, e: nat)
    requires i <= e <= |a|
    requires forall k | i <= k < e :: a[k].level > lvl
    requires e < |a| ==> a[e].level <= lvl
    ensures ScanEnd(a, lvl, i) == e
    decreases e - i
  {
    if i < e {
      ScanEndUnique(a, lvl, i + 1, e);
    }
  }

  /** Sequences with the same levels scan alike. */
  lemma ScanEndOnLevels(a: seq<Node>, b: seq<Node>, lvl: nat, i: nat)
    requires |a| == |b| && i <= |a|
    requires forall k | 0 <= k < |a| :: a[k].level == b[k].level
    ensures ScanEnd(a, lvl, i) == ScanEnd(b, lvl, i)
  {
    ScanEndUnique(b, lvl, i, ScanEnd(a, lvl, i));
  }

  /** Every node after the first in a well-shaped flattening is deeper than
      the first. */
  lemma {:induction false} FlattenDeeper(n: Node)
    requires WellShaped(n)
    ensures forall k | 1 <= k < |Flatten(n)| :: Flatten(n)[k].level > n.level
    decreases n, 1
  {
    if n.value.Sequence? {
      FlattenAllDeeper(n.value.children, n.level + 1);
    } else if n.value.IsWrapper() {
      FlattenDeeper(n.value.inner);
    }
  }

  lemma {:induction false} FlattenAllDeeper(cs: seq<Node>, lvl: nat)
    requires forall c | c in cs :: c.level == lvl && WellShaped(c)
    ensures forall k | 0 <= k < |FlattenAll(cs)| :: FlattenAll(cs)[k].level >= lvl
    decreases cs, 0
  {
    if cs != [] {
      FlattenDeeper(cs[0]);
      FlattenAllDeeper(cs[1..], lvl);
    }
  }

  /** The block property, for one tree: the run as long as the flattening
      of the node at position p fits after p, every node inside the run
      after p is deeper than p, and the node right after the run (if any) is
      not. */
  predicate Block(a: seq<Node>, p: nat)
    requires p < |a|
  {
    var s := |Flatten(a[p])|;
    && p + s <= |a|
    && (forall k | p < k < p + s :: a[k].level > a[p].level)
    && (p + s < |a| ==> a[p + s].level <= a[p].level)
  }

  lemma {:induction false} FlattenBlock(n: Node, p: nat)
    requires WellShaped(n) && p < |Flatten(n)|
    ensures Block(Flatten(n), p)
    decreases n, 1
  {
    if p == 0 {
      FlattenRootBlock(n);
    } else if n.value.Sequence? {
      assert Flatten(n) == [n] + FlattenAll(n.value.children);
      ChildrenBlock(n, p);
    } else {
      assert Flatten(n) == [n] + Flatten(n.value.inner);
      InnerBlock(n, p);
    }
  }

  /** A block stays a block when more nodes follow, provided the first of
      them is no deeper than the block's head. */
  lemma AppendBlockLeft(first: seq<Node>, rest: seq<Node>, p: nat)
    requires p < |first| && Block(first, p)
    requires p + |Flatten(first[p])| == |first| && rest != [] ==> rest[0].level <= first[p].level
    ensures Block(first + rest, p)
  {
    var all := first + rest;
    var s := |Flatten(first[p])|;
    assert all[p] == first[p];
    forall k | p < k < p + s
      ensures all[k].level > all[p].level
    {
      assert all[k] == first[k];
    }
    if p + s < |all| {
      if p + s < |first| {
        assert all[p + s] == first[p + s];
      } else {
        assert all[p + s] == rest[0];
      }
    }
  }

  /** A block stays a block when nodes precede it. */
  lemma AppendBlockRight(first: seq<Node>, rest: seq<Node>, p: nat)
    requires |first| <= p < |first| + |rest| && Block(rest, p - |first|)
    ensures Block(first + rest, p)
  {
    var all := first + rest;
    var q := p - |first|;
    var s := |Flatten(rest[q])|;
    assert all[p] == rest[q];
    forall k | p < k < p + s
      ensures all[k].level > all[p].level
    {
      assert all[k] == rest[k - |first|];
    }
    if p + s < |all| {
      assert all[p + s] == rest[q + s];
    }
  }

  /** A block among a sequence's flattened children stays a block with the
      sequence node in front. */
  lemma ChildrenBlock(n: Node, p: nat)
    requires WellShaped(n) && n.value.Sequence?
    requires 1 <= p < 1 + |FlattenAll(n.value.children)|
    ensures Block([n] + FlattenAll(n.value.children), p)
    decreases n, 0
  {
    ChildrenShaped(n);
    FlattenAllBlock(n.value.children, n.level + 1, p - 1);
    AppendBlockRight([n], FlattenAll(n.value.children), p);
  }

  lemma ChildrenShaped(n: Node)
    requires WellShaped(n) && n.value.Sequence?
    ensures forall c | c in n.value.children :: c.level == n.level + 1 && WellShaped(c)
  {
  }

  /** A block inside a wrapper's flattened inner node stays a block with the
      wrapper in front. */
  lemma InnerBlock(n: Node, p: nat)
    requires WellShaped(n) && !n.value.Sequence? && n.value.IsWrapper()
    requires 1 <= p < 1 + |Flatten(n.value.inner)|
    ensures Block([n] + Flatten(n.value.inner), p)
    decreases n, 0
  {
    FlattenBlock(n.value.inner, p - 1);
    AppendBlockRight([n], Flatten(n.value.inner), p);
  }

  /** The whole flattening is the block of its first node. */
  lemma FlattenRootBlock(n: Node)
    requires WellShaped(n)
    ensures Block(Flatten(n), 0)
  {
    var f := Flatten(n);
    FlattenDeeper(n);
  }

  /** The flattening of a non-empty sibling list: the first sibling's
      flattening, then the rest, which (if any) starts with the second
      sibling. */
  lemma FlattenAllSplit(cs: seq<Node>)
    requires cs != []
    ensures FlattenAll(cs) == Flatten(cs[0]) + FlattenAll(cs[1..])
    ensures |cs| > 1 ==> FlattenAll(cs[1..])[0] == cs[1]
  {
    if |cs| > 1 {
      assert FlattenAll(cs[1..]) == Flatten(cs[1..][0]) + FlattenAll(cs[1..][1..]);
    }
  }

  /** The block property for a list of siblings at level `lvl`. */
  lemma {:induction false} FlattenAllBlock(cs: seq<Node>, lvl: nat, p: nat)
    requires forall c | c in cs :: c.level == lvl && WellShaped(c)
    requires p < |FlattenAll(cs)|
    ensures Block(FlattenAll(cs), p)
    decreases cs, 1
  {
    if p < |Flatten(cs[0])| {
      FirstSiblingBlock(cs, lvl, p);
    } else {
      FlattenAllSplit(cs);
      LaterSiblingBlock(cs, lvl, p);
    }
  }

  lemma TailSiblings(cs: seq<Node>, lvl: nat)
    requires cs != [] && forall c | c in cs :: c.level == lvl && WellShaped(c)
    ensures forall c | c in cs[1..] :: c.level == lvl && WellShaped(c)
  {
    assert forall c | c in cs[1..] :: c in cs;
  }

  /** A block inside a later sibling's flattening stays a block with the
      first sibling's flattening in front. */
  lemma LaterSiblingBlock(cs: seq<Node>, lvl: nat, p: nat)
    requires cs != [] && forall c | c in cs :: c.level == lvl && WellShaped(c)
    requires |Flatten(cs[0])| <= p < |Flatten(cs[0])| + |FlattenAll(cs[1..])|
    ensures Block(Flatten(cs[0]) + FlattenAll(cs[1..]), p)
    decreases cs, 0
  {
    var q := p - |Flatten(cs[0])|;
    TailSiblings(cs, lvl);
    FlattenAllBlock(cs[1..], lvl, q);
    AppendBlockRight(Flatten(cs[0]), FlattenAll(cs[1..]), p);
  }

  /** A block inside the first sibling's flattening stays a block once the
      later siblings follow, as they start at the first sibling's level. */
  lemma FirstSiblingBlock(cs: seq<Node>, lvl: nat, p: nat)
    requires forall c | c in cs :: c.level == lvl && WellShaped(c)
    requires cs != [] && p < |Flatten(cs[0])|
    ensures Block(FlattenAll(cs), p)
    decreases cs, 0
  {
    var first := Flatten(cs[0]);
    var rest := FlattenAll(cs[1..]);
    FlattenAllSplit(cs);
    FlattenBlock(cs[0], p);
    if rest != [] {
      assert cs[1] in cs;
      FlattenDeeper(cs[0]);
      assert first[p].level >= lvl;
    }
    AppendBlockLeft(first, rest, p);
  }

  /** The scan from position t of a flattened well-shaped tree ends exactly
      after t's subtree, and the nodes it passes over are the descendants of
      the node at t, in pre-order. */
  lemma SubtreeEndIsSubtree(n: Node, t: nat)
    requires WellShaped(n) && t < |Flatten(n)|
    ensures SubtreeEnd(Flatten(n), t) == t + |Flatten(Flatten(n)[t])|
    ensures Flatten(n)[t + 1 .. SubtreeEnd(Flatten(n), t)] == Flatten(Flatten(n)[t])[1..]
  {
    FlattenBlock(n, t);
    BlockEnd(Flatten(n), t);
    FlattenSlice(n, t);
  }

  /** Position `t` of `a` starts a run that is the flattening of the node
      there. */
  predicate RunAt(a: seq<Node>, t: nat)
    requires t < |a|
  {
    t + |Flatten(a[t])| <= |a| && a[t .. t + |Flatten(a[t])|] == Flatten(a[t])
  }

  /** The flattening of a tree holds the flattening of each of its nodes as a
      contiguous run starting at that node. */
  lemma {:induction false} FlattenSlice(n: Node, t: nat)
    requires t < |Flatten(n)|
    ensures RunAt(Flatten(n), t)
    decreases n, 1
  {
    if t == 0 {
      SliceAtRoot(n);
    } else if n.value.Sequence? {
      var g := FlattenAll(n.value.children);
      assert Flatten(n) == [n] + g;
      FlattenAllSlice(n.value.children, t - 1);
      SliceOfTail(Flatten(n), g, t);
    } else {
      var g := Flatten(n.value.inner);
      assert Flatten(n) == [n] + g;
      FlattenSlice(n.value.inner, t - 1);
      SliceOfTail(Flatten(n), g, t);
    }
  }

  /** A flattening is the run of its own first node. */
  lemma SliceAtRoot(n: Node)
    ensures RunAt(Flatten(n), 0)
  {
    var f := Flatten(n);
    assert f[0] == n;
    assert f[..|f|] == f;
  }

  /** The same for a list of siblings. */
  lemma {:induction false} FlattenAllSlice(cs: seq<Node>, t: nat)
    requires t < |FlattenAll(cs)|
    ensures RunAt(FlattenAll(cs), t)
    decreases cs, 0
  {
    var head, tail := Flatten(cs[0]), FlattenAll(cs[1..]);
    assert FlattenAll(cs) == head + tail;
    if t < |head| {
      FlattenSlice(cs[0], t);
      SliceBefore(FlattenAll(cs), head, tail, t);
    } else {
      FlattenAllSlice(cs[1..], t - |head|);
      SliceAfterNodes(FlattenAll(cs), head, tail, t);
    }
  }

  /** A node's run inside the tail of a sequence is its run in the
      sequence, one position later. */
  lemma SliceOfTail(f: seq<Node>, g: seq<Node>, t: nat)
    requires 0 < t < |f| && f[1..] == g && RunAt(g, t - 1)
    ensures RunAt(f, t)
  {
    var sub := Flatten(g[t - 1]);
    assert f[t] == g[t - 1];
    assert forall j | t <= j < t + |sub| :: f[j] == g[j - 1];
  }

  /** A node's run inside the first part of a concatenation is its run in
      the whole. */
  lemma SliceBefore(all: seq<Node>, a: seq<Node>, b: seq<Node>, t: nat)
    requires all == a + b && t < |a| && RunAt(a, t)
    ensures RunAt(all, t)
  {
    assert all[t] == a[t];
  }

  /** A node's run inside the second part of a concatenation is its run in
      the whole, shifted by the first part's length. */
  lemma SliceAfterNodes(all: seq<Node>, a: seq<Node>, b: seq<Node>, t: nat)
    requires all == a + b && |a| <= t < |all| && RunAt(b, t - |a|)
    ensures RunAt(all, t)
  {
    var u := t - |a|;
    var sub := Flatten(b[u]);
    assert all[t] == b[u];
    assert forall j | t <= j < t + |sub| :: all[j] == b[j - |a|];
  }

  /** The scan from the head of a block ends right after the block. */
  lemma BlockEnd(a: seq<Node>, t: nat)
    requires t < |a| && Block(a, t)
    ensures SubtreeEnd(a, t) == t + |Flatten(a[t])|
  {
    ScanEndUnique(a, a[t].level, t + 1, t + |Flatten(a[t])|);
  }

  /** Decoding leaves every node of the flattened list collapsed, hidden and
      numbered 0. */
  lemma {:induction false} FlattenPristine(n: Node)
    requires Pristine(n)
    ensures forall k | 0 <= k < |Flatten(n)| ::
              !Flatten(n)[k].visible && !Flatten(n)[k].expanded && Flatten(n)[k].index == 0
    decreases n, 1
  {
    if n.value.Sequence? {
      FlattenAllPristine(n.value.children);
    } else if n.value.IsWrapper() {
      FlattenPristine(n.value.inner);
    }
  }

  lemma {:induction false} FlattenAllPristine(cs: seq<Node>)
    requires forall c | c in cs :: Pristine(c)
    ensures forall k | 0 <= k < |FlattenAll(cs)| ::
              !FlattenAll(cs)[k].visible && !FlattenAll(cs)[k].expanded && FlattenAll(cs)[k].index == 0
    decreases cs, 0
  {
    if cs != [] {
      FlattenPristine(cs[0]);
      FlattenAllPristine(cs[1..]);
    }
  }

  /** Every node of a well-shaped tree's flattening is well-shaped. */
  lemma {:induction false} FlattenWellShaped(n: Node, k: nat)
    requires WellShaped(n) && k < |Flatten(n)|
    ensures WellShaped(Flatten(n)[k])
    decreases n, 1
  {
    if k > 0 {
      if n.value.Sequence? {
        FlattenAllWellShaped(n.value.children, k - 1);
      } else {
        FlattenWellShaped(n.value.inner, k - 1);
      }
    }
  }

  lemma {:induction false} FlattenAllWellShaped(cs: seq<Node>, k: nat)
    requires forall c | c in cs :: WellShaped(c)
    requires k < |FlattenAll(cs)|
    ensures WellShaped(FlattenAll(cs)[k])
    decreases cs, 0
  {
    var first := Flatten(cs[0]);
    assert FlattenAll(cs) == first + FlattenAll(cs[1..]);
    if k < |first| {
      FlattenWellShaped(cs[0], k);
    } else {
      FlattenAllWellShaped(cs[1..], k - |first|);
    }
  }
}
