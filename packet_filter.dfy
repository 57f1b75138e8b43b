/**
 * The command-tree packet filter (`PacketListener`). A DECLARE_COMMANDS packet
 * carries a flat table of nodes and a root index; for a player without the bypass
 * permission, every top-level literal node whose name is blocked is dropped, the
 * survivors are renumbered by rank and their children lists are rewritten through
 * the renumbering.
 */
module PacketFilter {
  import opened Results
  import opened Strings
  import opened Registry

  /** A protocol field the filter copies without looking at it. */
  datatype Payload = Payload(bytes: seq<bv8>)

  /** One entry of the packet's node table. */
  datatype Node = Node(
    flags: bv8,
    children: seq<int>,
    redirect: int,
    name: Option<string>,
    parser: Option<Payload>,
    properties: Option<Payload>,
    suggestionsType: Option<Payload>)

  /** The node kind is the low two bits of the flags; 1 is a literal. */
  const TYPE_MASK: bv8 := 0x03
  const TYPE_LITERAL: bv8 := 0x01

  predicate IsLiteral(node: Node)
  {
    node.flags & TYPE_MASK == TYPE_LITERAL
  }

  datatype FilterResult = FilterResult(nodes: seq<Node>, rootIndex: int)

  /** `createNodeWithNewChildren`: a copy of the node with another children list. */
  function WithChildren(node: Node, children: seq<int>): Node
  {
    node.(children := children)
  }

  // ---------------------------------------------------------------------------
  // The filter as a function of the table, the root and the blocklist
  // ---------------------------------------------------------------------------

  /** Node `i` is dropped: a named literal listed among the root's children whose
      lowercase name the matcher blocks. */
  ghost predicate Removed(nodes: seq<Node>, root: nat, blocked: set<string>, i: nat)
    requires root < |nodes| && i < |nodes|
  {
    && IsLiteral(nodes[i])
    && nodes[i].name.Some?
    && i in nodes[root].children
    && Blocks(blocked, Lower(nodes[i].name.value))
  }

  /** The indices among the first `k` that survive, in table order. */
  ghost function Survivors(nodes: seq<Node>, root: nat, blocked: set<string>, k: nat): (r: seq<nat>)
    requires root < |nodes| && k <= |nodes|
    ensures |r| <= k
    ensures forall t :: 0 <= t < |r| ==> r[t] < k
  {
    if k == 0 then []
    else Survivors(nodes, root, blocked, k - 1) + (if Removed(nodes, root, blocked, k - 1) then [] else [k - 1])
  }

  /** Each surviving index among the first `k`, mapped to the number of survivors before it. */
  ghost function IndexMapping(nodes: seq<Node>, root: nat, blocked: set<string>, k: nat): map<int, int>
    requires root < |nodes| && k <= |nodes|
  {
    map i | 0 <= i < k && !Removed(nodes, root, blocked, i) :: |Survivors(nodes, root, blocked, i)|
  }

  /** The second pass over one children list: indices the mapping does not know are
      dropped, the others are renumbered, in the original order. */
  function RemapChildren(children: seq<int>, mapping: map<int, int>): seq<int>
  {
    if children == [] then []
    else
      var init := RemapChildren(children[..|children| - 1], mapping);
      var child := children[|children| - 1];
      if child in mapping then init + [mapping[child]] else init
  }

  /** What `filterCommands` returns. */
  ghost function Filtered(nodes: seq<Node>, root: nat, blocked: set<string>): FilterResult
    requires root < |nodes|
  {
    var survivors := Survivors(nodes, root, blocked, |nodes|);
    var mapping := IndexMapping(nodes, root, blocked, |nodes|);
    FilterResult(
      seq(|survivors|, t requires 0 <= t < |survivors| =>
        WithChildren(nodes[survivors[t]], RemapChildren(nodes[survivors[t]].children, mapping))),
      if root in mapping then mapping[root] else 0)
  }

  // ---------------------------------------------------------------------------
  // The listener
  // ---------------------------------------------------------------------------

  /** The packet's node table and root index, which the listener rewrites in place. */
  class DeclareCommandsPacket {
    var nodes: seq<Node>
    var rootIndex: int

    constructor (nodes: seq<Node>, rootIndex: int)
      ensures this.nodes == nodes && this.rootIndex == rootIndex
    {
      this.nodes := nodes;
      this.rootIndex := rootIndex;
    }
  }

  class PacketListener {
    const blockedManager: BlockedCommandManager

    constructor (blockedManager: BlockedCommandManager)
      ensures this.blockedManager == blockedManager
    {
      this.blockedManager := blockedManager;
    }

    /** `onPacketSend`: other packets, non-players, bypassing players, an empty table
        and an out-of-range root leave the packet alone; so does an exception during
        filtering, which is caught before the packet is written. Otherwise the packet
        receives the filtered table and root. */
    method OnPacketSend(isDeclareCommands: bool, isPlayer: bool, bypass: bool, packet: DeclareCommandsPacket)
      modifies packet
      ensures var skipped := !isDeclareCommands || !isPlayer || bypass || |old(packet.nodes)| == 0
                             || !(0 <= old(packet.rootIndex) < |old(packet.nodes)|);
              skipped ==> packet.nodes == old(packet.nodes) && packet.rootIndex == old(packet.rootIndex)
      ensures packet.nodes != old(packet.nodes) || packet.rootIndex != old(packet.rootIndex) ==>
                && 0 <= old(packet.rootIndex) < |old(packet.nodes)|
                && FilterResult(packet.nodes, packet.rootIndex)
                   == Filtered(old(packet.nodes), old(packet.rootIndex), blockedManager.blocked)
      ensures && isDeclareCommands && isPlayer && !bypass && 0 <= old(packet.rootIndex) < |old(packet.nodes)|
              && !Broken(blockedManager.blocked) ==>
                FilterResult(packet.nodes, packet.rootIndex)
                == Filtered(old(packet.nodes), old(packet.rootIndex), blockedManager.blocked)
    {
      if !isDeclareCommands || !isPlayer || bypass {
        return;
      }
      var nodes := packet.nodes;
      var rootIndex := packet.rootIndex;
      if |nodes| == 0 || rootIndex < 0 || rootIndex >= |nodes| {
        return;
      }
      var result := FilterCommands(nodes, rootIndex);
      if result.None? {
        return;
      }
      packet.nodes := result.value.nodes;
      packet.rootIndex := result.value.rootIndex;
    }

    /** `filterCommands`: pass one keeps the surviving nodes and records each one's new
        index; pass two rewrites every survivor's children through that record. `None`
        is an exception from the matcher. */
    method FilterCommands(originalNodes: seq<Node>, originalRootIndex: nat) returns (r: Option<FilterResult>)
      requires originalRootIndex < |originalNodes|
      ensures r.Some? ==> r.value == Filtered(originalNodes, originalRootIndex, blockedManager.blocked)
      ensures !Broken(blockedManager.blocked) ==> r.Some?
    {
      ghost var blocked := blockedManager.blocked;
      var newNodes: seq<Node> := [];
      var indexMapping: map<int, int> := map[];
      var i := 0;
      while i < |originalNodes|
        invariant 0 <= i <= |originalNodes|
        invariant |newNodes| == |Survivors(originalNodes, originalRootIndex, blocked, i)|
        invariant forall t :: 0 <= t < |newNodes| ==>
                    newNodes[t] == originalNodes[Survivors(originalNodes, originalRootIndex, blocked, i)[t]]
        invariant indexMapping == IndexMapping(originalNodes, originalRootIndex, blocked, i)
      {
        var remove := ShouldRemoveNode(originalNodes[i], i, originalRootIndex, originalNodes);
        if remove.None? {
          return None;
        }
        IndexMappingStep(originalNodes, originalRootIndex, blocked, i);
        if !remove.value {
          indexMapping := indexMapping[i := |newNodes|];
          newNodes := newNodes + [originalNodes[i]];
        }
        i := i + 1;
      }

      var updatedNodes: seq<Node> := [];
      var t := 0;
      while t < |newNodes|
        invariant 0 <= t <= |newNodes|
        invariant |updatedNodes| == t
        invariant forall u :: 0 <= u < t ==>
                    updatedNodes[u] == WithChildren(newNodes[u], RemapChildren(newNodes[u].children, indexMapping))
      {
        var node := newNodes[t];
        var newChildren := UpdateChildren(node.children, indexMapping);
        updatedNodes := updatedNodes + [WithChildren(node, newChildren)];
        t := t + 1;
      }

      var newRootIndex := if originalRootIndex in indexMapping then indexMapping[originalRootIndex] else 0;
      return Some(FilterResult(updatedNodes, newRootIndex));
    }

    /** The inner loop of pass two: each child the mapping knows, renumbered, in
        order; the others dropped. */
    method UpdateChildren(oldChildren: seq<int>, indexMapping: map<int, int>) returns (newChildren: seq<int>)
      ensures newChildren == RemapChildren(oldChildren, indexMapping)
    {
      newChildren := [];
      var c := 0;
      while c < |oldChildren|
        invariant 0 <= c <= |oldChildren|
        invariant newChildren == RemapChildren(oldChildren[..c], indexMapping)
      {
        assert oldChildren[..c + 1][..c] == oldChildren[..c];
        if oldChildren[c] in indexMapping {
          newChildren := newChildren + [indexMapping[oldChildren[c]]];
        }
        c := c + 1;
      }
      assert oldChildren[..c] == oldChildren;
    }

    /** `shouldRemoveNode`: only a named literal is looked at; it is dropped when it
        occurs among the root's children and the matcher blocks its lowercase name.
        `None` is an exception from the matcher. */
    method ShouldRemoveNode(node: Node, nodeIndex: nat, rootIndex: nat, allNodes: seq<Node>) returns (r: Option<bool>)
      requires nodeIndex < |allNodes| && rootIndex < |allNodes| && node == allNodes[nodeIndex]
      ensures r.Some? ==> r.value == Removed(allNodes, rootIndex, blockedManager.blocked, nodeIndex)
      ensures !Broken(blockedManager.blocked) ==> r.Some?
    {
      if node.flags & TYPE_MASK != TYPE_LITERAL {
        return Some(false);
      }
      if node.name.None? {
        return Some(false);
      }
      var name := node.name.value;
      var rootChildren := allNodes[rootIndex].children;
      var k := 0;
      while k < |rootChildren|
        invariant 0 <= k <= |rootChildren|
        invariant nodeIndex in rootChildren[..k] ==> !Blocks(blockedManager.blocked, Lower(name))
      {
        if rootChildren[k] == nodeIndex {
          var isBlocked := blockedManager.IsBlocked(Lower(name));
          if isBlocked.None? {
            return None;
          }
          if isBlocked.value {
            return Some(true);
          }
        }
        assert rootChildren[..k + 1] == rootChildren[..k] + [rootChildren[k]];
        k := k + 1;
      }
      assert rootChildren[..k] == rootChildren;
      return Some(false);
    }
  }

  // ---------------------------------------------------------------------------
  // Properties of the filter
  // ---------------------------------------------------------------------------

  lemma IndexMappingStep(nodes: seq<Node>, root: nat, blocked: set<string>, i: nat)
    requires root < |nodes| && i < |nodes|
    ensures IndexMapping(nodes, root, blocked, i + 1) ==
              if Removed(nodes, root, blocked, i) then IndexMapping(nodes, root, blocked, i)
              else IndexMapping(nodes, root, blocked, i)[i := |Survivors(nodes, root, blocked, i)|]
  {
  }

  /** The survivors are exactly the nodes that are not removed, in increasing order. */
  lemma {:induction false} SurvivorsExact(nodes: seq<Node>, root: nat, blocked: set<string>, k: nat)
    requires root < |nodes| && k <= |nodes|
    ensures forall i :: i in Survivors(nodes, root, blocked, k) <==> 0 <= i < k && !Removed(nodes, root, blocked, i)
    ensures forall a, b :: 0 <= a < b < |Survivors(nodes, root, blocked, k)| ==>
              Survivors(nodes, root, blocked, k)[a] < Survivors(nodes, root, blocked, k)[b]
  {
    if k > 0 {
      SurvivorsExact(nodes, root, blocked, k - 1);
    }
  }

  /** Survivors among fewer nodes form a prefix of the survivors among more. */
  lemma {:induction false} SurvivorsPrefix(nodes: seq<Node>, root: nat, blocked: set<string>, j: nat, k: nat)
    requires root < |nodes| && j <= k <= |nodes|
    ensures Survivors(nodes, root, blocked, j) <= Survivors(nodes, root, blocked, k)
    decreases k - j
  {
    if j < k {
      SurvivorsPrefix(nodes, root, blocked, j, k - 1);
    }
  }

  /** A survivor's new index is its rank: the number of survivors before it, and the
      survivor list holds it at exactly that position. */
  lemma RankOfSurvivor(nodes: seq<Node>, root: nat, blocked: set<string>, i: nat)
    requires root < |nodes| && i < |nodes| && !Removed(nodes, root, blocked, i)
    ensures var survivors := Survivors(nodes, root, blocked, |nodes|);
            var rank := |Survivors(nodes, root, blocked, i)|;
            && i in IndexMapping(nodes, root, blocked, |nodes|)
            && IndexMapping(nodes, root, blocked, |nodes|)[i] == rank
            && rank < |survivors| && survivors[rank] == i
  {
    var before := Survivors(nodes, root, blocked, i);
    var upTo := Survivors(nodes, root, blocked, i + 1);
    var survivors := Survivors(nodes, root, blocked, |nodes|);
    assert upTo == before + [i];
    SurvivorsPrefix(nodes, root, blocked, i + 1, |nodes|);
    assert upTo <= survivors;
    assert survivors[|before|] == upTo[|before|] == i;
    assert IndexMapping(nodes, root, blocked, |nodes|)[i] == |before|;
  }

  /** The index mapping knows exactly the surviving indices, and sends them below the
      number of survivors. */
  lemma MappingDomain(nodes: seq<Node>, root: nat, blocked: set<string>)
    requires root < |nodes|
    ensures var mapping := IndexMapping(nodes, root, blocked, |nodes|);
            && (forall i :: i in mapping <==> 0 <= i < |nodes| && !Removed(nodes, root, blocked, i))
            && (forall i :: i in mapping ==> 0 <= mapping[i] < |Survivors(nodes, root, blocked, |nodes|)|)
  {
    forall i | 0 <= i < |nodes| && !Removed(nodes, root, blocked, i) {
      RankOfSurvivor(nodes, root, blocked, i);
    }
  }

  /** The set of removed indices. */
  ghost function RemovedSet(nodes: seq<Node>, root: nat, blocked: set<string>): set<int>
    requires root < |nodes|
  {
    set i | 0 <= i < |nodes| && Removed(nodes, root, blocked, i)
  }

  /** The output table has one node per survivor: input length minus removed count. */
  lemma FilteredLength(nodes: seq<Node>, root: nat, blocked: set<string>)
    requires root < |nodes|
    ensures |Filtered(nodes, root, blocked).nodes| == |nodes| - |RemovedSet(nodes, root, blocked)|
  {
    SurvivorCount(nodes, root, blocked, |nodes|);
    assert RemovedSet(nodes, root, blocked) ==
           set i | 0 <= i < |nodes| && Removed(nodes, root, blocked, i);
  }

  lemma {:induction false} SurvivorCount(nodes: seq<Node>, root: nat, blocked: set<string>, k: nat)
    requires root < |nodes| && k <= |nodes|
    ensures |Survivors(nodes, root, blocked, k)| + |set i | 0 <= i < k && Removed(nodes, root, blocked, i)| == k
  {
    if k > 0 {
      SurvivorCount(nodes, root, blocked, k - 1);
      var before := set i | 0 <= i < k - 1 && Removed(nodes, root, blocked, i);
      var after := set i | 0 <= i < k && Removed(nodes, root, blocked, i);
      if Removed(nodes, root, blocked, k - 1) {
        assert after == before + {k - 1};
      } else {
        assert after == before;
      }
    }
  }

  /** Output node `t` is a copy of the `t`-th survivor: flags, redirect index, name,
      parser, properties and suggestions type unchanged (the redirect is not
      renumbered), children rewritten through the index mapping. */
  lemma FilteredNodeIsSurvivorCopy(nodes: seq<Node>, root: nat, blocked: set<string>, t: nat)
    requires root < |nodes| && t < |Filtered(nodes, root, blocked).nodes|
    ensures var survivors := Survivors(nodes, root, blocked, |nodes|);
            var original := nodes[survivors[t]];
            var copy := Filtered(nodes, root, blocked).nodes[t];
            && !Removed(nodes, root, blocked, survivors[t])
            && copy.flags == original.flags && copy.redirect == original.redirect
            && copy.name == original.name && copy.parser == original.parser
            && copy.properties == original.properties && copy.suggestionsType == original.suggestionsType
            && copy.children == RemapChildren(original.children, IndexMapping(nodes, root, blocked, |nodes|))
  {
    SurvivorsExact(nodes, root, blocked, |nodes|);
    assert Survivors(nodes, root, blocked, |nodes|)[t] in Survivors(nodes, root, blocked, |nodes|);
  }

  /** Remapping distributes over concatenation, so it can be read from the front: the
      old list, with unknown indices dropped and the others renumbered, in order. */
  lemma {:induction false} RemapChildrenAppend(xs: seq<int>, ys: seq<int>, mapping: map<int, int>)
    ensures RemapChildren(xs + ys, mapping) == RemapChildren(xs, mapping) + RemapChildren(ys, mapping)
    decreases |ys|
  {
    if ys == [] {
      assert xs + ys == xs;
    } else {
      var ys' := ys[..|ys| - 1];
      assert (xs + ys)[..|xs + ys| - 1] == xs + ys';
      RemapChildrenAppend(xs, ys', mapping);
    }
  }

  lemma RemapChildrenFront(children: seq<int>, mapping: map<int, int>)
    requires children != []
    ensures RemapChildren(children, mapping) ==
              (if children[0] in mapping then [mapping[children[0]]] else []) + RemapChildren(children[1..], mapping)
  {
    assert children == [children[0]] + children[1..];
    RemapChildrenAppend([children[0]], children[1..], mapping);
  }

  /** Every renumbered child comes from a known old child, and every known old child
      is in the new list under its new number. */
  lemma {:induction false} RemapChildrenMembers(children: seq<int>, mapping: map<int, int>)
    ensures forall x :: x in RemapChildren(children, mapping) <==>
              exists c :: c in children && c in mapping && mapping[c] == x
  {
    if children != [] {
      var init := children[..|children| - 1];
      RemapChildrenMembers(init, mapping);
      assert children == init + [children[|children| - 1]];
    }
  }

  /** Every child index in the output refers to a node of the output. */
  lemma ChildrenInRange(nodes: seq<Node>, root: nat, blocked: set<string>)
    requires root < |nodes|
    ensures var out := Filtered(nodes, root, blocked).nodes;
            forall t, x :: 0 <= t < |out| && x in out[t].children ==> 0 <= x < |out|
  {
    var out := Filtered(nodes, root, blocked).nodes;
    var mapping := IndexMapping(nodes, root, blocked, |nodes|);
    MappingDomain(nodes, root, blocked);
    forall t, x | 0 <= t < |out| && x in out[t].children ensures 0 <= x < |out| {
      FilteredNodeIsSurvivorCopy(nodes, root, blocked, t);
      var original := nodes[Survivors(nodes, root, blocked, |nodes|)[t]];
      RemapChildrenMembers(original.children, mapping);
    }
  }

  /** A root that is not a literal is never removed: it keeps its rank as new root. */
  lemma NonLiteralRootSurvives(nodes: seq<Node>, root: nat, blocked: set<string>)
    requires root < |nodes| && !IsLiteral(nodes[root])
    ensures var f := Filtered(nodes, root, blocked);
            && f.rootIndex == |Survivors(nodes, root, blocked, root)|
            && 0 <= f.rootIndex < |f.nodes|
            && Survivors(nodes, root, blocked, |nodes|)[f.rootIndex] == root
  {
    RankOfSurvivor(nodes, root, blocked, root);
  }

  /** A root that is removed (a literal listing itself as a blocked child) falls back to 0. */
  lemma RemovedRootFallsBackToZero(nodes: seq<Node>, root: nat, blocked: set<string>)
    requires root < |nodes| && Removed(nodes, root, blocked, root)
    ensures Filtered(nodes, root, blocked).rootIndex == 0
  {
  }

  /** With a non-literal root, no node of the output qualifies for removal: every
      surviving top-level child is unblocked. */
  lemma NoSurvivorRemovedAgain(nodes: seq<Node>, root: nat, blocked: set<string>)
    requires root < |nodes| && !IsLiteral(nodes[root])
    ensures var f := Filtered(nodes, root, blocked);
            && 0 <= f.rootIndex < |f.nodes|
            && forall t :: 0 <= t < |f.nodes| ==> !Removed(f.nodes, f.rootIndex, blocked, t)
  {
    var f := Filtered(nodes, root, blocked);
    var out, newRoot := f.nodes, f.rootIndex;
    var survivors := Survivors(nodes, root, blocked, |nodes|);
    var mapping := IndexMapping(nodes, root, blocked, |nodes|);
    NonLiteralRootSurvives(nodes, root, blocked);
    FilteredNodeIsSurvivorCopy(nodes, root, blocked, newRoot);
    assert out[newRoot].children == RemapChildren(nodes[root].children, mapping);
    RemapChildrenMembers(nodes[root].children, mapping);
    MappingDomain(nodes, root, blocked);
    forall t | 0 <= t < |out| ensures !Removed(out, newRoot, blocked, t) {
      FilteredNodeIsSurvivorCopy(nodes, root, blocked, t);
      var c := survivors[t];
      if t in out[newRoot].children {
        var c' :| c' in nodes[root].children && c' in mapping && mapping[c'] == t;
        RankOfSurvivor(nodes, root, blocked, c');
        assert c' == c;
      }
    }
  }

  lemma {:induction false} SurvivorsWhenNothingRemoved(nodes: seq<Node>, root: nat, blocked: set<string>, k: nat)
    requires root < |nodes| && k <= |nodes|
    requires forall i :: 0 <= i < |nodes| ==> !Removed(nodes, root, blocked, i)
    ensures |Survivors(nodes, root, blocked, k)| == k
    ensures forall i :: 0 <= i < k ==> Survivors(nodes, root, blocked, k)[i] == i
  {
    if k > 0 {
      SurvivorsWhenNothingRemoved(nodes, root, blocked, k - 1);
    }
  }

  lemma {:induction false} RemapIdentity(children: seq<int>, mapping: map<int, int>, n: nat)
    requires forall x :: x in children ==> 0 <= x < n
    requires forall i :: 0 <= i < n ==> i in mapping && mapping[i] == i
    ensures RemapChildren(children, mapping) == children
  {
    if children != [] {
      var init := children[..|children| - 1];
      forall x | x in init ensures 0 <= x < n {
        var j :| 0 <= j < |init| && init[j] == x;
        assert children[j] == x && children[j] in children;
      }
      RemapIdentity(init, mapping, n);
      assert children[|children| - 1] in children;
      assert children == init + [children[|children| - 1]];
    }
  }

  /** With a non-literal root and the same blocklist, filtering the filtered table
      again removes nothing and reproduces it exactly. */
  lemma FilterIdempotent(nodes: seq<Node>, root: nat, blocked: set<string>)
    requires root < |nodes| && !IsLiteral(nodes[root])
    ensures var f := Filtered(nodes, root, blocked);
            0 <= f.rootIndex < |f.nodes| && Filtered(f.nodes, f.rootIndex, blocked) == f
  {
    var f := Filtered(nodes, root, blocked);
    var out, newRoot := f.nodes, f.rootIndex;
    NoSurvivorRemovedAgain(nodes, root, blocked);
    ChildrenInRange(nodes, root, blocked);
    SurvivorsWhenNothingRemoved(out, newRoot, blocked, |out|);
    var mapping := IndexMapping(out, newRoot, blocked, |out|);
    forall i | 0 <= i < |out| ensures i in mapping && mapping[i] == i {
      SurvivorsWhenNothingRemoved(out, newRoot, blocked, i);
    }
    var g := Filtered(out, newRoot, blocked);
    assert |g.nodes| == |out|;
    forall t | 0 <= t < |out| ensures g.nodes[t] == out[t] {
      RemapIdentity(out[t].children, mapping, |out|);
    }
    assert g.nodes == out;
  }
}
