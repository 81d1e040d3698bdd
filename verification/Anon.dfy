/** The A50 anonymiser: a tree of nodes updated in place, and the memo of addresses seen. */
module Anonymizers {
  import opened Options
  import opened AnonBits
  import opened AnonTree
  import opened AnonRun

  class Node {
    var input: Addr
    var output: Addr
    var left: Node?   // child[0]
    var right: Node?  // child[1]
    ghost var tree: Tree
    ghost var repr: set<Node>

    ghost predicate Valid()
      reads this, repr
      decreases repr
    {
      && this in repr
      && (left == null <==> right == null)
      && if left == null then tree == Leaf(input, output)
         else
           && left in repr && left.repr <= repr && this !in left.repr
           && right in repr && right.repr <= repr && this !in right.repr
           && left.repr !! right.repr
           && left.Valid() && right.Valid()
           && tree == Fork(input, output, left.tree, right.tree)
    }

    constructor (i: Addr, o: Addr)
      ensures Valid() && repr == {this} && input == i && output == o && tree == Leaf(i, o)
    {
      input, output, left, right := i, o, null, null;
      tree, repr := Leaf(i, o), {this};
    }

    /** A copy of another node, one level down. */
    constructor Copy(n: Node)
      requires n.Valid()
      ensures Valid() && repr == {this} + (n.repr - {n}) && tree == n.tree
      ensures input == n.input && output == n.output && left == n.left && right == n.right
    {
      input, output, left, right := n.input, n.output, n.left, n.right;
      tree, repr := n.tree, {this} + (n.repr - {n});
    }

    /** Turn this node into the parent of a copy of itself and of a new leaf for `a`. */
    method MakePeer(a: Addr, random: Addr) returns (peer: Node)
      requires Valid() && a != input
      modifies this
      ensures Valid() && tree == Peer(old(tree), a, random)
      ensures fresh(repr - old(repr)) && old(repr) <= repr
      ensures peer in repr && fresh(peer) && peer.input == a
      ensures peer.output == PeerOutput(old(tree), a, random)
    {
      hide Differ, MakeOutput, Shr, Peer, PeerOutput;
      assert tree.input == input && tree.output == output;
      var swivel := Differ(a, input);
      PeerIs(tree, a, random);
      peer := new Node(a, MakeOutput(output, swivel, random));
      var copy := new Node.Copy(this);
      if Shr(a, 32 - swivel) % 2 == 1 {
        Adopt(copy, peer);
      } else {
        Adopt(peer, copy);
      }
    }

    /** Point to two children; inputs with a 1 go to the right. */
    method Adopt(l: Node, r: Node)
      requires l.Valid() && r.Valid() && l.repr !! r.repr && this !in l.repr + r.repr
      modifies this
      ensures Valid() && repr == {this} + l.repr + r.repr && tree == Fork(r.input, r.output, l.tree, r.tree)
    {
      input, output := r.input, r.output;
      left, right := l, r;
      repr := {this} + l.repr + r.repr;
      tree := Fork(input, output, l.tree, r.tree);
    }

    /** The walk of find_node from this node down; where it cannot go on, a peer is made. */
    method FindFrom(a: Addr, random: Addr) returns (n: Node)
      requires Valid()
      modifies repr
      ensures Valid() && tree == Insert(old(tree), a, random)
      ensures fresh(repr - old(repr)) && old(repr) <= repr
      ensures n in repr && n.input == a && n.output == Found(old(tree), a, random)
      decreases repr
    {
      hide Differ, And, Shl, PeerOutput, Peer;
      if input == a {
        n := this;
      } else if left == null {
        n := MakePeer(a, random);
      } else {
        var swivel := Differ(left.input, right.input);
        if Differ(a, input) < swivel {
          n := MakePeer(a, random);
        } else if And(a, Shl(1, 32 - swivel)) != 0 {
          n := right.FindFrom(a, random);
          repr := repr + right.repr;
          tree := Fork(input, output, left.tree, right.tree);
        } else {
          n := left.FindFrom(a, random);
          repr := repr + left.repr;
          tree := Fork(input, output, left.tree, right.tree);
        }
      }
    }
  }

  /** AnonymizeIPAddr_A50. Addresses are in host order; each call is given the random words it may
      consume. */
  class A50 {
    var root: Node?
    const special0: Node
    const special1: Node
    var beforeAnonymization: bool
    var mapping: map<Addr, Addr>

    ghost predicate Valid()
      reads this, special0, special1, if root == null then {} else {root} + root.repr
    {
      && special0 != special1
      && special0.input == 0 && special1.input == ALL_ONES
      && (root != null ==> root.Valid() && special0 !in root.repr && special1 !in root.repr)
      && (beforeAnonymization ==> mapping == map[])
    }

    ghost function Footprint(): set<object>
      reads this, root
    {
      {this, special0, special1} + if root == null then {} else {root} + root.repr
    }

    ghost function State(): Anon
      reads this, special0, special1, root
    {
      Anon(if root == null then None else Some(root.tree), (special0.output, special1.output),
           beforeAnonymization, mapping)
    }

    constructor ()
      ensures Valid() && fresh(Footprint()) && State() == Start() && Good(State())
    {
      root := null;
      special0 := new Node(0, 0);
      special1 := new Node(ALL_ONES, ALL_ONES);
      beforeAnonymization, mapping := true, map[];
    }

    method FindNode(a: Addr, random: Addr) returns (n: Node)
      requires Valid()
      modifies Footprint() - {special0, special1}
      ensures Valid() && fresh(Footprint() - old(Footprint())) && n in Footprint()
      ensures State() == old(State()).(root := Visited(old(State()).root, a, random))
      ensures n.input == a && n.output == OutputFor(old(State()), a, random)
      ensures Special(a) ==> n == if a == 0 then special0 else special1
      ensures !Special(a) && old(root) == null ==> n == root && n.repr == {n} && n.left == null
    {
      if a == 0 || a == ALL_ONES {
        n := if a % 2 == 0 then special0 else special1;
      } else if root == null {
        root := new Node(a, random);
        n := root;
      } else {
        n := root.FindFrom(a, random);
      }
    }

    /** The first PreservePrefix, before any address has been seen. */
    method PreservePrefix(input: Addr, numBits: nat, random1: Addr, random2: Addr) returns (ok: bool)
      requires Valid() && numBits < 32 && (beforeAnonymization ==> root == null)
      modifies Footprint()
      ensures Valid() && fresh(Footprint() - old(Footprint()))
      ensures (State(), ok) == Preset(old(State()), input, numBits, random2)
      ensures Good(old(State())) ==> Good(State())
    {
      if Good(State()) {
        PresetKeeps(State(), input, numBits, random2);
      }
      hide Good;
      if !beforeAnonymization {
        return false;
      }
      MaskPrefix(input, numBits);
      var masked := And(input, PrefixMask(numBits));
      assert masked == Masked(input, numBits);
      if numBits == 0 {
        MaskNone(input);
      }
      var n := FindNode(masked, random1);
      if numBits > 0 {
        n.output := PresetOutput(masked, numBits, random2);
        n.tree := Leaf(n.input, n.output);
      }
      ok := true;
    }

    method Anonymize(a: Addr, random: Addr) returns (out: Addr)
      requires Valid()
      modifies Footprint()
      ensures Valid() && fresh(Footprint() - old(Footprint()))
      ensures (State(), out) == Step(old(State()), a, random)
      ensures Good(old(State())) ==> Good(State()) && Answers(old(State()), a, random, out)
    {
      if Good(State()) {
        StepKeeps(State(), a, random);
        StepAnswers(State(), a, random);
      }
      hide Good, Answers;
      if a in mapping {
        return mapping[a];
      }
      beforeAnonymization := false;
      var n := FindNode(a, random);
      out := n.output;
      mapping := mapping[a := out];
    }
  }
}
