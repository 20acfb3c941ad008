/** Directional tries that cache dynamic-programming columns across candidates. */
module BidirectionalTrie {
  import opened Types
  import opened Costs
  import opened EditScripts
  import opened Kernel

  class TrieNode {
    /** What the column stands for: the query string it measures and the edge
        labels from the root. */
    ghost const query: seq<Symbol>
    ghost const path: seq<Symbol>
    const column: seq<Distance>
    var children: map<Symbol, TrieNode>

    constructor (column: seq<Distance>, ghost query: seq<Symbol>, ghost path: seq<Symbol>)
      ensures this.column == column && this.query == query && this.path == path && children == map[]
    {
      this.column := column;
      this.query := query;
      this.path := path;
      this.children := map[];
    }
  }

  /** The cache invariant: each node holds exactly the column of its own query
      and path, and an edge extends the path by its label. */
  ghost predicate Cached(p: Policy<Symbol>, nodes: set<TrieNode>)
    reads nodes
  {
    forall n :: n in nodes ==>
      && IsColumn(p, n.query, n.path, n.column)
      && forall s :: s in n.children ==>
        n.children[s] in nodes && n.children[s].query == n.query && n.children[s].path == n.path + [s]
  }

  /** What a walk over `symbols` returns: the distance to each prefix, up to the
      first non-empty prefix whose column is exhausted. */
  ghost predicate IsPrunedWalk(
    p: Policy<Symbol>, query: seq<Symbol>, symbols: seq<Symbol>, budget: nat, distances: seq<Distance>)
  {
    && 1 <= |distances| <= |symbols| + 1
    && (forall k :: 0 <= k < |distances| ==> distances[k] == Capped(p.max, Wed(p, query, symbols[..k])))
    && (forall k :: 1 <= k < |distances| ==> !Exhausted(p, query, symbols[..k], budget))
    && (|distances| <= |symbols| ==> Exhausted(p, query, symbols[..|distances|], budget))
  }

  /** A walk is determined by its inputs, so the cache cannot influence it. */
  lemma WalkIsDetermined(
    p: Policy<Symbol>, query: seq<Symbol>, symbols: seq<Symbol>, budget: nat, a: seq<Distance>, b: seq<Distance>)
    requires IsPrunedWalk(p, query, symbols, budget, a) && IsPrunedWalk(p, query, symbols, budget, b)
    ensures a == b
  {
  }

  /** Stopping early loses nothing within the budget. */
  lemma WalkLosesNothing(
    p: Policy<Symbol>, query: seq<Symbol>, symbols: seq<Symbol>, budget: nat, distances: seq<Distance>, k: nat)
    requires IsPrunedWalk(p, query, symbols, budget, distances)
    requires |distances| <= k <= |symbols|
    ensures budget <= Wed(p, query, symbols[..k])
  {
    var cut := symbols[..|distances|];
    ExhaustionIsFinal(p, query, cut, symbols[|distances|..k], budget);
    assert symbols[..k] == cut + symbols[|distances|..k];
    assert query[..|query|] == query;
  }

  /** The child along `symbol`, created from the parent column when missing. */
  method Child(node: TrieNode, symbol: Symbol, query: seq<Symbol>, p: Policy<Symbol>, ghost nodes: set<TrieNode>)
    returns (child: TrieNode, ghost grown: set<TrieNode>)
    requires Cached(p, nodes) && node in nodes && node.query == query
    modifies node
    ensures Cached(p, grown) && nodes <= grown && fresh(grown - nodes)
    ensures child in grown && child.query == query && child.path == node.path + [symbol]
    ensures node.children == old(node.children)[symbol := child]
    ensures symbol in old(node.children) ==> child == old(node.children[symbol]) && grown == nodes
  {
    grown := nodes;
    if symbol in node.children {
      child := node.children[symbol];
    } else {
      var column := StepDp(query, symbol, node.column, p, node.path);
      child := new TrieNode(column, query, node.path + [symbol]);
      node.children := node.children[symbol := child];
      grown := grown + {child};
    }
  }

  /** Follows `symbols` from `root`, growing the trie where an edge is missing. */
  method CachedPrefixDistances(
    query: seq<Symbol>, symbols: seq<Symbol>, budget: nat, root: TrieNode, p: Policy<Symbol>,
    ghost nodes: set<TrieNode>)
    returns (distances: seq<Distance>, ghost grown: set<TrieNode>)
    requires Cached(p, nodes) && root in nodes && root.query == query && root.path == []
    requires budget <= p.max
    modifies nodes
    ensures Cached(p, grown) && nodes <= grown && fresh(grown - nodes)
    ensures IsPrunedWalk(p, query, symbols, budget, distances)
  {
    hide Wed, Exhausted;
    var node := root;
    grown := nodes;
    assert query[..|query|] == query && symbols[..0] == [];
    distances := [node.column[|query|]];
    for k := 0 to |symbols|
      invariant Cached(p, grown) && nodes <= grown && fresh(grown - nodes)
      invariant node in grown && node.query == query && node.path == symbols[..k]
      invariant |distances| == k + 1
      invariant forall i :: 0 <= i <= k ==> distances[i] == Capped(p.max, Wed(p, query, symbols[..i]))
      invariant forall i :: 1 <= i <= k ==> !Exhausted(p, query, symbols[..i], budget)
    {
      var symbol := symbols[k];
      assert symbols[..k + 1] == symbols[..k] + [symbol];
      node, grown := Child(node, symbol, query, p, grown);
      FloorDecidesExhaustion(p, query, symbols[..k + 1], node.column, budget);
      if !Floor(node.column).Below(Finite(budget)) {
        return;
      }
      distances := distances + [node.column[|query|]];
    }
  }

  /** The tries of one verification call, one per query position and direction. */
  class TrieForest {
    var backward: map<nat, TrieNode>
    var forward: map<nat, TrieNode>
    ghost var nodes: set<TrieNode>

    ghost predicate Valid(p: Policy<Symbol>, query: seq<Symbol>)
      reads this, nodes
    {
      && Cached(p, nodes)
      && (forall i :: i in backward ==> i < |query| && IsRoot(backward[i], Reversed(query[..i])))
      && (forall i :: i in forward ==> i < |query| && IsRoot(forward[i], query[i + 1..]))
    }

    ghost predicate IsRoot(node: TrieNode, query: seq<Symbol>)
      reads this
    {
      node in nodes && node.query == query && node.path == []
    }

    /** Adds a node holding the column of the empty data prefix. */
    method NewRoot(query: seq<Symbol>, p: Policy<Symbol>) returns (root: TrieNode)
      requires Cached(p, nodes)
      modifies this`nodes
      ensures Cached(p, nodes) && nodes == old(nodes) + {root} && fresh(root) && IsRoot(root, query)
    {
      var column := RootColumn(query, p);
      root := new TrieNode(column, query, []);
      nodes := nodes + {root};
    }

    constructor ()
      ensures backward == map[] && forward == map[] && nodes == {}
    {
      backward := map[];
      forward := map[];
      nodes := {};
    }

    /** The backward root of position `i`, created on first use. */
    method BackwardRoot(query: seq<Symbol>, i: nat, p: Policy<Symbol>) returns (root: TrieNode)
      requires Valid(p, query) && i < |query|
      modifies this
      ensures Valid(p, query) && old(nodes) <= nodes && fresh(nodes - old(nodes))
      ensures IsRoot(root, Reversed(query[..i]))
      ensures backward == old(backward)[i := root] && forward == old(forward)
      ensures i in old(backward) ==> root == old(backward[i]) && nodes == old(nodes)
    {
      if i in backward {
        root := backward[i];
      } else {
        root := NewRoot(Reversed(query[..i]), p);
        backward := backward[i := root];
      }
    }

    /** Distances from the query prefix before `i` to each prefix of `symbols`,
        both read backwards. */
    method WalkBackward(query: seq<Symbol>, i: nat, symbols: seq<Symbol>, budget: nat, p: Policy<Symbol>)
      returns (distances: seq<Distance>)
      requires Valid(p, query) && i < |query| && budget <= p.max
      modifies this, nodes
      ensures Valid(p, query) && fresh(nodes - old(nodes))
      ensures IsPrunedWalk(p, Reversed(query[..i]), symbols, budget, distances)
    {
      var root := BackwardRoot(query, i, p);
      distances, nodes := CachedPrefixDistances(Reversed(query[..i]), symbols, budget, root, p, nodes);
    }

    /** The forward root of position `i`, created on first use. */
    method ForwardRoot(query: seq<Symbol>, i: nat, p: Policy<Symbol>) returns (root: TrieNode)
      requires Valid(p, query) && i < |query|
      modifies this
      ensures Valid(p, query) && old(nodes) <= nodes && fresh(nodes - old(nodes))
      ensures IsRoot(root, query[i + 1..])
      ensures forward == old(forward)[i := root] && backward == old(backward)
      ensures i in old(forward) ==> root == old(forward[i]) && nodes == old(nodes)
    {
      if i in forward {
        root := forward[i];
      } else {
        root := NewRoot(query[i + 1..], p);
        forward := forward[i := root];
      }
    }

    /** Distances from the query suffix after `i` to each prefix of
        `symbols`. */
    method WalkForward(query: seq<Symbol>, i: nat, symbols: seq<Symbol>, budget: nat, p: Policy<Symbol>)
      returns (distances: seq<Distance>)
      requires Valid(p, query) && i < |query| && budget <= p.max
      modifies this, nodes
      ensures Valid(p, query) && fresh(nodes - old(nodes))
      ensures IsPrunedWalk(p, query[i + 1..], symbols, budget, distances)
    {
      var root := ForwardRoot(query, i, p);
      distances, nodes := CachedPrefixDistances(query[i + 1..], symbols, budget, root, p, nodes);
    }
  }
}
