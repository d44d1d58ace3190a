/** The pointer structure of my_trie.h and its three inline functions.

    A node's children hang off `links` and are chained through `next`; `fail` is the failure link.
    The bodies of `trie_insert` and `ac_trie_prepare` are not part of this model: what they establish
    is the predicate `Valid`, stated with the help of ghost fields.  */
module Trie {
  import opened Bytes
  import opened SuffixAutomaton

  type Uint16 = n: nat | n < 0x1_0000

  class TrieNode {
    var leaf: Uint16      // depth of the node if it spells a key, 0 otherwise
    var c: Byte           // label of the edge that enters the node
    var next: TrieNode?   // next sibling
    var links: TrieNode?  // first child
    var fail: TrieNode?   // failure link

    constructor (c: Byte)
      ensures this.c == c && leaf == 0 && next == null && links == null && fail == null
    {
      this.c := c;
      leaf, next, links, fail := 0, null, null, null;
    }
  }

  ghost predicate NoneLabelled(chain: seq<TrieNode>, n: nat, c: Byte)
    reads chain
    requires n <= |chain|
  {
    forall i :: 0 <= i < n ==> chain[i].c != c
  }

  class TrieData {
    const root: TrieNode
    ghost const nodes: set<TrieNode>
    ghost const path: map<TrieNode, seq<Byte>>       // the string spelled from the root
    ghost const at: map<seq<Byte>, TrieNode>         // the node that spells a path
    ghost const kids: map<TrieNode, seq<TrieNode>>   // the sibling chain below a node
    ghost const keys: set<seq<Byte>>                 // the inserted words

    ghost function Paths(): set<seq<Byte>> {
      at.Keys
    }

    /** `links` and `next` of the nodes below `n` form the chain `kids[n]`, whose labels are distinct. */
    ghost predicate ChainOk(n: TrieNode)
      reads nodes
      requires n in nodes && NamesOk()
    {
      var ks := kids[n];
      && n.links == (if ks == [] then null else ks[0])
      && (forall i {:trigger ks[i]} :: 0 <= i < |ks| ==>
            ks[i] in nodes
            && ks[i].next == (if i + 1 < |ks| then ks[i + 1] else null)
            && path[ks[i]] == path[n] + [ks[i].c])
      && (forall i, j :: 0 <= i < j < |ks| ==> ks[i].c != ks[j].c)
    }

    /** `path` and `at` are inverse to each other. */
    ghost predicate NamesOk() {
      && root in nodes && path.Keys == nodes && kids.Keys == nodes
      && path[root] == []
      && (forall n :: n in nodes ==> path[n] in at && at[path[n]] == n)
      && (forall p :: p in at ==> at[p] in nodes && path[at[p]] == p)
    }

    ghost predicate HasParent(n: TrieNode)
      requires NamesOk() && n in nodes
    {
      path[n] != [] && Front(path[n]) in at && n in kids[at[Front(path[n])]]
    }

    /** The tree of links: every node but the root is in the chain of the node that spells its path
        without the last byte. */
    ghost predicate ShapeOk()
      reads nodes
    {
      && NamesOk()
      && (forall n {:trigger ChainOk(n)} :: n in nodes ==> ChainOk(n))
      && (forall n {:trigger HasParent(n)} :: n in nodes && n != root ==> HasParent(n))
    }

    ghost predicate FailsTo(n: TrieNode)
      requires n in nodes && n != root && ShapeOk()
      reads nodes
    {
      assert HasParent(n);
      assert [] == path[root];
      n.fail != null && n.fail in nodes && path[n.fail] == Longest(Paths(), path[n][1..])
    }

    /** What `ac_trie_prepare` leaves in `fail`: the longest proper suffix that is a path. */
    ghost predicate FailOk()
      reads nodes
      requires ShapeOk()
    {
      forall n {:trigger FailsTo(n)} :: n in nodes && n != root ==> FailsTo(n)
    }

    ghost predicate LeafOk()
      reads nodes
      requires NamesOk()
    {
      && KeysOf(keys, Paths())
      && forall n :: n in nodes ==> n.leaf == Leaf(keys, path[n])
    }

    ghost predicate Valid()
      reads nodes
    {
      ShapeOk() && FailOk() && LeafOk()
    }

    lemma PathsArePrefixClosed()
      requires ShapeOk()
      ensures PrefixClosed(Paths())
    {
      assert [] == path[root];
      forall p | p in Paths() && p != []
        ensures Front(p) in Paths()
      {
        assert HasParent(at[p]);
      }
    }

    /** A one-byte extension that is a path is spelled by a child. */
    lemma ChildOf(n: TrieNode, c: Byte) returns (i: nat)
      requires ShapeOk() && n in nodes && path[n] + [c] in Paths()
      ensures i < |kids[n]| && kids[n][i].c == c
    {
      var m := at[path[n] + [c]];
      assert Front(path[n] + [c]) == path[n];
      assert HasParent(m) && ChainOk(n);
      i :| 0 <= i < |kids[n]| && kids[n][i] == m;
      assert (path[n] + [c])[|path[n]|] == (path[n] + [m.c])[|path[n]|];
    }

    /** A chain in which no label is `c` belongs to a node that `c` does not extend to a path. */
    lemma NoSuchChild(n: TrieNode, c: Byte)
      requires ShapeOk() && n in nodes
      requires NoneLabelled(kids[n], |kids[n]|, c)
      ensures path[n] + [c] !in Paths()
    {
      if path[n] + [c] in Paths() {
        var i := ChildOf(n, c);
        assert false;
      }
    }

    /** The failure link of a node that cannot be extended leads to a shallower node with the same goal. */
    lemma FailLink(n: TrieNode, c: Byte)
      requires Valid() && n in nodes && n != root
      requires path[n] + [c] !in Paths()
      ensures n.fail != null && n.fail in nodes && |path[n.fail]| < |path[n]|
      ensures [] in Paths()
      ensures Longest(Paths(), path[n] + [c]) == Longest(Paths(), path[n.fail] + [c])
    {
      assert FailsTo(n);
      PathsArePrefixClosed();
      FailureStep(Paths(), path[n], c);
    }

    lemma ChainLink(n: TrieNode, i: nat)
      requires ShapeOk() && n in nodes && i < |kids[n]|
      ensures kids[n][i] in nodes
      ensures kids[n][i].next == if i + 1 < |kids[n]| then kids[n][i + 1] else null
      ensures path[kids[n][i]] == path[n] + [kids[n][i].c]
    {
      assert ChainOk(n);
    }

    /** An empty trie: a root without children, prepared for searching. */
    constructor ()
      ensures Valid() && fresh(root) && nodes == {root} && keys == {}
    {
      var r := new TrieNode(0);
      root := r;
      nodes, path, at, kids, keys := {r}, map[r := []], map[[] := r], map[r := []], {};
    }

    /** A trie with the word `c` `c`, whose last node fails to its first. */
    constructor Twice(c: Byte)
      ensures Valid() && keys == {[c, c]}
    {
      var r := new TrieNode(0);
      var n := new TrieNode(c);
      var m := new TrieNode(c);
      r.links, n.links, n.fail, m.fail, m.leaf := n, m, r, n, 2;
      root := r;
      nodes, path, at := {r, n, m}, map[r := [], n := [c], m := [c, c]], map[[] := r, [c] := n, [c, c] := m];
      kids, keys := map[r := [n], n := [m], m := []], {[c, c]};
      new;
      TwiceIsValid(r, n, m, c);
    }

    ghost predicate IsTwice(r: TrieNode, n: TrieNode, m: TrieNode, c: Byte)
      reads r, n, m
    {
      && r != n && r != m && n != m && root == r && nodes == {r, n, m}
      && path == map[r := [], n := [c], m := [c, c]] && at == map[[] := r, [c] := n, [c, c] := m]
      && kids == map[r := [n], n := [m], m := []] && keys == {[c, c]}
      && r.links == n && n.links == m && m.links == null && n.next == null && m.next == null
      && n.fail == r && m.fail == n && n.c == c && m.c == c
      && r.leaf == 0 && n.leaf == 0 && m.leaf == 2
    }

    lemma TwiceNames(r: TrieNode, n: TrieNode, m: TrieNode, c: Byte)
      requires IsTwice(r, n, m, c)
      ensures NamesOk() && LeafOk()
    {
    }

    lemma TwiceShape(r: TrieNode, n: TrieNode, m: TrieNode, c: Byte)
      requires IsTwice(r, n, m, c) && NamesOk()
      ensures ShapeOk()
    {
      assert ChainOk(r) && ChainOk(n) && ChainOk(m) by {
        assert [] + [c] == [c] && [c] + [c] == [c, c];
      }
      assert HasParent(n) && HasParent(m) by {
        assert Front([c]) == [] && Front([c, c]) == [c];
      }
    }

    lemma TwiceIsValid(r: TrieNode, n: TrieNode, m: TrieNode, c: Byte)
      requires IsTwice(r, n, m, c)
      ensures Valid()
    {
      TwiceNames(r, n, m, c);
      TwiceShape(r, n, m, c);
      assert FailsTo(n) by {
        assert path[n][1..] == [];
      }
      assert FailsTo(m) by {
        assert path[m][1..] == [c] && [c] in Paths();
      }
    }

    /** One edge: the child of `node` labelled `c`; at the root a missing edge leads back to the root. */
    method TrieGoto(node: TrieNode, c: Byte) returns (result: TrieNode?)
      requires Valid() && node in nodes
      ensures result != null ==> result in nodes
      ensures path[node] + [c] in Paths() ==> result != null && path[result] == path[node] + [c]
      ensures path[node] + [c] !in Paths() ==> result == if node == root then root else null
      ensures result != null ==> [] in Paths() && path[result] == Longest(Paths(), path[node] + [c])
    {
      ghost var ks := kids[node];
      ghost var i := 0;
      assert ChainOk(node);
      var next := node.links;
      while next != null
        invariant 0 <= i <= |ks|
        invariant next == if i < |ks| then ks[i] else null
        invariant NoneLabelled(ks, i, c)
        decreases |ks| - i
      {
        ChainLink(node, i);
        if next.c == c {
          return next;
        }
        next := next.next;
        i := i + 1;
      }
      NoSuchChild(node, c);
      assert [] == path[root];
      if root == node {
        assert ([] + [c])[1..] == [];
        return root;
      }
      return null;
    }

    /** The node that `j` failure links lead to. */
    ghost function FailAt(n: TrieNode, j: nat): (r: TrieNode)
      requires n in nodes
      ensures r in nodes
      reads nodes
      decreases j
    {
      if j == 0 || n.fail == null || n.fail !in nodes then n else FailAt(n.fail, j - 1)
    }

    lemma {:induction false} OneLinkMore(n: TrieNode, j: nat)
      requires n in nodes && FailAt(n, j).fail != null && FailAt(n, j).fail in nodes
      ensures FailAt(n, j + 1) == FailAt(n, j).fail
      decreases j
    {
      if j > 0 && n.fail != null && n.fail in nodes {
        OneLinkMore(n.fail, j - 1);
      }
    }

    /** The node has no edge for `c`, not even the one of the root to itself. */
    ghost predicate Stuck(n: TrieNode, c: Byte)
      requires NamesOk() && n in nodes
    {
      path[n] + [c] !in Paths() && n != root
    }

    ghost predicate StuckFor(n: TrieNode, c: Byte, steps: nat)
      requires NamesOk() && n in nodes
      reads nodes
    {
      forall j: nat :: j < steps ==> Stuck(FailAt(n, j), c)
    }

    lemma StuckOnceMore(n: TrieNode, c: Byte, steps: nat)
      requires NamesOk() && n in nodes && StuckFor(n, c, steps) && Stuck(FailAt(n, steps), c)
      requires FailAt(n, steps).fail != null && FailAt(n, steps).fail in nodes
      ensures StuckFor(n, c, steps + 1) && FailAt(n, steps + 1) == FailAt(n, steps).fail
    {
      OneLinkMore(n, steps);
    }

    /** From `n` it takes exactly `steps` failure links to come to a node with an edge for `c`. */
    ghost predicate LinksNeeded(n: TrieNode, c: Byte, steps: nat)
      requires NamesOk() && n in nodes
      reads nodes
    {
      !Stuck(FailAt(n, steps), c) && StuckFor(n, c, steps)
    }

    /** The loop of `ac_trie_next`: failure links are followed until some node has an edge for `c`. */
    method FollowFailures(node: TrieNode, c: Byte) returns (target: TrieNode, ghost steps: nat)
      requires Valid() && node in nodes
      ensures target in nodes && [] in Paths()
      ensures path[target] == Longest(Paths(), path[node] + [c])
      ensures target.leaf == Report(Paths(), keys, path[node] + [c])
      ensures steps + |path[target]| <= |path[node]| + 1
      ensures LinksNeeded(node, c, steps)
    {
      steps := 0;
      var cur: TrieNode := node;
      var next := TrieGoto(cur, c);
      assert path[root] in Paths();
      while next == null
        invariant Followed(node, c, cur, steps)
        invariant next != null ==> next in nodes && path[next] == Longest(Paths(), path[cur] + [c])
        invariant Stuck(cur, c) <==> next == null
        decreases |path[cur]|
      {
        FollowOne(node, c, cur, steps);
        cur := cur.fail;
        steps := steps + 1;
        next := TrieGoto(cur, c);
      }
      target := next;
    }

    /** Having followed `steps` links from `node` to `cur`, all of them needed, the goal for `c` is the same. */
    ghost predicate Followed(node: TrieNode, c: Byte, cur: TrieNode, steps: nat)
      requires NamesOk() && node in nodes
      reads nodes
    {
      && [] in Paths() && cur in nodes && cur == FailAt(node, steps) && StuckFor(node, c, steps)
      && Longest(Paths(), path[cur] + [c]) == Longest(Paths(), path[node] + [c])
      && steps + |path[cur]| <= |path[node]|
    }

    lemma FollowOne(node: TrieNode, c: Byte, cur: TrieNode, steps: nat)
      requires Valid() && node in nodes && Followed(node, c, cur, steps) && Stuck(cur, c)
      ensures cur.fail != null && cur.fail in nodes && |path[cur.fail]| < |path[cur]|
      ensures Followed(node, c, cur.fail, steps + 1)
    {
      FailLink(cur, c);
      StuckOnceMore(node, c, steps);
    }

    /** Membership of a word, found by walking down the chains without failure links. */
    method TrieSearch(key: seq<Byte>) returns (found: bool)
      requires Valid()
      ensures found <==> key in keys
    {
      var node := root;
      var k := 0;
      PathsArePrefixClosed();
      while k < |key|
        invariant 0 <= k <= |key|
        invariant node in nodes && path[node] == key[..k]
      {
        ghost var parent := node;
        ghost var ks := kids[parent];
        ghost var i := 0;
        assert ChainOk(parent);
        var child := node.links;
        if child == null {
          NoSuchChild(parent, key[k]);
          NotAKey(Paths(), keys, key, k);
          return false;
        }
        node := child;
        var p := key[k];
        while p != node.c
          invariant 0 <= i < |ks| && node == ks[i]
          invariant NoneLabelled(ks, i, p)
          decreases |ks| - i
        {
          ChainLink(parent, i);
          if node.next == null {
            NoSuchChild(parent, p);
            NotAKey(Paths(), keys, key, k);
            return false;
          }
          assert NoneLabelled(ks, i + 1, p);
          node := node.next;
          i := i + 1;
        }
        ChainLink(parent, i);
        TakeNext(key, k);
        k := k + 1;
      }
      assert key[..k] == key;
      return node.leaf > 0;
    }
  }

  lemma {:induction false} PrefixesArePaths(paths: set<seq<Byte>>, p: seq<Byte>, k: nat)
    requires PrefixClosed(paths) && p in paths && k <= |p|
    ensures p[..k] in paths
    decreases |p| - k
  {
    if k == |p| {
      assert p[..k] == p;
    } else {
      PrefixesArePaths(paths, p, k + 1);
      assert Front(p[..k + 1]) == p[..k];
    }
  }

  /** A word one of whose prefixes is not a path is not a key. */
  lemma NotAKey(paths: set<seq<Byte>>, keys: set<seq<Byte>>, key: seq<Byte>, k: nat)
    requires PrefixClosed(paths) && keys <= paths
    requires k < |key| && key[..k] + [key[k]] !in paths
    ensures key !in keys
  {
    assert key[..k + 1] == key[..k] + [key[k]];
    if key in keys {
      PrefixesArePaths(paths, key, k + 1);
    }
  }

  /** The state of one search.  The ghost fields record the text consumed since `ac_trie_init` and how
      many failure links were followed over the whole run. */
  class AcTrieState {
    const trie: TrieData
    var node: TrieNode?
    ghost var text: seq<Byte>
    ghost var followed: nat

    /** The invariant of a run over a trie that stays valid: a search writes no trie node. */
    ghost predicate Valid()
      reads this
    {
      && trie.NamesOk() && node != null && node in trie.nodes
      && [] in trie.Paths()
      && trie.path[node] == Longest(trie.Paths(), text)
      && followed + |trie.path[node]| <= |text|
    }

    /** A search starts at the root of a prepared trie. */
    constructor (trie: TrieData)
      requires trie.Valid()
      ensures Valid() && this.trie == trie && node == trie.root && text == [] && followed == 0
    {
      this.trie := trie;
      node := trie.root;
      text, followed := [], 0;
      new;
      assert [] == trie.path[trie.root];
    }

    /** Feeds one byte.  The new state is the longest suffix of everything consumed that is a path, the
        result is that node's `leaf`, and the failure links followed so far never outnumber the bytes. */
    method AcTrieNext(c: Byte) returns (k: nat, ghost steps: nat)
      requires trie.Valid() && Valid()
      modifies this
      ensures trie.Valid() && Valid() && text == old(text) + [c]
      ensures k == Report(trie.Paths(), trie.keys, text)
      ensures old(trie.LinksNeeded(node, c, steps)) && followed == old(followed) + steps <= |text|
    {
      assert Longest(trie.Paths(), text + [c]) == Longest(trie.Paths(), trie.path[node] + [c]) by {
        trie.PathsArePrefixClosed();
        LongestExtend(trie.Paths(), text, c);
      }
      var target;
      target, steps := trie.FollowFailures(node, c);
      MoveTo(target, c, steps);
      k := target.leaf;
    }

    /** A search changes its own state only, and no node of the trie. */
    method MoveTo(target: TrieNode, ghost c: Byte, ghost steps: nat)
      requires trie.Valid()
      modifies this
      ensures trie.Valid() && target.leaf == old(target.leaf)
      ensures node == target && text == old(text) + [c] && followed == old(followed) + steps
    {
      node := target;
      text, followed := text + [c], followed + steps;
    }
  }
}
