/**
 * AhoCorasickTree: a keyword automaton. The keywords are inserted into a
 * trie; failure links are then set level by level (breadth first), each
 * node failing to the node of the longest proper suffix of its word that is
 * in the trie, and each node's result list takes in its failure target's.
 * The queries walk a cursor over the text once.
 *
 * The tree owns its nodes: they are kept in a node table and a node
 * reference is an index into it, the root being index 0. Each node's word
 * (`paths`) and the table from words to nodes (`index`) are ghost
 * bookkeeping; the meaning of links and results is given on words by
 * module KeywordAutomaton.
 */
module AhoCorasick {
  import opened Common
  import opened KeywordAutomaton

  /**
   * A node of the tree: the character on the edge into it, its parent (none
   * for the root), its outgoing edges, its failure link (none until set) and
   * its result list.
   */
  datatype Node = Node(value: char, parent: Option<nat>, transitions: map<char, nat>, failure: Option<nat>, results: seq<string>)

  /** A fresh node, as `new AhoCorasickTreeNode(value, parent)` makes it. */
  function NewNode(value: char, parent: Option<nat>): Node {
    Node(value, parent, map[], None, [])
  }

  /** The elements of `s` are pairwise different. */
  predicate Distinct(s: seq<nat>) {
    forall i, j | 0 <= i < j < |s| :: s[i] != s[j]
  }

  // ---------------------------------------------------------------------
  // The trie shape

  /** Node `i` has word `paths[i]`, and `index` maps each word back to its only node. */
  ghost predicate Indexed(paths: seq<string>, index: map<string, nat>) {
    (forall i | 0 <= i < |paths| :: paths[i] in index && index[paths[i]] == i)
    && (forall p {:trigger index[p]} | p in index :: index[p] < |paths| && paths[index[p]] == p)
  }

  /** The edges out of each node are exactly its one-character extensions in the trie. */
  ghost predicate Edges(nodes: seq<Node>, paths: seq<string>, index: map<string, nat>)
    requires |nodes| == |paths|
  {
    (forall i, c {:trigger nodes[i].transitions[c]} | 0 <= i < |nodes| && c in nodes[i].transitions ::
       paths[i] + [c] in index && nodes[i].transitions[c] == index[paths[i] + [c]])
    && (forall i, c {:trigger paths[i] + [c]} | 0 <= i < |nodes| && paths[i] + [c] in index :: c in nodes[i].transitions)
  }

  /**
   * Every node but the root hangs from an earlier node, and its word is its
   * parent's extended by the character on its edge.
   */
  ghost predicate Hung(nodes: seq<Node>, paths: seq<string>)
    requires |nodes| == |paths|
  {
    forall i {:trigger nodes[i].parent} | 0 < i < |nodes| ::
      nodes[i].parent.Some? && nodes[i].parent.value < i
      && paths[i] == paths[nodes[i].parent.value] + [nodes[i].value]
  }

  /** The node table is a trie whose root is node 0, with the empty word. */
  ghost predicate Shape(nodes: seq<Node>, paths: seq<string>, index: map<string, nat>) {
    |nodes| >= 1 && |paths| == |nodes| && paths[0] == [] && nodes[0].parent == None
    && Indexed(paths, index) && Edges(nodes, paths, index) && Hung(nodes, paths)
  }

  /** The two tables differ at most in failure links and result lists. */
  ghost predicate SameShape(a: seq<Node>, b: seq<Node>) {
    |a| == |b|
    && forall i | 0 <= i < |a| ::
         a[i].value == b[i].value && a[i].parent == b[i].parent && a[i].transitions == b[i].transitions
  }

  /** Every keyword has a node. */
  ghost predicate AllIndexed(K: seq<string>, index: map<string, nat>) {
    forall k | k in K :: k in index
  }

  /** A node before failure links are set: no link, and only the keywords equal to its word. */
  ghost predicate UnlinkedAt(nodes: seq<Node>, paths: seq<string>, K: seq<string>, i: nat)
    requires i < |nodes| == |paths|
  {
    nodes[i].failure == None && nodes[i].results == Own(K, paths[i])
  }

  /** No node has a failure link yet. */
  ghost predicate AllUnlinked(nodes: seq<Node>, paths: seq<string>, K: seq<string>)
    requires |nodes| == |paths|
  {
    forall i | 0 <= i < |nodes| :: UnlinkedAt(nodes, paths, K, i)
  }

  /**
   * A linked node: it fails to the node of the longest proper suffix of its
   * word that is in the trie, and its results are those of `ResultsAt`.
   */
  ghost predicate LinkedAt(nodes: seq<Node>, paths: seq<string>, keys: set<string>, K: seq<string>, i: nat)
    requires i < |nodes| == |paths|
  {
    paths[i] != [] && nodes[i].failure.Some? && nodes[i].failure.value < |nodes|
    && paths[nodes[i].failure.value] == Longest(keys, paths[i][1..])
    && nodes[i].results == ResultsAt(K, keys, paths[i])
  }

  /**
   * Failure links set for every node shallower than `d` and for the nodes
   * `done`; the root and every other node still unlinked.
   */
  ghost predicate Linking(nodes: seq<Node>, paths: seq<string>, keys: set<string>, K: seq<string>, d: nat, done: seq<nat>)
    requires |nodes| == |paths|
  {
    |nodes| >= 1 && UnlinkedAt(nodes, paths, K, 0)
    && forall i | 0 < i < |nodes| :: LinkState(nodes, paths, keys, K, d, done, i)
  }

  /** Node `i` is linked if shallower than `d` or in `done`, and unlinked otherwise. */
  ghost predicate LinkState(nodes: seq<Node>, paths: seq<string>, keys: set<string>, K: seq<string>, d: nat, done: seq<nat>, i: nat)
    requires i < |nodes| == |paths|
  {
    if |paths[i]| < d || i in done then LinkedAt(nodes, paths, keys, K, i) else UnlinkedAt(nodes, paths, K, i)
  }

  /** `level` lists every node of depth `d`, each once. */
  ghost predicate Level(paths: seq<string>, level: seq<nat>, d: nat) {
    Distinct(level)
    && (forall y | y in level :: 0 < y < |paths| && |paths[y]| == d)
    && (forall y | 0 < y < |paths| && |paths[y]| == d :: y in level)
  }

  /** `level` lists, each once, the children of the nodes `parents`. */
  ghost predicate Gathered(nodes: seq<Node>, level: seq<nat>, parents: seq<nat>) {
    Distinct(level)
    && (forall y | y in level :: 0 < y < |nodes| && nodes[y].parent.Some? && nodes[y].parent.value in parents)
    && (forall y | 0 < y < |nodes| && nodes[y].parent.Some? && nodes[y].parent.value in parents :: y in level)
  }

  /** A bound on the length of the words. */
  ghost function Height(paths: seq<string>): (h: nat)
    ensures forall i | 0 <= i < |paths| :: |paths[i]| <= h
    decreases |paths|
  {
    if paths == [] then 0
    else
      var rest := Height(paths[1..]);
      assert forall i | 1 <= i < |paths| :: paths[i] == paths[1..][i - 1];
      if |paths[0]| > rest then |paths[0]| else rest
  }

  // ---------------------------------------------------------------------
  // Growing the trie

  /** The table after node `n` gets a new child by edge `c`. */
  function Hang(nodes: seq<Node>, n: nat, c: char): (r: seq<Node>)
    requires n < |nodes|
    ensures |r| == |nodes| + 1 && r[|nodes|] == NewNode(c, Some(n))
    ensures r[n].transitions == nodes[n].transitions[c := |nodes|]
    ensures r[n].value == nodes[n].value && r[n].parent == nodes[n].parent
    ensures r[n].failure == nodes[n].failure && r[n].results == nodes[n].results
    ensures forall i | 0 <= i < |nodes| && i != n :: r[i] == nodes[i]
  {
    var edges: map<char, nat> := nodes[n].transitions[c := |nodes|];
    nodes[n := nodes[n].(transitions := edges)] + [NewNode(c, Some(n))]
  }

  /** The table after `pattern` is appended to node `n`'s result list. */
  function Record(nodes: seq<Node>, n: nat, pattern: string): (r: seq<Node>)
    requires n < |nodes|
    ensures SameShape(nodes, r)
    ensures r[n].results == nodes[n].results + [pattern] && r[n].failure == nodes[n].failure
    ensures forall i | 0 <= i < |nodes| && i != n :: r[i] == nodes[i]
  {
    nodes[n := nodes[n].(results := nodes[n].results + [pattern])]
  }

  lemma GrowIndexed(paths: seq<string>, index: map<string, nat>, p: string)
    requires Indexed(paths, index) && p !in index
    ensures Indexed(paths + [p], index[p := |paths|])
  {
    var paths', index' := paths + [p], index[p := |paths|];
    forall i | 0 <= i < |paths'|
      ensures paths'[i] in index' && index'[paths'[i]] == i
    {
      if i < |paths| {
        assert paths'[i] == paths[i] && index[paths[i]] == i;
      }
    }
    forall q | q in index'
      ensures index'[q] < |paths'| && paths'[index'[q]] == q
    {
      if q != p {
        assert q in index && paths[index[q]] == q;
      }
    }
  }

  lemma GrowHung(nodes: seq<Node>, paths: seq<string>, n: nat, c: char)
    requires |nodes| == |paths| && n < |nodes| && Hung(nodes, paths)
    ensures Hung(Hang(nodes, n, c), paths + [paths[n] + [c]])
  {
    var nodes', paths' := Hang(nodes, n, c), paths + [paths[n] + [c]];
    forall i | 0 < i < |nodes'|
      ensures nodes'[i].parent.Some? && nodes'[i].parent.value < i
      ensures paths'[i] == paths'[nodes'[i].parent.value] + [nodes'[i].value]
    {
      if i < |nodes| {
        assert nodes[i].parent.Some?;
        assert nodes'[i].parent == nodes[i].parent && nodes'[i].value == nodes[i].value;
      }
    }
  }

  lemma GrowEdges(nodes: seq<Node>, paths: seq<string>, index: map<string, nat>, n: nat, c: char)
    requires Shape(nodes, paths, index) && n < |nodes| && paths[n] + [c] !in index
    ensures var p := paths[n] + [c];
      Edges(Hang(nodes, n, c), paths + [p], index[p := |nodes|])
  {
    GrowEdgesOut(nodes, paths, index, n, c);
    GrowEdgesIn(nodes, paths, index, n, c);
  }

  /** After hanging, every edge leads to the node of its word. */
  lemma GrowEdgesOut(nodes: seq<Node>, paths: seq<string>, index: map<string, nat>, n: nat, c: char)
    requires Shape(nodes, paths, index) && n < |nodes| && paths[n] + [c] !in index
    ensures var nodes', paths', index' := Hang(nodes, n, c), paths + [paths[n] + [c]], index[paths[n] + [c] := |nodes|];
      forall i, d {:trigger nodes'[i].transitions[d]} | 0 <= i < |nodes'| && d in nodes'[i].transitions ::
        paths'[i] + [d] in index' && nodes'[i].transitions[d] == index'[paths'[i] + [d]]
  {
    var p := paths[n] + [c];
    var nodes', paths', index' := Hang(nodes, n, c), paths + [p], index[p := |nodes|];
    forall i, d | 0 <= i < |nodes'| && d in nodes'[i].transitions
      ensures paths'[i] + [d] in index' && nodes'[i].transitions[d] == index'[paths'[i] + [d]]
    {
      if i != n || d != c {
        assert i < |nodes| && d in nodes[i].transitions && nodes'[i].transitions[d] == nodes[i].transitions[d];
        assert paths'[i] == paths[i] && paths[i] + [d] in index;
      }
    }
  }

  /** After hanging, every one-character extension of a node's word that is a trie word is an edge. */
  lemma GrowEdgesIn(nodes: seq<Node>, paths: seq<string>, index: map<string, nat>, n: nat, c: char)
    requires Shape(nodes, paths, index) && n < |nodes| && paths[n] + [c] !in index
    ensures var nodes', paths', index' := Hang(nodes, n, c), paths + [paths[n] + [c]], index[paths[n] + [c] := |nodes|];
      forall i, d {:trigger paths'[i] + [d]} | 0 <= i < |nodes'| && paths'[i] + [d] in index' :: d in nodes'[i].transitions
  {
    var p := paths[n] + [c];
    var nodes', paths', index' := Hang(nodes, n, c), paths + [p], index[p := |nodes|];
    forall i, d | 0 <= i < |nodes'| && paths'[i] + [d] in index'
      ensures d in nodes'[i].transitions
    {
      var w := paths'[i] + [d];
      if w == p {
        assert paths'[i] == w[..|w| - 1] == paths[n];
        assert index'[paths'[i]] == i && index'[paths[n]] == n;
      } else {
        assert w in index;
        var j := index[w];
        assert paths[j] == w && j != 0;
        assert nodes[j].parent.Some?;
        assert w[..|w| - 1] == paths'[i] == paths[nodes[j].parent.value];
        if i == |nodes| {
          assert false;
        }
        assert paths[i] + [d] in index;
      }
    }
  }

  /** Hanging a new node for a word not yet in the trie keeps it a trie. */
  lemma GrowShape(nodes: seq<Node>, paths: seq<string>, index: map<string, nat>, n: nat, c: char)
    requires Shape(nodes, paths, index) && n < |nodes| && paths[n] + [c] !in index
    ensures var p := paths[n] + [c];
      Shape(Hang(nodes, n, c), paths + [p], index[p := |nodes|])
  {
    var p := paths[n] + [c];
    GrowIndexed(paths, index, p);
    GrowHung(nodes, paths, n, c);
    GrowEdges(nodes, paths, index, n, c);
  }

  /** A new node for a word that is no keyword is unlinked. */
  lemma GrowUnlinked(nodes: seq<Node>, paths: seq<string>, K: seq<string>, n: nat, c: char)
    requires |nodes| == |paths| && n < |nodes| && AllUnlinked(nodes, paths, K) && paths[n] + [c] !in K
    ensures AllUnlinked(Hang(nodes, n, c), paths + [paths[n] + [c]], K)
  {
    var nodes', paths' := Hang(nodes, n, c), paths + [paths[n] + [c]];
    forall i | 0 <= i < |nodes'|
      ensures UnlinkedAt(nodes', paths', K, i)
    {
      if i < |nodes| {
        assert UnlinkedAt(nodes, paths, K, i) && paths'[i] == paths[i];
      }
    }
  }

  /** Recording a node's own word as a keyword keeps every node unlinked under the longer keyword list. */
  lemma RecordUnlinked(nodes: seq<Node>, paths: seq<string>, index: map<string, nat>, K: seq<string>, n: nat)
    requires |nodes| == |paths| && n < |nodes|
    requires AllUnlinked(nodes, paths, K) && Indexed(paths, index)
    ensures AllUnlinked(Record(nodes, n, paths[n]), paths, K + [paths[n]])
  {
    var nodes' := Record(nodes, n, paths[n]);
    forall i | 0 <= i < |nodes|
      ensures UnlinkedAt(nodes', paths, K + [paths[n]], i)
    {
      assert UnlinkedAt(nodes, paths, K, i);
      OwnAppend(K, paths[n], paths[i]);
      if i != n {
        assert index[paths[i]] == i && index[paths[n]] == n;
      }
    }
  }

  /** The shape depends on edges and parents only. */
  lemma ShapeKept(a: seq<Node>, b: seq<Node>, paths: seq<string>, index: map<string, nat>)
    requires Shape(a, paths, index) && SameShape(a, b)
    ensures Shape(b, paths, index)
  {
    forall i, c | 0 <= i < |b| && c in b[i].transitions
      ensures paths[i] + [c] in index && b[i].transitions[c] == index[paths[i] + [c]]
    {
      assert a[i].transitions == b[i].transitions;
    }
    forall i, c | 0 <= i < |b| && paths[i] + [c] in index
      ensures c in b[i].transitions
    {
      assert a[i].transitions == b[i].transitions;
    }
    forall i | 0 < i < |b|
      ensures b[i].parent.Some? && b[i].parent.value < i && paths[i] == paths[b[i].parent.value] + [b[i].value]
    {
      assert a[i].parent.Some?;
    }
  }

  // ---------------------------------------------------------------------
  // Facts about a trie

  /** The trie's words are prefix-closed, hold the root's and every keyword's. */
  lemma ShapeCovers(nodes: seq<Node>, paths: seq<string>, index: map<string, nat>, K: seq<string>)
    requires Shape(nodes, paths, index) && AllIndexed(K, index)
    ensures Covers(K, index.Keys)
  {
    forall k | k in index && k != []
      ensures k[..|k| - 1] in index
    {
      var i := index[k];
      assert paths[i] == k && i != 0 && nodes[i].parent.Some?;
      assert k[..|k| - 1] == paths[nodes[i].parent.value];
    }
  }

  /** Every prefix of a trie word is a trie word. */
  lemma {:induction false} PrefixInTrie(nodes: seq<Node>, paths: seq<string>, index: map<string, nat>, p: string, j: nat)
    requires Shape(nodes, paths, index) && p in index && j <= |p|
    ensures p[..j] in index
    decreases |p| - j
  {
    if j < |p| {
      var i := index[p];
      assert paths[i] == p && i != 0 && nodes[i].parent.Some?;
      var q := p[..|p| - 1];
      assert q == paths[nodes[i].parent.value];
      PrefixInTrie(nodes, paths, index, q, j);
      assert q[..j] == p[..j];
    } else {
      assert p[..j] == p;
    }
  }

  /** The targets of a node's edges are exactly the nodes that hang from it. */
  lemma ChildrenOf(nodes: seq<Node>, paths: seq<string>, index: map<string, nat>, i: nat, y: int)
    requires Shape(nodes, paths, index) && i < |nodes|
    ensures y in nodes[i].transitions.Values <==> 0 < y < |nodes| && nodes[y].parent == Some(i)
  {
    if y in nodes[i].transitions.Values {
      var c :| c in nodes[i].transitions && nodes[i].transitions[c] == y;
      assert paths[y] == paths[i] + [c];
      assert y != 0;
      assert nodes[y].parent.Some?;
      var q := nodes[y].parent.value;
      assert paths[q] == paths[y][..|paths[y]| - 1] == paths[i];
      assert index[paths[q]] == q && index[paths[i]] == i;
    }
    if 0 < y < |nodes| && nodes[y].parent == Some(i) {
      var c := nodes[y].value;
      assert paths[y] == paths[i] + [c];
      assert c in nodes[i].transitions;
      assert nodes[i].transitions[c] == y;
    }
  }


  // ---------------------------------------------------------------------
  // Setting the failure links

  lemma LongestOfEmpty(keys: set<string>)
    ensures Longest(keys, []) == []
  {
    var r := Longest(keys, []);
    assert |r| <= 0;
  }

  /** A node none of whose word's proper suffixes is in the trie is linked by failing to the root. */
  lemma LinkedToRoot(nodes: seq<Node>, paths: seq<string>, keys: set<string>, K: seq<string>, x: nat)
    requires 0 < x < |nodes| == |paths| && paths[0] == [] && paths[x] != []
    requires nodes[x].results == Own(K, paths[x]) && Longest(keys, paths[x][1..]) == []
    ensures LinkedAt(nodes[x := nodes[x].(failure := Some(0))], paths, keys, K, x)
  {
    assert ResultsAt(K, keys, paths[x]) == Own(K, paths[x]) + [];
  }

  /**
   * A node is linked by failing to the node `t` of the longest proper suffix
   * of its word in the trie, when there is one, and taking in `t`'s results.
   */
  lemma LinkedToTarget(nodes: seq<Node>, paths: seq<string>, keys: set<string>, K: seq<string>, x: nat, t: nat)
    requires x < |nodes| == |paths| && t < |nodes| && paths[x] != []
    requires nodes[x].results == Own(K, paths[x]) && nodes[t].results == ResultsAt(K, keys, paths[t])
    requires paths[t] == Longest(keys, paths[x][1..]) && paths[t] != []
    ensures LinkedAt(nodes[x := nodes[x].(failure := Some(t), results := nodes[x].results + nodes[t].results)], paths, keys, K, x)
  {
    assert ResultsAt(K, keys, paths[x]) == Own(K, paths[x]) + ResultsAt(K, keys, paths[t]);
  }

  /** Setting node `x`'s link from the outcome `found` of the failure walk extends the done list. */
  lemma LinkStep(nodes: seq<Node>, paths: seq<string>, index: map<string, nat>, K: seq<string>,
                 x: nat, d: nat, done: seq<nat>, found: Option<nat>, t: nat, extra: seq<string>)
    requires Shape(nodes, paths, index) && 0 < x < |nodes| && |paths[x]| == d && d >= 2 && x !in done
    requires Linking(nodes, paths, index.Keys, K, d, done)
    requires found.Some? ==> found.value < |nodes| && nodes[x].value in nodes[found.value].transitions
    requires found.Some? ==> paths[found.value] + [nodes[x].value] == Longest(index.Keys, paths[x][1..])
    requires found.Some? ==> t == nodes[found.value].transitions[nodes[x].value]
    requires found.Some? ==> t < |nodes| && extra == nodes[t].results
    requires found.None? ==> Longest(index.Keys, paths[x][1..]) == [] && t == 0 && extra == []
    ensures Linking(nodes[x := nodes[x].(failure := Some(t), results := nodes[x].results + extra)], paths, index.Keys, K, d, done + [x])
  {
    var keys := index.Keys;
    var r := nodes[x := nodes[x].(failure := Some(t), results := nodes[x].results + extra)];
    assert LinkState(nodes, paths, keys, K, d, done, x);
    if found.None? {
      assert nodes[x].results + extra == nodes[x].results;
      assert r == nodes[x := nodes[x].(failure := Some(0))];
      LinkedToRoot(nodes, paths, keys, K, x);
    } else {
      assert paths[t] == Longest(keys, paths[x][1..]);
      assert t != 0 && LinkState(nodes, paths, keys, K, d, done, t);
      LinkedToTarget(nodes, paths, keys, K, x, t);
    }
    LinkingAdd(nodes, r, paths, keys, K, d, done, x);
  }

  /** Changing only a node's failure link and results keeps the trie shape. */
  lemma Relinked(nodes: seq<Node>, a: seq<Node>, paths: seq<string>, index: map<string, nat>, x: nat, n: Node)
    requires Shape(a, paths, index) && SameShape(nodes, a) && x < |a|
    requires n == a[x].(failure := n.failure, results := n.results)
    ensures Shape(a[x := n], paths, index) && SameShape(nodes, a[x := n])
  {
    var b := a[x := n];
    assert SameShape(a, b);
    ShapeKept(a, b, paths, index);
  }

  /** The `j`th child of the root is linked by failing to the root. */
  lemma FailToRootStep(a: seq<Node>, paths: seq<string>, index: map<string, nat>, K: seq<string>, roots: seq<nat>, j: nat)
    requires Shape(a, paths, index) && Level(paths, roots, 1) && j < |roots| && roots[j] < |a|
    requires Linking(a, paths, index.Keys, K, 1, roots[..j])
    ensures Linking(a[roots[j] := a[roots[j]].(failure := Some(0))], paths, index.Keys, K, 1, roots[..j + 1])
  {
    var keys := index.Keys;
    var node := roots[j];
    var b := a[node := a[node].(failure := Some(0))];
    assert node in roots && node !in roots[..j];
    assert |paths[node]| == 1 && LinkState(a, paths, keys, K, 1, roots[..j], node);
    assert paths[node][1..] == [];
    LongestOfEmpty(keys);
    assert LinkedAt(b, paths, keys, K, node);
    LinkingAdd(a, b, paths, keys, K, 1, roots[..j], node);
    assert roots[..j + 1] == roots[..j] + [node];
  }

  /** The `j`th member of a level is a node of that depth, not listed before. */
  lemma InLevel(paths: seq<string>, level: seq<nat>, d: nat, j: nat)
    requires Level(paths, level, d) && j < |level|
    ensures 0 < level[j] < |paths| && |paths[level[j]]| == d && level[j] !in level[..j]
    ensures level[..j + 1] == level[..j] + [level[j]]
  {
    assert level[j] in level;
  }

  /** Gathering the children of `parents[j]`, read from a table of the same shape. */
  lemma GatherNext(nodes: seq<Node>, r: seq<Node>, level: seq<nat>, parents: seq<nat>, j: nat, kids: seq<nat>)
    requires SameShape(nodes, r) && Distinct(parents) && j < |parents| && Distinct(kids)
    requires Gathered(nodes, level, parents[..j])
    requires forall y :: y in kids <==> 0 < y < |r| && r[y].parent == Some(parents[j])
    ensures Gathered(nodes, level + kids, parents[..j + 1])
  {
    var x := parents[j];
    assert x !in parents[..j];
    forall y
      ensures y in kids <==> 0 < y < |nodes| && nodes[y].parent == Some(x)
    {
      if 0 <= y < |nodes| {
        assert r[y].parent == nodes[y].parent;
      }
    }
    GatherStep(nodes, level, parents[..j], kids, x);
    assert parents[..j + 1] == parents[..j] + [x];
  }

  /** After a whole level of depth `d`, the next level holds the nodes of depth `d + 1`. */
  lemma LevelDone(nodes: seq<Node>, r: seq<Node>, paths: seq<string>, index: map<string, nat>, K: seq<string>,
                  current: seq<nat>, d: nat, next: seq<nat>)
    requires Shape(nodes, paths, index) && |r| == |paths| && d >= 1
    requires Level(paths, current, d) && Linking(r, paths, index.Keys, K, d, current[..|current|])
    requires Gathered(nodes, next, current[..|current|])
    ensures Linking(r, paths, index.Keys, K, d + 1, []) && Level(paths, next, d + 1)
    ensures |next| != 0 ==> d + 1 <= Height(paths)
  {
    assert current[..|current|] == current;
    LinkingNextLevel(r, paths, index.Keys, K, d, current);
    LevelFromParents(nodes, paths, index, next, current, d);
    if |next| != 0 {
      assert next[0] in next;
    }
  }

  /** Before any link is set, the links are set for every node shallower than 1 (none but the root). */
  lemma BuiltLinking(nodes: seq<Node>, paths: seq<string>, index: map<string, nat>, K: seq<string>)
    requires Shape(nodes, paths, index) && AllUnlinked(nodes, paths, K)
    ensures Linking(nodes, paths, index.Keys, K, 1, [])
  {
    forall i | 0 < i < |nodes|
      ensures LinkState(nodes, paths, index.Keys, K, 1, [], i)
    {
      assert nodes[i].parent.Some? && |paths[i]| >= 1;
    }
  }

  /** Linking one more node `x` (all others untouched) extends the done list. */
  lemma LinkingAdd(a: seq<Node>, b: seq<Node>, paths: seq<string>, keys: set<string>, K: seq<string>,
                   d: nat, done: seq<nat>, x: nat)
    requires |a| == |b| == |paths| && 0 < x < |b|
    requires Linking(a, paths, keys, K, d, done) && LinkedAt(b, paths, keys, K, x)
    requires forall i | 0 <= i < |a| && i != x :: b[i] == a[i]
    ensures Linking(b, paths, keys, K, d, done + [x])
  {
    assert b[0] == a[0];
    forall i | 0 < i < |b|
      ensures LinkState(b, paths, keys, K, d, done + [x], i)
    {
      if i != x {
        assert b[i] == a[i];
        assert LinkState(a, paths, keys, K, d, done, i);
      }
    }
  }

  /** Once a whole level is done, the links are set for every node one level deeper. */
  lemma LinkingNextLevel(nodes: seq<Node>, paths: seq<string>, keys: set<string>, K: seq<string>, d: nat, level: seq<nat>)
    requires |nodes| == |paths| && Level(paths, level, d) && Linking(nodes, paths, keys, K, d, level)
    ensures Linking(nodes, paths, keys, K, d + 1, [])
  {
    var next := d + 1;
    forall i | 0 < i < |nodes|
      ensures LinkState(nodes, paths, keys, K, next, [], i)
    {
      assert LinkState(nodes, paths, keys, K, d, level, i);
      if |paths[i]| == d {
        assert i in level;
      }
    }
  }

  /** Adding the children `kids` of one more parent `x` to a gathered level. */
  lemma GatherStep(nodes: seq<Node>, level: seq<nat>, parents: seq<nat>, kids: seq<nat>, x: nat)
    requires Gathered(nodes, level, parents) && x !in parents && Distinct(kids)
    requires forall y :: y in kids <==> 0 < y < |nodes| && nodes[y].parent == Some(x)
    ensures Gathered(nodes, level + kids, parents + [x])
  {
    var r := level + kids;
    forall i, j | 0 <= i < j < |r|
      ensures r[i] != r[j]
    {
      if i < |level| && j >= |level| {
        assert r[i] in level && r[j] in kids;
        assert nodes[r[i]].parent.value in parents;
      } else if i >= |level| {
        assert r[i] == kids[i - |level|] && r[j] == kids[j - |level|];
      }
    }
    forall y | 0 < y < |nodes| && nodes[y].parent.Some? && nodes[y].parent.value in parents + [x]
      ensures y in r
    {
      if nodes[y].parent.value in parents {
        assert y in level;
      } else {
        assert y in kids;
      }
    }
  }

  /** The children of the nodes of depth `d` (at least 1) are the nodes of depth `d + 1`. */
  lemma LevelFromParents(nodes: seq<Node>, paths: seq<string>, index: map<string, nat>,
                         level: seq<nat>, parents: seq<nat>, d: nat)
    requires Shape(nodes, paths, index) && d >= 1
    requires Level(paths, parents, d) && Gathered(nodes, level, parents)
    ensures Level(paths, level, d + 1)
  {
    forall y | y in level
      ensures 0 < y < |paths| && |paths[y]| == d + 1
    {
      assert nodes[y].parent.Some? && nodes[y].parent.value in parents;
    }
    forall y | 0 < y < |paths| && |paths[y]| == d + 1
      ensures y in level
    {
      assert nodes[y].parent.Some?;
      var p := nodes[y].parent.value;
      assert |paths[p]| == d && p != 0;
    }
  }

  /** The nodes of depth 1 are the root's children. */
  lemma DepthOne(nodes: seq<Node>, paths: seq<string>, index: map<string, nat>, roots: seq<nat>)
    requires Shape(nodes, paths, index) && Distinct(roots)
    requires forall y :: y in roots <==> 0 < y < |nodes| && nodes[y].parent == Some(0)
    ensures Level(paths, roots, 1)
  {
    forall y | 0 < y < |paths|
      ensures y in roots <==> |paths[y]| == 1
    {
      assert nodes[y].parent.Some?;
      var p := nodes[y].parent.value;
      if |paths[y]| == 1 {
        assert paths[p] == [] == paths[0];
        assert index[paths[p]] == p && index[paths[0]] == 0;
      }
    }
  }

  /** A node of depth at least `d` has an ancestor of depth exactly `d`. */
  lemma DeepNode(nodes: seq<Node>, paths: seq<string>, index: map<string, nat>, i: nat, d: nat) returns (j: nat)
    requires Shape(nodes, paths, index) && i < |nodes| && 1 <= d <= |paths[i]|
    ensures 0 < j < |paths| && |paths[j]| == d
  {
    PrefixInTrie(nodes, paths, index, paths[i], d);
    j := index[paths[i][..d]];
  }

  /** When no node has depth `d` (at least 1), every node is shallower. */
  lemma EmptyLevel(nodes: seq<Node>, paths: seq<string>, index: map<string, nat>, d: nat)
    requires Shape(nodes, paths, index) && d >= 1 && Level(paths, [], d)
    ensures forall i | 0 <= i < |nodes| :: |paths[i]| < d
  {
    forall i | 0 <= i < |nodes|
      ensures |paths[i]| < d
    {
      if |paths[i]| >= d {
        var j := DeepNode(nodes, paths, index, i, d);
        assert false;
      }
    }
  }

  /** No two edges of the map lead to the same node. */
  ghost predicate Injective(edges: map<char, nat>) {
    forall c, e | c in edges && e in edges && c != e :: edges[c] != edges[e]
  }

  /** The edges out of a trie node lead to different nodes. */
  lemma EdgesInjective(nodes: seq<Node>, paths: seq<string>, index: map<string, nat>, i: nat)
    requires Shape(nodes, paths, index) && i < |nodes|
    ensures Injective(nodes[i].transitions)
  {
    forall c, e | c in nodes[i].transitions && e in nodes[i].transitions && c != e
      ensures nodes[i].transitions[c] != nodes[i].transitions[e]
    {
      assert (paths[i] + [c])[|paths[i]|] == c && (paths[i] + [e])[|paths[i]|] == e;
      assert paths[nodes[i].transitions[c]] == paths[i] + [c];
      assert paths[nodes[i].transitions[e]] == paths[i] + [e];
    }
  }

  /** Extending a slice by one element. */
  lemma SliceSnoc<T>(start: seq<T>, s: seq<T>, i: nat)
    requires i < |s|
    ensures start + s[..i + 1] == (start + s[..i]) + [s[i]]
  {
    assert s[..i + 1] == s[..i] + [s[i]];
  }

  /** The targets of `edges`, one per edge, in unspecified order (enumerating `node.Transitions`). */
  method EdgeTargets(edges: map<char, nat>) returns (kids: seq<nat>)
    ensures forall y :: y in kids <==> y in edges.Values
    ensures Injective(edges) ==> Distinct(kids)
  {
    var m := edges;
    kids := [];
    ghost var used: seq<char> := [];
    while m != map[]
      invariant forall c | c in m :: c in edges && m[c] == edges[c]
      invariant forall c | c in edges :: c in m || c in used
      invariant |used| == |kids|
      invariant forall j | 0 <= j < |used| :: used[j] in edges && used[j] !in m && kids[j] == edges[used[j]]
      invariant forall j, k | 0 <= j < k < |used| :: used[j] != used[k]
      decreases |m|
    {
      var c :| c in m;
      kids := kids + [m[c]];
      used := used + [c];
      m := m - {c};
    }
    EnumeratedEdges(edges, used, kids);
  }

  /** Targets read off the keys `used`, each edge once, are the edge targets, distinct when the edges are. */
  lemma EnumeratedEdges(edges: map<char, nat>, used: seq<char>, kids: seq<nat>)
    requires forall c | c in edges :: c in used
    requires |used| == |kids|
    requires forall j | 0 <= j < |used| :: used[j] in edges && kids[j] == edges[used[j]]
    requires forall j, k | 0 <= j < k < |used| :: used[j] != used[k]
    ensures forall y :: y in kids <==> y in edges.Values
    ensures Injective(edges) ==> Distinct(kids)
  {
    forall y | y in edges.Values
      ensures y in kids
    {
      var c :| c in edges && edges[c] == y;
      var j :| 0 <= j < |used| && used[j] == c;
    }
    if Injective(edges) {
      forall j, k | 0 <= j < k < |kids|
        ensures kids[j] != kids[k]
      {
        assert used[j] != used[k];
      }
    }
  }

  /** Every node but the root is linked, and the root holds the empty keyword if there is one. */
  ghost predicate Linked(nodes: seq<Node>, paths: seq<string>, index: map<string, nat>, K: seq<string>) {
    Shape(nodes, paths, index) && AllIndexed(K, index) && nodes[0].results == Own(K, [])
    && forall i | 0 < i < |nodes| :: LinkedAt(nodes, paths, index.Keys, K, i)
  }

  // ---------------------------------------------------------------------
  // The construction steps. Each takes the node table and gives back the
  // updated one; the tree's constructor stores the result.

  /** The nodes hanging from node `i`, each once (`node.Transitions`, in unspecified order). */
  method Children(nodes: seq<Node>, ghost paths: seq<string>, ghost index: map<string, nat>, i: nat) returns (kids: seq<nat>)
    requires Shape(nodes, paths, index) && i < |nodes|
    ensures Distinct(kids)
    ensures forall y :: y in kids <==> 0 < y < |nodes| && nodes[y].parent == Some(i)
  {
    kids := EdgeTargets(nodes[i].transitions);
    EdgesInjective(nodes, paths, index, i);
    forall y
      ensures y in kids <==> 0 < y < |nodes| && nodes[y].parent == Some(i)
    {
      ChildrenOf(nodes, paths, index, i, y);
    }
  }

  /** Fail every child of the root to the root; also return the nodes of depth 2. */
  method FailToRootNode(nodes: seq<Node>, ghost paths: seq<string>, ghost index: map<string, nat>, ghost K: seq<string>)
    returns (r: seq<Node>, level: seq<nat>)
    requires Shape(nodes, paths, index) && Linking(nodes, paths, index.Keys, K, 1, [])
    ensures Shape(r, paths, index) && SameShape(nodes, r)
    ensures Linking(r, paths, index.Keys, K, 2, []) && Level(paths, level, 2)
  {
    var roots := Children(nodes, paths, index, 0);
    DepthOne(nodes, paths, index, roots);
    r := nodes;
    level := [];
    for j := 0 to |roots|
      invariant Shape(r, paths, index) && SameShape(nodes, r)
      invariant Linking(r, paths, index.Keys, K, 1, roots[..j])
      invariant Gathered(nodes, level, roots[..j])
    {
      var node := roots[j];
      InLevel(paths, roots, 1, j);
      FailToRootStep(r, paths, index, K, roots, j);
      Relinked(nodes, r, paths, index, node, r[node].(failure := Some(0)));
      r := r[node := r[node].(failure := Some(0))];
      var kids := Children(r, paths, index, node);
      GatherNext(nodes, r, level, roots, j, kids);
      level := level + kids;
    }
    LevelDone(nodes, r, paths, index, K, roots, 1, level);
  }

  /**
   * The failure walk for node `x` of depth `d`: from its parent's failure
   * target, follow failure links until a node with an edge by `x`'s
   * character; none when the chain runs out past the root.
   */
  method FindFailure(nodes: seq<Node>, ghost paths: seq<string>, ghost index: map<string, nat>, ghost K: seq<string>,
                     x: nat, ghost d: nat, ghost done: seq<nat>) returns (failure: Option<nat>)
    requires Shape(nodes, paths, index) && 0 < x < |nodes| && |paths[x]| == d && d >= 2
    requires Linking(nodes, paths, index.Keys, K, d, done)
    ensures failure.Some? ==> failure.value < |nodes| && nodes[x].value in nodes[failure.value].transitions
    ensures failure.Some? ==> paths[failure.value] + [nodes[x].value] == Longest(index.Keys, paths[x][1..])
    ensures failure.None? ==> Longest(index.Keys, paths[x][1..]) == []
  {
    ghost var keys := index.Keys;
    assert [] in keys && PrefixClosed(keys) by {
      ShapeCovers(nodes, paths, index, []);
    }
    assert nodes[x].parent.Some?;
    var parent := nodes[x].parent.value;
    failure := nodes[parent].failure;
    var value := nodes[x].value;
    ghost var target := Longest(keys, paths[x][1..]);
    assert paths[x] == paths[parent] + [value] && parent != 0;
    assert LinkState(nodes, paths, keys, K, d, done, parent);
    FailureFromParent(keys, paths[parent], value);
    while failure.Some? && value !in nodes[failure.value].transitions
      invariant failure.Some? ==> failure.value < |nodes| && |paths[failure.value]| < d - 1
      invariant failure.Some? ==> Walk(keys, paths[failure.value], value) == target
      invariant failure.None? ==> target == []
      decreases if failure.Some? then |paths[failure.value]| + 1 else 0
    {
      var f := failure.value;
      assert paths[f] + [value] !in index;
      if f != 0 {
        assert LinkState(nodes, paths, keys, K, d, done, f);
      }
      failure := nodes[f].failure;
    }
    if failure.Some? {
      var f := failure.value;
      assert paths[f] + [value] in keys;
    }
  }

  /**
   * Set the failure link of node `x` of depth `d`: to the target of the
   * found node's edge, taking in that target's results, or to the root.
   */
  method LinkNode(nodes: seq<Node>, ghost paths: seq<string>, ghost index: map<string, nat>, ghost K: seq<string>,
                  x: nat, ghost d: nat, ghost done: seq<nat>) returns (r: seq<Node>)
    requires Shape(nodes, paths, index) && 0 < x < |nodes| && |paths[x]| == d && d >= 2 && x !in done
    requires Linking(nodes, paths, index.Keys, K, d, done)
    ensures |r| == |nodes| && r == nodes[x := r[x]]
    ensures r[x] == nodes[x].(failure := r[x].failure, results := r[x].results)
    ensures Linking(r, paths, index.Keys, K, d, done + [x])
  {
    var failure := FindFailure(nodes, paths, index, K, x, d, done);
    var target: nat, extra: seq<string>;
    if failure.None? {
      target, extra := 0, [];
    } else {
      target := nodes[failure.value].transitions[nodes[x].value];
      extra := nodes[target].results;
    }
    r := nodes[x := nodes[x].(failure := Some(target), results := nodes[x].results + extra)];
    LinkStep(nodes, paths, index, K, x, d, done, failure, target, extra);
  }

  /** Link the nodes level by level (breadth first), starting from the nodes `level` of depth `d`. */
  method FailUsingBfs(nodes: seq<Node>, ghost paths: seq<string>, ghost index: map<string, nat>, ghost K: seq<string>,
                      level: seq<nat>, ghost d: nat) returns (r: seq<Node>)
    requires Shape(nodes, paths, index) && d >= 2
    requires Level(paths, level, d) && Linking(nodes, paths, index.Keys, K, d, [])
    ensures Shape(r, paths, index) && SameShape(nodes, r)
    ensures UnlinkedAt(r, paths, K, 0)
    ensures forall i | 0 < i < |r| :: LinkedAt(r, paths, index.Keys, K, i)
  {
    r := nodes;
    var current := level;
    ghost var depth := d;
    if |current| != 0 {
      InLevel(paths, current, depth, 0);
    }
    while |current| != 0
      invariant Shape(r, paths, index) && SameShape(nodes, r)
      invariant depth >= 2 && Level(paths, current, depth) && Linking(r, paths, index.Keys, K, depth, [])
      invariant |current| != 0 ==> depth <= Height(paths)
      decreases Height(paths) - depth
    {
      r, current := LinkLevel(nodes, r, paths, index, K, current, depth);
      depth := depth + 1;
    }
    AllLinked(r, paths, index, K, depth);
  }

  /** Once no node is left at depth `d`, every node but the root is linked. */
  lemma AllLinked(nodes: seq<Node>, paths: seq<string>, index: map<string, nat>, K: seq<string>, d: nat)
    requires Shape(nodes, paths, index) && d >= 1 && Level(paths, [], d)
    requires Linking(nodes, paths, index.Keys, K, d, [])
    ensures forall i | 0 < i < |nodes| :: LinkedAt(nodes, paths, index.Keys, K, i)
  {
    EmptyLevel(nodes, paths, index, d);
    forall i | 0 < i < |nodes|
      ensures LinkedAt(nodes, paths, index.Keys, K, i)
    {
      assert LinkState(nodes, paths, index.Keys, K, d, [], i);
    }
  }

  /** Link every node of the level `current` (depth `d`), gathering the next level from their children. */
  method LinkLevel(nodes: seq<Node>, start: seq<Node>, ghost paths: seq<string>, ghost index: map<string, nat>,
                   ghost K: seq<string>, current: seq<nat>, ghost d: nat) returns (r: seq<Node>, next: seq<nat>)
    requires Shape(nodes, paths, index) && Shape(start, paths, index) && SameShape(nodes, start) && d >= 2
    requires Level(paths, current, d) && Linking(start, paths, index.Keys, K, d, [])
    ensures Shape(r, paths, index) && SameShape(nodes, r)
    ensures Linking(r, paths, index.Keys, K, d + 1, []) && Level(paths, next, d + 1)
    ensures |next| != 0 ==> d + 1 <= Height(paths)
  {
    r := start;
    next := [];
    for i := 0 to |current|
      invariant Shape(r, paths, index) && SameShape(nodes, r)
      invariant Linking(r, paths, index.Keys, K, d, current[..i])
      invariant Gathered(nodes, next, current[..i])
    {
      var node := current[i];
      InLevel(paths, current, d, i);
      ghost var before := r;
      r := LinkNode(r, paths, index, K, node, d, current[..i]);
      Relinked(nodes, before, paths, index, node, r[node]);
      var kids := Children(r, paths, index, node);
      GatherNext(nodes, r, next, current, i, kids);
      next := next + kids;
    }
    LevelDone(nodes, r, paths, index, K, current, d, next);
  }

  /** Set every failure link, then make the root fail to itself. */
  method SetFailureNodes(nodes: seq<Node>, ghost paths: seq<string>, ghost index: map<string, nat>, ghost K: seq<string>)
    returns (r: seq<Node>)
    requires Shape(nodes, paths, index) && AllIndexed(K, index) && AllUnlinked(nodes, paths, K)
    ensures Linked(r, paths, index, K) && SameShape(nodes, r) && r[0].failure == Some(0)
  {
    BuiltLinking(nodes, paths, index, K);
    var linked, level := FailToRootNode(nodes, paths, index, K);
    linked := FailUsingBfs(linked, paths, index, K, level, 2);
    r := linked[0 := linked[0].(failure := Some(0))];
    ShapeKept(linked, r, paths, index);
    forall i | 0 < i < |r|
      ensures LinkedAt(r, paths, index.Keys, K, i)
    {
      assert r[i] == linked[i] && LinkedAt(linked, paths, index.Keys, K, i);
    }
  }

  /** In a linked table every node's result list is `ResultsAt` of its word, the root's included. */
  lemma NodeResults(nodes: seq<Node>, paths: seq<string>, index: map<string, nat>, K: seq<string>, p: nat)
    requires Linked(nodes, paths, index, K) && p < |nodes|
    ensures nodes[p].results == ResultsAt(K, index.Keys, paths[p])
  {
    if p == 0 {
      assert ResultsAt(K, index.Keys, []) == Own(K, []) + [];
    } else {
      assert LinkedAt(nodes, paths, index.Keys, K, p);
    }
  }

  /**
   * A node's word is a keyword exactly when the first entry of its result
   * list is as long as the word; every other entry is shorter.
   */
  lemma OwnKeywordFirst(K: seq<string>, keys: set<string>, p: string)
    ensures p in K <==> |ResultsAt(K, keys, p)| > 0 && |ResultsAt(K, keys, p)[0]| == |p|
  {
    var rs := ResultsAt(K, keys, p);
    if p in K {
      var own := Own(K, p);
      assert own != [] && own[0] in own;
      assert rs[0] == own[0];
    } else if |rs| > 0 {
      assert Own(K, p) == [];
      var f := Longest(keys, p[1..]);
      assert p != [] && f != [] && rs == ResultsAt(K, keys, f);
      ResultsSound(K, keys, f, rs[0]);
      assert |f| <= |p| - 1;
    }
  }

  /**
   * The search that gives up at the root is not a prefix test: with the
   * keywords "abc" and "b", the text "ab" starts with neither, yet the
   * cursor reaches the node of "ab", whose result list holds "b" by its
   * failure link.
   */
  lemma StartSearchMatchesInside()
    ensures ContainsFrom(["abc", "b"], Prefixes(["abc", "b"]), [], "ab", true)
    ensures !exists k | k in ["abc", "b"] && k != [] :: IsPrefix(k, "ab")
  {
    var K := ["abc", "b"];
    var keys := Prefixes(K);
    ExampleSteps();
    assert "ab"[0] == 'a' && "ab"[1..] == "b" && "b"[0] == 'b' && "b"[1..] == [];
    assert ContainsFrom(K, keys, "a", "b", true);
    ExampleNoPrefix();
  }

  /** Neither "abc" nor "b" is a prefix of "ab". */
  lemma ExampleNoPrefix()
    ensures !exists k | k in ["abc", "b"] && k != [] :: IsPrefix(k, "ab")
  {
    assert !IsPrefix("abc", "ab");
    assert "ab"[..1] == "a" != "b";
  }

  /** The two steps of the cursor over "ab", and the result lists they reach. */
  lemma ExampleSteps()
    ensures Walk(Prefixes(["abc", "b"]), [], 'a') == "a"
    ensures ResultsAt(["abc", "b"], Prefixes(["abc", "b"]), "a") == []
    ensures Walk(Prefixes(["abc", "b"]), "a", 'b') == "ab"
    ensures ResultsAt(["abc", "b"], Prefixes(["abc", "b"]), "ab") != []
  {
    var K := ["abc", "b"];
    var keys := Prefixes(K);
    ExampleWords();
    assert [] + ['a'] == "a" && "a" + ['b'] == "ab";
    assert "a"[1..] == [] && "ab"[1..] == "b";
    assert Own(K, "a") == [] && Own(K, "ab") == [];
    assert Own(K, "b") != [];
    assert IsSuffix("b", "b");
  }

  /** The trie of "abc" and "b" has the words "a", "ab" and "b". */
  lemma ExampleWords()
    ensures "a" in Prefixes(["abc", "b"]) && "ab" in Prefixes(["abc", "b"]) && "b" in Prefixes(["abc", "b"])
  {
    assert ["abc", "b"][..1] == ["abc"];
    assert "abc"[..1] == "a" && "abc"[..2] == "ab" && "b"[..1] == "b";
    assert "a" in PrefixesOf("abc") && "ab" in PrefixesOf("abc") && "b" in PrefixesOf("b");
  }

  class AhoCorasickTree {
    /** The node table; node 0 is the root. */
    var nodes: seq<Node>
    /** The word spelled from the root to each node. */
    ghost var paths: seq<string>
    /** The node of each word of the trie. */
    ghost var index: map<string, nat>
    /** The keywords inserted, in order. */
    ghost var Keywords: seq<string>

    /** The words of the trie. */
    ghost function Keys(): set<string>
      reads this`index
    {
      index.Keys
    }

    /**
     * The trie: node `i` has word `paths[i]` and is the only node with it;
     * there is an edge `c` out of a node exactly when its word extended by
     * `c` is in the trie, and it leads to that word's node; every other node
     * hangs from the node of its word without the last character.
     */
    ghost predicate Trie()
      reads this`nodes, this`paths, this`index
    {
      Shape(nodes, paths, index)
    }

    /** Every keyword has a node. */
    ghost predicate Registered()
      reads this`Keywords, this`index
    {
      AllIndexed(Keywords, index)
    }

    /** The trie before any failure link is set. */
    ghost predicate Built()
      reads this
    {
      Trie() && Registered() && AllUnlinked(nodes, paths, Keywords)
    }

    /**
     * The built automaton: every node but the root is linked; the root holds
     * the empty keyword if there is one, and fails to itself (no link at all
     * when the tree was made from no keyword list).
     */
    ghost predicate Valid()
      reads this
    {
      Linked(nodes, paths, index, Keywords) && Keys() == Prefixes(Keywords)
      && (nodes[0].failure == Some(0) || (|nodes| == 1 && nodes[0].failure == None))
    }

    /** Build the trie of the keywords and set its failure links (just the root when the list is null). */
    constructor(keywords: Option<seq<string>>)
      ensures Valid()
      ensures Keywords == (if keywords.Some? then keywords.value else [])
      ensures keywords.None? ==> nodes == [NewNode('\0', None)]
      ensures keywords.Some? ==> nodes[0].failure == Some(0)
    {
      nodes := [NewNode('\0', None)];
      paths := [[]];
      index := map[[] := 0];
      Keywords := [];
      new;
      if keywords.None? {
        assert index.Keys == {[]} == Prefixes([]);
        return;
      }
      assert index.Keys == {[]} == Prefixes([]);
      AddPatterns(keywords.value);
      nodes := SetFailureNodes(nodes, paths, index, Keywords);
    }

    /** Insert the keywords one by one, in order. */
    method AddPatterns(kw: seq<string>)
      requires Built() && Keys() == Prefixes(Keywords)
      modifies this`nodes, this`paths, this`index, this`Keywords
      ensures Built() && Keywords == old(Keywords) + kw && Keys() == Prefixes(Keywords)
    {
      ghost var start := Keywords;
      for i := 0 to |kw|
        invariant Built()
        invariant Keywords == start + kw[..i]
        invariant Keys() == Prefixes(Keywords)
      {
        ghost var before := Keywords;
        AddPatternToTree(kw[i]);
        PrefixesSnoc(before, kw[i]);
        SliceSnoc(start, kw, i);
      }
      assert kw[..|kw|] == kw;
    }

    /** The child of node `n` by edge `c`, if any. */
    function GetChild(n: nat, c: char): (r: Option<nat>)
      requires n < |nodes|
      reads this`nodes
      ensures r.Some? <==> c in nodes[n].transitions
      ensures r.Some? ==> r.value == nodes[n].transitions[c]
    {
      if c in nodes[n].transitions then Some(nodes[n].transitions[c]) else None
    }

    /** Hang a new node below node `n` by the edge `c`. */
    method AddTransition(n: nat, c: char) returns (child: nat)
      requires Built() && n < |nodes| && c !in nodes[n].transitions
      modifies this`nodes, this`paths, this`index
      ensures Built()
      ensures child == old(|nodes|) && nodes == Hang(old(nodes), n, c)
      ensures paths == old(paths) + [old(paths[n]) + [c]] && index == old(index)[paths[child] := child]
    {
      var p := paths[n] + [c];
      assert p !in index;
      assert p !in Keywords;
      child := |nodes|;
      GrowShape(nodes, paths, index, n, c);
      GrowUnlinked(nodes, paths, Keywords, n, c);
      assert AllIndexed(Keywords, index[p := child]);
      nodes := Hang(nodes, n, c);
      paths := paths + [p];
      index := index[p := child];
    }

    /** Insert one keyword: walk or extend the trie along it and record it at the last node. */
    method AddPatternToTree(pattern: string)
      requires Built()
      modifies this`nodes, this`paths, this`index, this`Keywords
      ensures Built()
      ensures Keywords == old(Keywords) + [pattern]
      ensures Keys() == old(Keys()) + PrefixesOf(pattern)
    {
      var node := AddPath(pattern);
      AddResult(node, pattern);
    }

    /** Walk the trie along `pattern`, hanging new nodes where it ends; the node of `pattern`. */
    method AddPath(pattern: string) returns (node: nat)
      requires Built()
      modifies this`nodes, this`paths, this`index
      ensures Built() && node < |nodes| && paths[node] == pattern
      ensures Keys() == old(Keys()) + PrefixesOf(pattern)
    {
      node := 0;
      ghost var base := index.Keys;
      PrefixesUpToZero(pattern);
      assert paths[0] == [] && paths[0] in index;
      for i := 0 to |pattern|
        invariant Built()
        invariant node < |nodes| && paths[node] == pattern[..i]
        invariant index.Keys == base + (set j | 0 <= j <= i :: pattern[..j])
      {
        assert pattern[..i + 1] == pattern[..i] + [pattern[i]];
        ghost var before := index.Keys;
        node := Extend(node, pattern[i]);
        PrefixesUpTo(base, before, index.Keys, pattern, i);
      }
      assert pattern[..|pattern|] == pattern;
    }

    /** One step along a keyword: the child by `c`, hung first if missing. */
    method Extend(node: nat, c: char) returns (next: nat)
      requires Built() && node < |nodes|
      modifies this`nodes, this`paths, this`index
      ensures Built() && next < |nodes| && paths[next] == old(paths[node]) + [c]
      ensures index.Keys == old(index.Keys) + {old(paths[node]) + [c]}
    {
      var child := GetChild(node, c);
      if child.Some? {
        next := child.value;
        assert paths[next] == paths[node] + [c] && paths[next] in index;
      } else {
        next := AddTransition(node, c);
      }
    }

    /**
     * The transition by `c` from the cursor `current`: follow failure links
     * until a node with an edge `c` (whose target is returned) or the root
     * (where the search gives up). The cursor is passed by reference in the
     * original; here its final value is returned as `at`.
     */
    method GetTransition(c: char, current: nat) returns (transition: Option<nat>, at: nat)
      requires Valid() && current < |nodes|
      ensures at < |nodes|
      ensures transition.Some? ==> transition.value < |nodes| && paths[transition.value] == Walk(Keys(), paths[current], c) != []
      ensures transition.None? ==> at == 0 && c !in nodes[0].transitions && Walk(Keys(), paths[current], c) == []
    {
      ghost var keys := Keys();
      ghost var goal := Walk(keys, paths[current], c);
      at := current;
      transition := None;
      while transition.None?
        invariant at < |nodes|
        invariant transition.None? ==> Walk(keys, paths[at], c) == goal
        invariant transition.Some? ==> transition.value < |nodes| && paths[transition.value] == goal != []
        decreases |paths[at]| + (if transition.None? then 1 else 0)
      {
        transition := GetChild(at, c);
        if transition.Some? {
          assert paths[transition.value] == paths[at] + [c];
        }
        if at == 0 {
          break;
        }
        if transition.None? {
          assert paths[at] + [c] !in index;
          assert LinkedAt(nodes, paths, keys, Keywords, at);
          at := nodes[at].failure.value;
        }
      }
    }

    /**
     * `Contains(text, onlyStarts)`: move the cursor character by character;
     * with `onlyStarts`, give up as soon as a transition falls back to the
     * root; answer true at the first cursor with a non-empty result list.
     */
    method Search(text: string, onlyStarts: bool) returns (r: bool)
      requires Valid()
      ensures r == ContainsFrom(Keywords, Keys(), [], text, onlyStarts)
    {
      var current: nat := 0;
      for i := 0 to |text|
        invariant current < |nodes|
        invariant ContainsFrom(Keywords, Keys(), [], text, onlyStarts) == ContainsFrom(Keywords, Keys(), paths[current], text[i..], onlyStarts)
      {
        var c := text[i];
        assert text[i..][0] == c && text[i..][1..] == text[i + 1..];
        var transition, at := GetTransition(c, current);
        current := at;
        if transition.Some? {
          current := transition.value;
        } else if onlyStarts {
          return false;
        }
        NodeResults(nodes, paths, index, Keywords, current);
        if |nodes[current].results| > 0 {
          return true;
        }
      }
      return false;
    }

    /**
     * `Contains(text)`: true exactly when the search finds a cursor with
     * results; then some keyword ends inside the text, and every non-empty
     * keyword occurring in the text makes it true.
     */
    method Contains(text: string) returns (r: bool)
      requires Valid()
      ensures r == ContainsFrom(Keywords, Keys(), [], text, false)
      ensures r ==> exists j | 0 < j <= |text| :: EndsWithKeyword(Keywords, text[..j])
      ensures (exists j | 0 < j <= |text| :: EndsWithNonEmptyKeyword(Keywords, text[..j])) ==> r
    {
      r := Search(text, false);
      QueryFacts(text);
    }

    /** Facts about the queries from the empty cursor, stated on `text` itself. */
    lemma QueryFacts(text: string)
      requires Valid()
      ensures ContainsFrom(Keywords, Keys(), [], text, false) ==> exists j | 0 < j <= |text| :: EndsWithKeyword(Keywords, text[..j])
      ensures (exists j | 0 < j <= |text| :: EndsWithNonEmptyKeyword(Keywords, text[..j])) ==> ContainsFrom(Keywords, Keys(), [], text, false)
    {
      assert [] + text == text;
      assert IsSuffix([], []);
      if ContainsFrom(Keywords, Keys(), [], text, false) {
        ContainsSound(Keywords, Keys(), [], [], text, false);
      }
      if exists j | 0 < j <= |text| :: EndsWithNonEmptyKeyword(Keywords, text[..j]) {
        var j :| 0 < j <= |text| && EndsWithNonEmptyKeyword(Keywords, text[..j]);
        ShapeCovers(nodes, paths, index, Keywords);
        LongestOfEmpty(Keys());
        ContainsComplete(Keywords, Keys(), [], text, j);
      }
    }

    /**
     * `ContainsThatStart(text)`: the search that gives up once a transition
     * falls back to the root. It answers true only when some keyword ends
     * inside the text, and always when a non-empty keyword starts it; it is
     * not a test of the text's start, since a keyword inside the text can
     * make it true too (see `StartSearchMatchesInside`; `StartsWithKeyword`
     * is the prefix test).
     */
    method ContainsThatStart(text: string) returns (r: bool)
      requires Valid()
      ensures r == ContainsFrom(Keywords, Prefixes(Keywords), [], text, true)
      ensures r ==> exists j | 0 < j <= |text| :: EndsWithKeyword(Keywords, text[..j])
      ensures (exists k | k in Keywords && k != [] :: IsPrefix(k, text)) ==> r
    {
      r := Search(text, true);
      StartQueryFacts(text);
    }

    /** Soundness of the search that gives up at the root, and its completeness for keywords starting the text, stated on `text` itself. */
    lemma StartQueryFacts(text: string)
      requires Valid()
      ensures ContainsFrom(Keywords, Keys(), [], text, true) ==> exists j | 0 < j <= |text| :: EndsWithKeyword(Keywords, text[..j])
      ensures (exists k | k in Keywords && k != [] :: IsPrefix(k, text)) ==> ContainsFrom(Keywords, Keys(), [], text, true)
    {
      assert [] + text == text;
      assert IsSuffix([], []);
      if ContainsFrom(Keywords, Keys(), [], text, true) {
        ContainsSound(Keywords, Keys(), [], [], text, true);
      }
      if exists k | k in Keywords && k != [] :: IsPrefix(k, text) {
        var k :| k in Keywords && k != [] && IsPrefix(k, text);
        ShapeCovers(nodes, paths, index, Keywords);
        AnchoredComplete(Keywords, Keys(), [], text, k);
      }
    }

    /**
     * The prefix test `ContainsThatStart` is meant to be: walk the trie's
     * edges from the root only, never a failure link, and answer true once
     * the word read so far is itself a keyword (it is then first in the
     * node's result list, the only result as long as the word).
     */
    method StartsWithKeyword(text: string) returns (r: bool)
      requires Valid()
      ensures r <==> exists k | k in Keywords && k != [] :: IsPrefix(k, text)
    {
      var current: nat := 0;
      for i := 0 to |text|
        invariant current < |nodes| && paths[current] == text[..i]
        invariant forall k | k in Keywords && k != [] && IsPrefix(k, text) :: |k| > i
      {
        EdgeOf(text, i, current);
        var next := GetChild(current, text[i]);
        if next.None? {
          NoLongerPrefix(text, i);
          return false;
        }
        current := next.value;
        NodeResults(nodes, paths, index, Keywords, current);
        OwnKeywordFirst(Keywords, Keys(), text[..i + 1]);
        if |nodes[current].results| > 0 && |nodes[current].results[0]| == i + 1 {
          assert IsPrefix(text[..i + 1], text);
          return true;
        }
        NoPrefixOfLength(text, i);
      }
      return false;
    }

    /** The node of `text[..i]` has an edge `text[i]` exactly when `text[..i + 1]` is a trie word, its target. */
    lemma EdgeOf(text: string, i: nat, n: nat)
      requires Valid() && i < |text| && n < |nodes| && paths[n] == text[..i]
      ensures text[i] in nodes[n].transitions <==> text[..i + 1] in index
      ensures text[i] in nodes[n].transitions ==>
                nodes[n].transitions[text[i]] < |nodes| && paths[nodes[n].transitions[text[i]]] == text[..i + 1]
    {
      assert text[..i + 1] == text[..i] + [text[i]];
    }

    /** A keyword of length `i + 1` that starts the text is the word `text[..i + 1]`. */
    lemma NoPrefixOfLength(text: string, i: nat)
      requires i < |text| && text[..i + 1] !in Keywords
      requires forall k | k in Keywords && k != [] && IsPrefix(k, text) :: |k| > i
      ensures forall k | k in Keywords && k != [] && IsPrefix(k, text) :: |k| > i + 1
    {
      forall k | k in Keywords && k != [] && IsPrefix(k, text)
        ensures |k| > i + 1
      {
        if |k| == i + 1 {
          assert false;
        }
      }
    }

    /** No keyword longer than `i` starts the text when the trie has no word `text[..i + 1]`. */
    lemma NoLongerPrefix(text: string, i: nat)
      requires Valid() && i < |text| && text[..i + 1] !in index
      ensures forall k | k in Keywords && k != [] && IsPrefix(k, text) :: |k| <= i
    {
      forall k | k in Keywords && k != [] && IsPrefix(k, text)
        ensures |k| <= i
      {
        if |k| > i {
          StartInTrie(text, i, k);
          assert false;
        }
      }
    }

    /** The first `i + 1` characters of a text that a longer keyword starts are a trie word. */
    lemma StartInTrie(text: string, i: nat, k: string)
      requires Valid() && k in Keywords && IsPrefix(k, text) && i < |k|
      ensures text[..i + 1] in index
    {
      assert k in index;
      PrefixInTrie(nodes, paths, index, k, i + 1);
      assert k[..i + 1] == text[..i + 1];
    }

    /**
     * `FindAll(text)`: after each character, the cursor's result list, in
     * order. Each result is a keyword ending at that position, and every
     * non-empty keyword occurrence is reported.
     */
    method FindAll(text: string) returns (found: seq<string>)
      requires Valid()
      ensures found == FindAllFrom(Keywords, Keys(), [], text)
      ensures forall x | x in found :: x in Keywords && exists j | 0 < j <= |text| :: IsSuffix(x, text[..j])
      ensures forall k, j | k in Keywords && k != [] && 0 < j <= |text| && IsSuffix(k, text[..j]) :: k in found
    {
      found := Collect(text);
      FindAllFacts(text);
    }

    /** The loop of `FindAll`: collect the cursor's result list after each character. */
    method Collect(text: string) returns (found: seq<string>)
      requires Valid()
      ensures found == FindAllFrom(Keywords, Keys(), [], text)
    {
      var current: nat := 0;
      found := [];
      for i := 0 to |text|
        invariant current < |nodes|
        invariant FindAllFrom(Keywords, Keys(), [], text) == found + FindAllFrom(Keywords, Keys(), paths[current], text[i..])
      {
        assert text[i..][0] == text[i] && text[i..][1..] == text[i + 1..];
        var results;
        current, results := Advance(text[i], current);
        found := found + results;
      }
      assert text[|text|..] == [];
    }

    /** One step of the cursor: the node the failure walk reaches by `c`, and its result list. */
    method Advance(c: char, current: nat) returns (next: nat, results: seq<string>)
      requires Valid() && current < |nodes|
      ensures next < |nodes| && paths[next] == Walk(Keys(), paths[current], c)
      ensures results == ResultsAt(Keywords, Keys(), paths[next])
    {
      var transition, at := GetTransition(c, current);
      next := at;
      if transition.Some? {
        next := transition.value;
      } else {
        assert paths[0] == [];
      }
      NodeResults(nodes, paths, index, Keywords, next);
      results := nodes[next].results;
    }

    /** `FindAll` from the root is sound and complete for non-empty keywords. */
    lemma FindAllFacts(text: string)
      requires Valid()
      ensures forall x | x in FindAllFrom(Keywords, Keys(), [], text) ::
                x in Keywords && exists j | 0 < j <= |text| :: IsSuffix(x, text[..j])
      ensures forall k, j | k in Keywords && k != [] && 0 < j <= |text| && IsSuffix(k, text[..j]) ::
                k in FindAllFrom(Keywords, Keys(), [], text)
    {
      assert [] + text == text;
      assert IsSuffix([], []);
      forall x | x in FindAllFrom(Keywords, Keys(), [], text)
        ensures x in Keywords && exists j | 0 < j <= |text| :: IsSuffix(x, text[..j])
      {
        FindAllSound(Keywords, Keys(), [], [], text, x);
      }
      ShapeCovers(nodes, paths, index, Keywords);
      LongestOfEmpty(Keys());
      forall k, j | k in Keywords && k != [] && 0 < j <= |text| && IsSuffix(k, text[..j])
        ensures k in FindAllFrom(Keywords, Keys(), [], text)
      {
        FindAllComplete(Keywords, Keys(), [], text, j, k);
      }
    }

    /** The node of every keyword lists that keyword among its results. */
    lemma KeywordAtItsNode(k: string)
      requires Valid() && k in Keywords
      ensures k in index && k in nodes[index[k]].results
    {
      var n := index[k];
      NodeResults(nodes, paths, index, Keywords, n);
      var own := Own(Keywords, k);
      assert own != [] && own[0] in own;
    }

    /**
     * Failure links: the root fails to itself once keywords are given, and
     * every other node fails to the node of the longest trie word that is a
     * proper suffix of its own word; for a node of depth 1 that is the root.
     */
    lemma FailureIsLongestSuffix(i: nat)
      requires Valid() && 0 < i < |nodes|
      ensures nodes[0].failure == Some(0)
      ensures nodes[i].failure.Some? && nodes[i].failure.value < |nodes|
      ensures IsProperSuffix(paths[nodes[i].failure.value], paths[i])
      ensures forall v | v in index && IsProperSuffix(v, paths[i]) :: |v| <= |paths[nodes[i].failure.value]|
      ensures |paths[i]| == 1 ==> nodes[i].failure == Some(0)
    {
      assert LinkedAt(nodes, paths, Keys(), Keywords, i);
      var f := nodes[i].failure.value;
      assert IsSuffix(paths[i][1..], paths[i]);
      SuffixTransitive(paths[f], paths[i][1..], paths[i]);
      forall v | v in index && IsProperSuffix(v, paths[i])
        ensures |v| <= |paths[f]|
      {
        SuffixOfTail(v, paths[i]);
      }
      if |paths[i]| == 1 {
        assert paths[f] == [] && index[[]] == 0;
      }
    }

    /**
     * A node's result list is its own keyword entries followed by the whole
     * result list of its failure target, unless that target is the root,
     * whose results are not merged.
     */
    lemma ResultsIncludeFailure(i: nat)
      requires Valid() && 0 < i < |nodes|
      ensures nodes[i].failure.Some? && nodes[i].failure.value < |nodes|
      ensures nodes[i].failure.value != 0 ==>
                nodes[i].results == Own(Keywords, paths[i]) + nodes[nodes[i].failure.value].results
      ensures nodes[i].failure.value == 0 ==> nodes[i].results == Own(Keywords, paths[i])
    {
      assert LinkedAt(nodes, paths, Keys(), Keywords, i);
      var f := nodes[i].failure.value;
      NodeResults(nodes, paths, index, Keywords, f);
      assert paths[f] == [] <==> f == 0;
    }

    /** Without keywords every query answers false or nothing. */
    lemma NoKeywordsNoMatches(text: string)
      requires Valid() && Keywords == []
      ensures !ContainsFrom(Keywords, Keys(), [], text, false) && !ContainsFrom(Keywords, Keys(), [], text, true)
      ensures FindAllFrom(Keywords, Keys(), [], text) == []
    {
      NoKeywordsNoResults(Keys(), [], text, false);
      NoKeywordsNoResults(Keys(), [], text, true);
    }

    /** Record `pattern` as a keyword ending at node `n`. */
    method AddResult(n: nat, pattern: string)
      requires Built() && n < |nodes| && paths[n] == pattern
      modifies this`nodes, this`Keywords
      ensures Built()
      ensures Keywords == old(Keywords) + [pattern]
      ensures nodes == Record(old(nodes), n, pattern)
    {
      RecordUnlinked(nodes, paths, index, Keywords, n);
      ShapeKept(nodes, Record(nodes, n, pattern), paths, index);
      nodes := Record(nodes, n, pattern);
      Keywords := Keywords + [pattern];
    }
  }
}
