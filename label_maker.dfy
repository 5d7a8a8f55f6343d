/**
 * The `LabelMaker` of src/lib.rs: a single-label Aho–Corasick matcher over a 256-ary byte trie.
 *
 * The source's boxed nodes and raw fail-link pointers become an arena: node `n` is `nodes[n]`,
 * the root is index `Root`, a child slot holds the arena index of the child, and `failLink[n]`
 * holds the arena index the fail link of node `n` points to. Ghost state records what each node
 * means: `words[n]` is the byte string node `n` spells from the root, `index` is the inverse of
 * `words`, `parent[n]` is the node `n` hangs from, and `ext[n]` is a labelled node below `n`.
 */
module Categorosaurus {
  import opened Wrappers
  import opened ByteStrings
  import Reference

  /** The arena index of the root node. */
  const Root: nat := 0

  /** A trie node: its occupied child slots (byte to arena index) and its label (`tag`,
      since `label` is a Dafny keyword). */
  datatype Node = Node(children: map<byte, nat>, tag: Option<string>)

  /** Why an insertion was refused. */
  datatype InsertError =
    | AlreadyFinalized
    | LabelConflict(pattern: bytes, tag: string, existing: string)

  datatype InsertResult = Ok | Err(error: InsertError)

  /** The prefixes of `p` of length at most `i`. */
  ghost function PrefixesUpTo(p: bytes, i: nat): set<bytes>
    requires i <= |p|
  {
    set k | 0 <= k <= i :: p[..k]
  }

  lemma PrefixesUpToNext(p: bytes, i: nat)
    requires i < |p|
    ensures PrefixesUpTo(p, i + 1) == PrefixesUpTo(p, i) + {p[..i + 1]}
  {
  }

  /** The arena `nodes` is a trie: node `n` spells `words[n]`, distinct nodes spell distinct
      strings, `index` maps each spelled string to its node, a child slot for byte `b` of node
      `n` is occupied exactly when `words[n] + [b]` is spelled, by that child, and every node
      but the root hangs from `parent[n]`, which spells its string without the last byte. */
  ghost predicate IsTrie(nodes: seq<Node>, words: seq<bytes>, index: map<bytes, nat>, parent: seq<nat>) {
    && |nodes| > 0 && |words| == |nodes| && |parent| == |nodes|
    && words[Root] == []
    && (forall n :: 0 <= n < |nodes| ==> words[n] in index && index[words[n]] == n)
    && (forall w :: w in index ==> index[w] < |nodes| && words[index[w]] == w)
    && (forall n, b {:trigger nodes[n].children[b]} :: 0 <= n < |nodes| && b in nodes[n].children ==>
          nodes[n].children[b] < |nodes| && words[nodes[n].children[b]] == words[n] + [b])
    && (forall n, b {:trigger words[n] + [b]} :: 0 <= n < |nodes| && words[n] + [b] in index ==>
          b in nodes[n].children)
    && (forall n {:trigger parent[n]} :: 0 < n < |nodes| ==>
          parent[n] < |nodes| && words[n] != [] && words[parent[n]] == words[n][..|words[n]| - 1])
  }

  /** Arena `after` keeps every node of arena `before` with its occupied child slots. */
  ghost predicate KeepsEdges(before: seq<Node>, after: seq<Node>) {
    && |before| <= |after|
    && (forall n, c {:trigger before[n].children[c]} :: 0 <= n < |before| && c in before[n].children ==>
          c in after[n].children && after[n].children[c] == before[n].children[c])
  }

  /** Arena `after` keeps every node of arena `before` with its child slots and its label. */
  ghost predicate Grows(before: seq<Node>, after: seq<Node>) {
    && KeepsEdges(before, after)
    && (forall n :: 0 <= n < |before| ==> after[n].tag == before[n].tag)
  }

  lemma GrowsTransitive(a: seq<Node>, b: seq<Node>, c: seq<Node>)
    requires Grows(a, b) && Grows(b, c)
    ensures Grows(a, c)
  {
  }

  lemma KeepsEdgesTransitive(a: seq<Node>, b: seq<Node>, c: seq<Node>)
    requires KeepsEdges(a, b) && KeepsEdges(b, c)
    ensures KeepsEdges(a, c)
  {
    forall n, k | 0 <= n < |a| && k in a[n].children
      ensures k in c[n].children && c[n].children[k] == a[n].children[k]
    {
      assert k in b[n].children && b[n].children[k] == a[n].children[k];
    }
  }

  /** The strings a trie spells are closed under dropping the last byte. */
  lemma TrieParentWord(nodes: seq<Node>, words: seq<bytes>, index: map<bytes, nat>, parent: seq<nat>, v: bytes)
    requires IsTrie(nodes, words, index, parent)
    ensures v in index && v != [] ==> v[..|v| - 1] in index
  {
    if v in index && v != [] {
      var m := index[v];
      assert words[m] == v && m != Root;
      assert words[parent[m]] == v[..|v| - 1];
    }
  }

  /** Hanging a new node, spelling `words[node] + [b]`, keeps `words` and `index` inverse. */
  lemma ExtendIndex(nodes: seq<Node>, words: seq<bytes>, index: map<bytes, nat>, parent: seq<nat>,
                    node: nat, b: byte)
    requires IsTrie(nodes, words, index, parent) && node < |nodes| && b !in nodes[node].children
    ensures var child, w := |nodes|, words[node] + [b];
            var words', index' := words + [w], index[w := child];
            && (forall n :: 0 <= n < |words'| ==> words'[n] in index' && index'[words'[n]] == n)
            && (forall v :: v in index' ==> index'[v] < |words'| && words'[index'[v]] == v)
  {
    var child, w := |nodes|, words[node] + [b];
    var words', index' := words + [w], index[w := child];
    assert w !in index;
    forall n | 0 <= n < |words'|
      ensures words'[n] in index' && index'[words'[n]] == n
    {
      if n < child {
        assert words'[n] == words[n] && words[n] in index && index[words[n]] == n;
      }
    }
    forall v | v in index'
      ensures index'[v] < |words'| && words'[index'[v]] == v
    {
      if v != w {
        assert v in index && index'[v] == index[v];
      }
    }
  }

  /** Hanging a new empty node in the empty slot `b` of node `node` keeps the child slots
      in agreement with the spelled strings. */
  lemma ExtendSlots(nodes: seq<Node>, words: seq<bytes>, index: map<bytes, nat>, parent: seq<nat>,
                    node: nat, b: byte)
    requires IsTrie(nodes, words, index, parent) && node < |nodes| && b !in nodes[node].children
    ensures var child, w := |nodes|, words[node] + [b];
            var nodes' := nodes[node := nodes[node].(children := nodes[node].children[b := child])]
                          + [Node(map[], None)];
            var words', index' := words + [w], index[w := child];
            && (forall n, c {:trigger nodes'[n].children[c]} :: 0 <= n < |nodes'| && c in nodes'[n].children ==>
                  nodes'[n].children[c] < |nodes'| && words'[nodes'[n].children[c]] == words'[n] + [c])
            && (forall n, c {:trigger words'[n] + [c]} :: 0 <= n < |nodes'| && words'[n] + [c] in index' ==>
                  c in nodes'[n].children)
  {
    var child, w := |nodes|, words[node] + [b];
    var nodes' := nodes[node := nodes[node].(children := nodes[node].children[b := child])]
                  + [Node(map[], None)];
    var words', index' := words + [w], index[w := child];
    forall n, c | 0 <= n < |nodes'| && c in nodes'[n].children
      ensures nodes'[n].children[c] < |nodes'| && words'[nodes'[n].children[c]] == words'[n] + [c]
    {
      if n != node || c != b {
        assert n < child && c in nodes[n].children && nodes'[n].children[c] == nodes[n].children[c];
      }
    }
    forall n, c | 0 <= n < |nodes'| && words'[n] + [c] in index'
      ensures c in nodes'[n].children
    {
      TrieParentWord(nodes, words, index, parent, w + [c]);
      assert (w + [c])[..|w + [c]| - 1] == w;
      if n < child && words'[n] + [c] == w {
        assert words[n] == (words[n] + [c])[..|words[n]|] == w[..|w| - 1] == words[node];
        assert n == index[words[node]] == node;
      } else if n < child {
        assert words[n] + [c] in index;
      }
    }
  }

  /** Hanging a new node from `node` keeps every non-root node one byte below its parent. */
  lemma ExtendParents(nodes: seq<Node>, words: seq<bytes>, index: map<bytes, nat>, parent: seq<nat>,
                      node: nat, b: byte)
    requires IsTrie(nodes, words, index, parent) && node < |nodes|
    ensures var words', parent' := words + [words[node] + [b]], parent + [node];
            forall n {:trigger parent'[n]} :: 0 < n < |words'| ==>
              parent'[n] < |words'| && words'[n] != [] && words'[parent'[n]] == words'[n][..|words'[n]| - 1]
  {
    var child, w := |nodes|, words[node] + [b];
    var words', parent' := words + [w], parent + [node];
    forall n | 0 < n < |words'|
      ensures parent'[n] < |words'| && words'[n] != [] && words'[parent'[n]] == words'[n][..|words'[n]| - 1]
    {
      if n == child {
        assert w[..|w| - 1] == words[node];
      } else {
        assert parent'[n] == parent[n] && words'[n] == words[n] && words'[parent[n]] == words[parent[n]];
      }
    }
  }

  /** Hanging a new empty node in the empty slot `b` of node `node` keeps the arena a trie,
      and the new arena grows the old one. */
  lemma ExtendTrie(nodes: seq<Node>, words: seq<bytes>, index: map<bytes, nat>, parent: seq<nat>,
                   node: nat, b: byte)
    requires IsTrie(nodes, words, index, parent) && node < |nodes| && b !in nodes[node].children
    ensures var child, w := |nodes|, words[node] + [b];
            var nodes' := nodes[node := nodes[node].(children := nodes[node].children[b := child])]
                          + [Node(map[], None)];
            && IsTrie(nodes', words + [w], index[w := child], parent + [node])
            && Grows(nodes, nodes')
  {
    var child, w := |nodes|, words[node] + [b];
    var nodes' := nodes[node := nodes[node].(children := nodes[node].children[b := child])]
                  + [Node(map[], None)];
    ExtendIndex(nodes, words, index, parent, node, b);
    ExtendSlots(nodes, words, index, parent, node, b);
    ExtendParents(nodes, words, index, parent, node, b);
    forall n, c | 0 <= n < |nodes| && c in nodes[n].children
      ensures c in nodes'[n].children && nodes'[n].children[c] == nodes[n].children[c]
    {
    }
  }

  /** Relabelling a node keeps the arena a trie. */
  lemma RelabelTrie(nodes: seq<Node>, words: seq<bytes>, index: map<bytes, nat>, parent: seq<nat>,
                    node: nat, tag: string)
    requires IsTrie(nodes, words, index, parent) && node < |nodes|
    ensures IsTrie(nodes[node := nodes[node].(tag := Some(tag))], words, index, parent)
  {
    var nodes' := nodes[node := nodes[node].(tag := Some(tag))];
    assert forall n :: 0 <= n < |nodes| ==> nodes'[n].children == nodes[n].children;
  }

  /** The (pattern, label) pairs an arena stores: the strings of its labelled nodes. */
  ghost function DictionaryOf(nodes: seq<Node>, index: map<bytes, nat>): map<bytes, string> {
    map w | w in index && index[w] < |nodes| && nodes[index[w]].tag.Some? :: nodes[index[w]].tag.value
  }

  /** Growing a trie by unlabelled nodes leaves its dictionary unchanged. */
  lemma DictionaryGrows(nodes0: seq<Node>, words0: seq<bytes>, index0: map<bytes, nat>, parent0: seq<nat>,
                        nodes: seq<Node>, words: seq<bytes>, index: map<bytes, nat>, parent: seq<nat>)
    requires IsTrie(nodes0, words0, index0, parent0) && IsTrie(nodes, words, index, parent)
    requires Grows(nodes0, nodes) && words0 <= words
    requires forall n :: |nodes0| <= n < |nodes| ==> nodes[n].tag == None
    ensures DictionaryOf(nodes, index) == DictionaryOf(nodes0, index0)
  {
    forall w | w in index0
      ensures w in index && index[w] == index0[w]
    {
      assert words[index0[w]] == words0[index0[w]] == w;
    }
    forall w | w in index && index[w] < |nodes0|
      ensures w in index0
    {
      assert words0[index[w]] == w;
    }
  }

  /** Labelling the node of `w` sets the entry of `w` in the dictionary. */
  lemma DictionaryLabel(nodes: seq<Node>, index: map<bytes, nat>, w: bytes, tag: string)
    requires w in index && index[w] < |nodes|
    requires forall v :: v in index && v != w ==> index[v] != index[w]
    ensures var n := index[w];
            DictionaryOf(nodes[n := nodes[n].(tag := Some(tag))], index) == DictionaryOf(nodes, index)[w := tag]
  {
  }

  /** Each non-root node `n` below `|ext|` lies on the path of the labelled node `ext[n]`. */
  ghost predicate LabelledBelow(nodes: seq<Node>, words: seq<bytes>, ext: seq<nat>)
    requires |ext| <= |nodes| == |words|
  {
    forall n :: 0 < n < |ext| ==>
      ext[n] < |nodes| && nodes[ext[n]].tag.Some? && IsPrefix(words[n], words[ext[n]])
  }

  /** `k` copies of `x`. */
  ghost function Repeat(x: nat, k: nat): (r: seq<nat>)
    ensures |r| == k && forall i :: 0 <= i < k ==> r[i] == x
  {
    if k == 0 then [] else Repeat(x, k - 1) + [x]
  }

  /** Labelling `node` puts every node from `|ext|` on, all of them on the path of `node`,
      on the path of a labelled node. */
  lemma LabelCovers(nodes: seq<Node>, words: seq<bytes>, ext: seq<nat>, node: nat, tag: string)
    requires |ext| <= |nodes| == |words| && node < |nodes|
    requires LabelledBelow(nodes, words, ext)
    requires forall n :: |ext| <= n < |nodes| ==> IsPrefix(words[n], words[node])
    ensures var ext' := ext + Repeat(node, |nodes| - |ext|);
            |ext'| == |nodes| && LabelledBelow(nodes[node := nodes[node].(tag := Some(tag))], words, ext')
  {
  }

  /** The queue and the dequeued nodes of a breadth-first pass, `words` giving each node's
      string: neither holds a node twice and they share none; each is ordered by depth; the
      queue spans at most two depths, starting at the depth of its head, which no dequeued
      node exceeds. */
  ghost predicate Layered(queue: seq<nat>, order: seq<nat>, words: seq<bytes>) {
    && (forall j :: 0 <= j < |queue| ==> queue[j] < |words|)
    && (forall j :: 0 <= j < |order| ==> order[j] < |words|)
    && (forall j, k :: 0 <= j < k < |queue| ==>
          queue[j] != queue[k] && |words[queue[j]]| <= |words[queue[k]]|)
    && (forall j, k :: 0 <= j < k < |order| ==>
          order[j] != order[k] && |words[order[j]]| <= |words[order[k]]|)
    && (forall j, k :: 0 <= j < |queue| && 0 <= k < |order| ==> queue[j] != order[k])
    && (queue != [] ==> forall j :: 0 <= j < |queue| ==> |words[queue[j]]| <= |words[queue[0]]| + 1)
    && (queue != [] ==> forall j :: 0 <= j < |order| ==> |words[order[j]]| <= |words[queue[0]]|)
  }

  /** Dequeuing the head and enqueueing new nodes one level deeper keeps the layering. */
  lemma LayeredStep(queue: seq<nat>, order: seq<nat>, words: seq<bytes>, added: seq<nat>)
    requires Layered(queue, order, words) && queue != []
    requires forall j :: 0 <= j < |added| ==> added[j] < |words| && |words[added[j]]| == |words[queue[0]]| + 1
    requires forall j, k :: 0 <= j < k < |added| ==> added[j] != added[k]
    requires forall j, k :: 0 <= j < |added| && 1 <= k < |queue| ==> added[j] != queue[k]
    ensures Layered(queue[1..] + added, order + [queue[0]], words)
  {
    var q, o := queue[1..] + added, order + [queue[0]];
    LayeredQueue(queue, order, words, added);
    forall j, k | 0 <= j < |q| && 0 <= k < |o|
      ensures q[j] != o[k]
    {
      if j < |queue| - 1 {
        assert q[j] == queue[j + 1];
      } else if k < |order| {
        assert |words[order[k]]| <= |words[queue[0]]|;
      }
    }
  }

  /** Dequeuing the head and enqueueing new nodes one level deeper keeps the queue free of
      repetition and ordered by depth. */
  lemma LayeredQueue(queue: seq<nat>, order: seq<nat>, words: seq<bytes>, added: seq<nat>)
    requires Layered(queue, order, words) && queue != []
    requires forall j :: 0 <= j < |added| ==> added[j] < |words| && |words[added[j]]| == |words[queue[0]]| + 1
    requires forall j, k :: 0 <= j < k < |added| ==> added[j] != added[k]
    requires forall j, k :: 0 <= j < |added| && 1 <= k < |queue| ==> added[j] != queue[k]
    ensures var q := queue[1..] + added;
            forall j, k :: 0 <= j < k < |q| ==> q[j] != q[k] && |words[q[j]]| <= |words[q[k]]|
  {
    var q := queue[1..] + added;
    forall j, k | 0 <= j < k < |q|
      ensures q[j] != q[k] && |words[q[j]]| <= |words[q[k]]|
    {
      if k < |queue| - 1 {
        assert q[j] == queue[j + 1] && q[k] == queue[k + 1];
      } else if j < |queue| - 1 {
        assert q[j] == queue[j + 1] && q[k] == added[k - |queue| + 1];
      } else {
        assert q[j] == added[j - |queue| + 1] && q[k] == added[k - |queue| + 1];
      }
    }
  }

  /** Dequeuing a node of `S` not dequeued before leaves fewer nodes of `S` to dequeue. */
  lemma Dequeue(S: set<nat>, order: seq<nat>, x: nat)
    requires x in S && x !in order
    ensures S - (set y | y in order + [x]) < S - (set y | y in order)
  {
    assert x in S - (set y | y in order);
  }

  class LabelMaker {
    var nodes: seq<Node>
    var failLink: seq<Option<nat>>
    /** The source's `_failure_links_built` flag. */
    var finalized: bool

    ghost var words: seq<bytes>
    ghost var index: map<bytes, nat>
    ghost var parent: seq<nat>
    ghost var ext: seq<nat>

    /** The arena is a trie: node `n` spells `words[n]`, distinct nodes spell distinct strings,
        the set of spelled strings is closed under prefixes, and a child slot for byte `b` of
        node `n` is occupied exactly when `words[n] + [b]` is spelled, by that child. */
    ghost predicate Shape()
      reads this`nodes, this`words, this`index, this`parent
    {
      // bound to a name, so that a caller establishes it as one fact
      var trie := IsTrie(nodes, words, index, parent); trie
    }

    /** Every node other than the root lies on the path of a labelled node, so every node
        spells a prefix of some inserted pattern. */
    ghost predicate Pruned()
      reads this`nodes, this`words, this`index, this`parent, this`ext
      requires Shape()
    {
      |ext| == |nodes| && LabelledBelow(nodes, words, ext)
    }

    /** The node a fail link from non-root node `n` must point to: the node spelling the
        longest proper suffix of `words[n]` that the trie spells (the root for any other `n`). */
    ghost function LinkTarget(n: nat): (t: nat)
      reads this`nodes, this`words, this`index, this`parent
      ensures Shape() && 0 < n < |nodes| ==> t < |nodes| && words[t] == LongestSuffix(index.Keys, words[n][1..])
    {
      if Shape() && 0 < n < |nodes| then index[LongestSuffix(index.Keys, words[n][1..])] else Root
    }

    /** Any node spelling the longest proper suffix of `words[n]` in the trie is the link
        target of `n`. */
    lemma LinkTargetIs(n: nat, f: nat)
      requires Shape() && 0 < n < |nodes| && f < |nodes|
      requires words[f] == LongestSuffix(index.Keys, words[n][1..])
      ensures LinkTarget(n) == f
    {
    }

    /** The link target of the child in slot `b` of non-root node `n` is the node spelling the
        longest suffix of `words[n][1..] + [b]` in the trie. */
    lemma ChildLinkTarget(n: nat, b: byte, f: nat)
      requires Shape() && 0 < n < |nodes| && b in nodes[n].children && f < |nodes|
      requires words[f] == LongestSuffix(index.Keys, words[n][1..] + [b])
      ensures 0 < nodes[n].children[b] < |nodes| && LinkTarget(nodes[n].children[b]) == f
    {
      var c := nodes[n].children[b];
      ChildParent(n, b);
      DropFirstAppend(words[n], b);
      LinkTargetIs(c, f);
    }

    /** The fail link of non-root node `n` is set, to its link target. */
    ghost predicate FailOk(n: nat)
      reads this`nodes, this`words, this`index, this`parent, this`failLink
    {
      n < |failLink| && failLink[n] == Some(LinkTarget(n))
    }

    /** Every non-root node of depth at most `d` has its correct fail link. */
    ghost predicate LinkedUpTo(d: nat)
      reads this`nodes, this`words, this`index, this`parent, this`failLink
      requires |words| == |nodes|
    {
      forall n {:trigger FailOk(n)} :: 0 < n < |nodes| && |words[n]| <= d ==> FailOk(n)
    }

    ghost predicate FailLinksBuilt()
      reads this`nodes, this`words, this`index, this`parent, this`failLink
    {
      forall n {:trigger FailOk(n)} :: 0 < n < |nodes| ==> FailOk(n)
    }

    /** The object invariant: before finalization no fail link is set, afterwards every
        non-root fail link is correct; the root's fail link stays unset. */
    ghost predicate Valid()
      reads this
    {
      && Shape() && Pruned()
      && |failLink| == |nodes| && failLink[Root] == None
      && (finalized ==> FailLinksBuilt())
      && (!finalized ==> Building())
    }

    /** The invariant while patterns are being inserted: a pruned trie with no fail link set. */
    ghost predicate Building()
      reads this
    {
      && Shape() && Pruned() && !finalized
      && |failLink| == |nodes| && forall n :: 0 <= n < |nodes| ==> failLink[n] == None
    }

    /** The patterns inserted so far, with their labels. */
    ghost function Dictionary(): map<bytes, string>
      reads this`nodes, this`index
    {
      DictionaryOf(nodes, index)
    }

    /** The node reached from node `n` by following the child slots for the bytes of `w`. */
    ghost function LookupFrom(n: nat, w: bytes): (r: Option<nat>)
      reads this`nodes
      requires n < |nodes|
      ensures r.Some? ==> r.value < |nodes|
      decreases |w|
    {
      if w == [] then Some(n)
      else if w[0] in nodes[n].children && nodes[n].children[w[0]] < |nodes|
      then LookupFrom(nodes[n].children[w[0]], w[1..])
      else None
    }

    constructor ()
      ensures Valid() && !finalized
      ensures Dictionary() == map[]
      ensures index.Keys == {[]}
    {
      nodes := [Node(map[], None)];
      failLink := [None];
      finalized := false;
      words := [[]];
      index := map[[] := Root];
      parent := [Root];
      ext := [Root];
    }

    // ----- facts about the trie shape -----

    /** A spelled string's one-byte-shorter prefix is spelled too. */
    lemma DropLast(w: bytes, b: byte)
      requires Shape() && w + [b] in index
      ensures w in index
    {
      var m := index[w + [b]];
      assert words[m] == w + [b];
      assert words[parent[m]] == words[m][..|w|] == w;
    }

    /** Every prefix of a spelled string is spelled. */
    lemma {:induction false} PrefixInTrie(n: nat, k: nat)
      requires Shape() && n < |nodes| && k <= |words[n]|
      ensures words[n][..k] in index
      decreases |words[n]|
    {
      if k == |words[n]| {
        assert words[n][..k] == words[n];
      } else {
        var p := parent[n];
        assert words[p] == words[n][..|words[n]| - 1];
        PrefixInTrie(p, k);
        assert words[p][..k] == words[n][..k];
      }
    }

    /** The child in slot `b` of node `n` is a non-root node whose parent is `n`. */
    lemma ChildParent(n: nat, b: byte)
      requires Shape() && n < |nodes| && b in nodes[n].children
      ensures 0 < nodes[n].children[b] < |nodes| && parent[nodes[n].children[b]] == n
    {
      var c := nodes[n].children[b];
      assert words[c] == words[n] + [b];
      assert words[parent[c]] == words[c][..|words[c]| - 1] == words[n];
    }

    /** A non-root node sits in its parent's child slot for its last byte. */
    lemma ChildOf(m: nat)
      requires Shape() && 0 < m < |nodes|
      ensures var p, b := parent[m], words[m][|words[m]| - 1];
              words[m] == words[p] + [b] && b in nodes[p].children && nodes[p].children[b] == m
    {
      var p, b := parent[m], words[m][|words[m]| - 1];
      assert words[m] == words[p] + [b];
    }

    /** The children of node `n` in the slots below `i`, in slot order: the order in which
        the byte loops of src/lib.rs `finalize` reach them. */
    ghost function ChildList(n: nat, i: nat): seq<nat>
      reads this`nodes
      requires n < |nodes| && i <= 256
    {
      if i == 0 then []
      else ChildList(n, i - 1) + (if i - 1 in nodes[n].children then [nodes[n].children[i - 1]] else [])
    }

    /** `ChildList(n, i)` holds, without repetition, exactly the nodes whose parent is `n` and
        whose last byte is below `i`. */
    lemma ChildListSpec(n: nat, i: nat)
      requires Shape() && n < |nodes| && i <= 256
      ensures forall q :: q in ChildList(n, i) <==>
                0 < q < |nodes| && parent[q] == n && words[q][|words[q]| - 1] < i
      ensures forall j, k :: 0 <= j < k < |ChildList(n, i)| ==> ChildList(n, i)[j] != ChildList(n, i)[k]
    {
      ChildListMembers(n, i);
      ChildListDistinct(n, i);
    }

    /** The nodes met by the byte loop over the slots of `n` below `i`. */
    lemma {:induction false} ChildListMembers(n: nat, i: nat)
      requires Shape() && n < |nodes| && i <= 256
      ensures forall q :: q in ChildList(n, i) <==>
                0 < q < |nodes| && parent[q] == n && words[q][|words[q]| - 1] < i
    {
      if i > 0 {
        ChildListMembers(n, i - 1);
        SlotOwner(n, i - 1);
        var prev := ChildList(n, i - 1);
        if i - 1 in nodes[n].children {
          var c := nodes[n].children[i - 1];
          assert ChildList(n, i) == prev + [c];
          forall q ensures q in ChildList(n, i) <==> q in prev || q == c { }
        } else {
          assert ChildList(n, i) == prev;
        }
      }
    }

    /** The byte loop over the slots of `n` meets no node twice. */
    lemma {:induction false} ChildListDistinct(n: nat, i: nat)
      requires Shape() && n < |nodes| && i <= 256
      ensures forall j, k :: 0 <= j < k < |ChildList(n, i)| ==> ChildList(n, i)[j] != ChildList(n, i)[k]
    {
      if i > 0 {
        ChildListDistinct(n, i - 1);
        var prev := ChildList(n, i - 1);
        if i - 1 in nodes[n].children {
          var c := nodes[n].children[i - 1];
          ChildListMembers(n, i - 1);
          SlotOwner(n, i - 1);
          assert c !in prev;
          assert ChildList(n, i) == prev + [c];
        } else {
          assert ChildList(n, i) == prev;
        }
      }
    }

    /** The nodes hanging from `n` whose last byte is `b`: the child in slot `b`, if any. */
    lemma SlotOwner(n: nat, b: byte)
      requires Shape() && n < |nodes|
      ensures forall m :: 0 < m < |nodes| && parent[m] == n ==>
                (words[m][|words[m]| - 1] == b <==> b in nodes[n].children && m == nodes[n].children[b])
      ensures b in nodes[n].children ==> 0 < nodes[n].children[b] < |nodes| && parent[nodes[n].children[b]] == n
    {
      if b in nodes[n].children {
        ChildParent(n, b);
      }
      forall m | 0 < m < |nodes| && parent[m] == n
        ensures words[m][|words[m]| - 1] == b <==> b in nodes[n].children && m == nodes[n].children[b]
      {
        ChildOf(m);
      }
    }

    /** One more slot of `ChildList`: an occupied slot `i` adds its child, which is new. */
    lemma SlotStep(n: nat, i: nat)
      requires Shape() && n < |nodes| && i < 256
      ensures i in nodes[n].children ==>
                var c := nodes[n].children[i];
                && 0 < c < |nodes| && parent[c] == n && words[c] == words[n] + [i as byte]
                && c !in ChildList(n, i) && ChildList(n, i + 1) == ChildList(n, i) + [c]
      ensures i !in nodes[n].children ==> ChildList(n, i + 1) == ChildList(n, i)
    {
      if i in nodes[n].children {
        ChildParent(n, i);
        ChildListSpec(n, i);
      }
    }

    /** The label of node `n` is its string's entry in the dictionary. */
    lemma DictionaryAt(n: nat)
      requires Shape() && n < |nodes|
      ensures words[n] in Dictionary() <==> nodes[n].tag.Some?
      ensures words[n] in Dictionary() ==> Dictionary()[words[n]] == nodes[n].tag.value
    {
    }

    /** Following child slots from node `n` along `w` reaches exactly the node spelling
        `words[n] + w`, and fails exactly when the trie does not spell it. */
    lemma {:induction false} LookupAgreesWithWords(n: nat, w: bytes)
      requires Shape() && n < |nodes|
      ensures LookupFrom(n, w) == if words[n] + w in index then Some(index[words[n] + w]) else None
      decreases |w|
    {
      if w == [] {
        assert words[n] + w == words[n];
      } else {
        if words[n] + w in index {
          var m := index[words[n] + w];
          PrefixInTrie(m, |words[n]| + 1);
          assert words[m][..|words[n]| + 1] == words[n] + [w[0]];
        }
        if w[0] in nodes[n].children {
          var c := nodes[n].children[w[0]];
          assert w == [w[0]] + w[1..];
          assert words[c] + w[1..] == words[n] + w;
          LookupAgreesWithWords(c, w[1..]);
        }
      }
    }

    /** The trie spells exactly the root and the prefixes of the inserted patterns. */
    lemma TrieIsPrefixes()
      requires Valid()
      ensures index.Keys == Reference.TrieWords(Dictionary())
    {
      var d := Dictionary();
      forall w | w in index
        ensures w in Reference.TrieWords(d)
      {
        var n := index[w];
        Reference.InTrieWords(d, w);
        if n != Root {
          var e := ext[n];
          assert words[e] in d && IsPrefix(w, words[e]);
        }
      }
      forall w | w in Reference.TrieWords(d)
        ensures w in index
      {
        Reference.InTrieWords(d, w);
        if w != [] {
          var p :| p in d && IsPrefix(w, p);
          PrefixInTrie(index[p], |w|);
          assert p[..|w|] == w;
        }
      }
    }

    // ----- insert -----

    /** src/lib.rs `insert`: refuse once the automaton is finalized; otherwise walk the
        pattern's bytes from the root, creating missing children, then set or confirm the label
        of the node reached, refusing a label different from the one stored there. */
    method Insert(pattern: bytes, tag: string) returns (r: InsertResult)
      requires Valid()
      modifies this`nodes, this`failLink, this`words, this`parent, this`index, this`ext
      ensures Valid()
      ensures r == (if old(finalized) then Err(AlreadyFinalized)
                    else if pattern in old(Dictionary()) && old(Dictionary())[pattern] != tag
                    then Err(LabelConflict(pattern, tag, old(Dictionary())[pattern]))
                    else Ok)
      ensures r.Ok? ==> Dictionary() == old(Dictionary())[pattern := tag]
      ensures r.Ok? ==> index.Keys == old(index.Keys) + PrefixesUpTo(pattern, |pattern|)
      ensures r.Ok? ==> var t := LookupFrom(Root, pattern); t.Some? && nodes[t.value].tag == Some(tag)
      ensures r.Err? || (pattern in old(Dictionary()) && old(Dictionary())[pattern] == tag) ==>
                nodes == old(nodes) && failLink == old(failLink)
      ensures KeepsEdges(old(nodes), nodes) && old(words) <= words
    {
      if finalized {
        r := Err(AlreadyFinalized);
      } else {
        assert Building();
        r := InsertPattern(pattern, tag);
      }
    }

    /** `Insert` on an automaton that is not finalized: the walk, then the label check and
        write. A conflicting label is detected only after the walk, but a labelled node already
        has its whole path, so the walk changed nothing then. */
    method InsertPattern(pattern: bytes, tag: string) returns (r: InsertResult)
      requires Building()
      modifies this`nodes, this`failLink, this`words, this`parent, this`index, this`ext
      ensures Building()
      ensures r == (if pattern in old(Dictionary()) && old(Dictionary())[pattern] != tag
                    then Err(LabelConflict(pattern, tag, old(Dictionary())[pattern]))
                    else Ok)
      ensures r.Ok? ==> Dictionary() == old(Dictionary())[pattern := tag]
      ensures r.Ok? ==> index.Keys == old(index.Keys) + PrefixesUpTo(pattern, |pattern|)
      ensures r.Ok? ==> var t := LookupFrom(Root, pattern); t.Some? && nodes[t.value].tag == Some(tag)
      ensures r.Err? || (pattern in old(Dictionary()) && old(Dictionary())[pattern] == tag) ==>
                nodes == old(nodes) && failLink == old(failLink)
      ensures KeepsEdges(old(nodes), nodes) && old(words) <= words
    {
      var node := MakePath(pattern);
      if nodes[node].tag.Some? && nodes[node].tag.value != tag {
        assert node < old(|nodes|) && old(words[node]) == pattern && pattern in old(index);
        r := Err(LabelConflict(pattern, tag, nodes[node].tag.value));
      } else {
        ghost var walked := nodes;
        SetLabel(node, tag);
        KeepsEdgesTransitive(old(nodes), walked, nodes);
        if pattern in old(Dictionary()) {
          assert pattern in old(index) && walked[node] == walked[node].(tag := Some(tag));
        }
        r := Ok;
      }
    }

    /** The label write of src/lib.rs `insert`: the node reached by the walk gets the label
        (it had none, or the same one), and every node the walk created now extends to it. */
    method SetLabel(node: nat, tag: string)
      requires Walked(node) && (nodes[node].tag.Some? ==> nodes[node].tag.value == tag)
      modifies this`nodes, this`ext
      ensures Building()
      ensures nodes == old(nodes)[node := old(nodes[node]).(tag := Some(tag))]
      ensures KeepsEdges(old(nodes), nodes)
      ensures forall n :: 0 <= n < |nodes| && n != node ==> nodes[n].tag == old(nodes[n].tag)
      ensures Dictionary() == old(Dictionary())[words[node] := tag]
      ensures ext[..old(|ext|)] == old(ext)
      ensures LookupFrom(Root, words[node]) == Some(node)
    {
      DictionaryLabel(nodes, index, words[node], tag);
      LabelCovers(nodes, words, ext, node, tag);
      RelabelTrie(nodes, words, index, parent, node, tag);
      nodes := nodes[node := nodes[node].(tag := Some(tag))];
      ext := ext + Repeat(node, |nodes| - |ext|);
      LookupAgreesWithWords(Root, words[node]);
      assert words[Root] + words[node] == words[node];
    }

    /** The state between the walk of `insert` and its label write, `node` being the node the
        walk reached: all invariants hold but one, in that the nodes the walk created (those
        from `|ext|` on) do not yet lie on the path of a labelled node; they lie on the path of
        `node`. */
    ghost predicate Walked(node: nat)
      reads this
    {
      && Shape() && |failLink| == |nodes| && failLink[Root] == None && !finalized
      && (forall n :: 0 <= n < |nodes| ==> failLink[n] == None)
      && node < |nodes| && |ext| <= |nodes| && LabelledBelow(nodes, words, ext)
      && (forall n :: |ext| <= n < |nodes| ==> IsPrefix(words[n], words[node]))
    }

    /** The walk of src/lib.rs `insert`: from the root, follow the slot for each byte of the
        pattern, creating the child where the slot is empty; the node reached spells the
        pattern. Only nodes on the pattern's path are created, none is labelled, and nothing
        changes when the pattern's node already exists. */
    method MakePath(pattern: bytes) returns (node: nat)
      requires Building()
      modifies this`nodes, this`failLink, this`words, this`parent, this`index
      ensures PathInv(pattern, |pattern|, node, old(nodes), old(words), old(parent), old(index), old(failLink))
      ensures Walked(node) && words[node] == pattern
      ensures Dictionary() == old(Dictionary())
    {
      node := Root;
      assert pattern[..0] == [];
      for i := 0 to |pattern|
        invariant PathInv(pattern, i, node, old(nodes), old(words), old(parent), old(index), old(failLink))
      {
        node := Descend(pattern, i, node, old(nodes), old(words), old(parent), old(index), old(failLink));
      }
      assert pattern[..|pattern|] == pattern;
      DictionaryGrows(old(nodes), old(words), old(index), old(parent), nodes, words, index, parent);
    }

    /** The state of the walk of `insert` after `i` bytes of `pattern`, starting from the arena
        `nodes0` (with ghost state `words0`, `parent0`, `index0` and fail links `links0`): the
        cursor `node` spells the first `i` bytes, the arena is still a trie without fail links,
        it grows the starting one by unlabelled nodes spelling prefixes of the pattern, exactly
        the prefixes read so far were added to the spelled strings, and nothing changed at all
        if the pattern was spelled already. */
    ghost predicate PathInv(pattern: bytes, i: nat, node: nat, nodes0: seq<Node>, words0: seq<bytes>,
                            parent0: seq<nat>, index0: map<bytes, nat>, links0: seq<Option<nat>>)
      reads this`nodes, this`failLink, this`words, this`parent, this`index
    {
      && i <= |pattern| && Shape() && |failLink| == |nodes|
      && node < |nodes| && words[node] == pattern[..i]
      && Grows(nodes0, nodes) && words0 <= words && parent0 <= parent
      && (forall n :: |nodes0| <= n < |nodes| ==> nodes[n].tag == None && IsPrefix(words[n], pattern))
      && (forall n :: 0 <= n < |nodes| ==> failLink[n] == None)
      && index.Keys == index0.Keys + PrefixesUpTo(pattern, i)
      && (pattern in index0 ==>
            nodes == nodes0 && failLink == links0 && words == words0 && index == index0 && parent == parent0)
    }

    /** The body of the walk of src/lib.rs `insert` for byte `i` of the pattern: create the child
        in the slot for that byte if the slot is empty, then move the cursor to the child. */
    method Descend(pattern: bytes, i: nat, node: nat, ghost nodes0: seq<Node>, ghost words0: seq<bytes>,
                   ghost parent0: seq<nat>, ghost index0: map<bytes, nat>, ghost links0: seq<Option<nat>>)
      returns (next: nat)
      requires i < |pattern| && PathInv(pattern, i, node, nodes0, words0, parent0, index0, links0)
      requires pattern in index0 ==> IsTrie(nodes0, words0, index0, parent0)
      modifies this`nodes, this`failLink, this`words, this`parent, this`index
      ensures PathInv(pattern, i + 1, next, nodes0, words0, parent0, index0, links0)
    {
      var b := pattern[i];
      TakeOneMore(pattern, i);
      PrefixesUpToNext(pattern, i);
      if pattern in index0 {
        PrefixInTrie(index[pattern], i + 1);
      }
      if b in nodes[node].children {
        next := nodes[node].children[b];
      } else {
        next := DescendNew(pattern, i, node, nodes0, words0, parent0, index0, links0);
      }
    }

    /** `Descend` when the slot is empty: the new child becomes the cursor. */
    method DescendNew(pattern: bytes, i: nat, node: nat, ghost nodes0: seq<Node>, ghost words0: seq<bytes>,
                      ghost parent0: seq<nat>, ghost index0: map<bytes, nat>, ghost links0: seq<Option<nat>>)
      returns (next: nat)
      requires i < |pattern| && PathInv(pattern, i, node, nodes0, words0, parent0, index0, links0)
      requires pattern !in index0 && pattern[i] !in nodes[node].children
      requires pattern[..i + 1] == pattern[..i] + [pattern[i]]
      requires PrefixesUpTo(pattern, i + 1) == PrefixesUpTo(pattern, i) + {pattern[..i + 1]}
      modifies this`nodes, this`failLink, this`words, this`parent, this`index
      ensures PathInv(pattern, i + 1, next, nodes0, words0, parent0, index0, links0)
    {
      ghost var before := nodes;
      next := AddChild(node, pattern[i]);
      GrowsTransitive(nodes0, before, nodes);
    }

    /** The allocation step of src/lib.rs `insert`: a fresh empty node, with no fail link, is
        appended to the arena and hung in the empty slot `b` of node `node`. */
    method AddChild(node: nat, b: byte) returns (child: nat)
      requires Shape() && |failLink| == |nodes| && node < |nodes| && b !in nodes[node].children
      modifies this`nodes, this`failLink, this`words, this`parent, this`index
      ensures Shape() && |failLink| == |nodes| && Grows(old(nodes), nodes)
      ensures child == old(|nodes|)
      ensures nodes == old(nodes)[node := old(nodes[node]).(children := old(nodes[node].children)[b := child])]
                       + [Node(map[], None)]
      ensures failLink == old(failLink) + [None]
      ensures words == old(words) + [old(words[node]) + [b]]
      ensures parent == old(parent) + [node]
      ensures index == old(index)[old(words[node]) + [b] := child]
    {
      child := |nodes|;
      ExtendTrie(nodes, words, index, parent, node, b);
      ghost var w := words[node] + [b];
      nodes := nodes[node := nodes[node].(children := nodes[node].children[b := child])]
               + [Node(map[], None)];
      failLink := failLink + [None];
      words := words + [w];
      parent := parent + [node];
      index := index[w := child];
    }

    // ----- the fail-link walk shared by finalize and categorize -----

    /** Walking fail links from a node spelling a suffix of `s`: every longer suffix of `s`
        that the trie spells has no child for byte `b`. */
    ghost predicate WalkInv(s: bytes, b: byte, c: nat)
      reads this`nodes, this`words, this`index, this`parent
      requires Shape()
    {
      && c < |nodes| && IsSuffix(words[c], s)
      && forall u {:trigger IsSuffix(u, s)} :: u in index && IsSuffix(u, s) && |words[c]| < |u| ==> u + [b] !in index
    }

    lemma WalkStart(s: bytes, b: byte, c: nat)
      requires Shape() && c < |nodes| && words[c] == LongestSuffix(index.Keys, s)
      ensures WalkInv(s, b, c)
    {
      LongestSuffixIsSuffix(index.Keys, s);
      forall u | u in index && IsSuffix(u, s)
        ensures |u| <= |words[c]|
      {
        LongestSuffixMaximal(index.Keys, s, u);
      }
    }

    /** One step of the walk: from a node with no child for `b`, its fail link keeps the
        walk's invariant and goes strictly up. */
    lemma WalkStep(s: bytes, b: byte, c: nat)
      requires Shape() && c != Root && WalkInv(s, b, c) && b !in nodes[c].children && FailOk(c)
      ensures WalkInv(s, b, failLink[c].value)
      ensures |words[failLink[c].value]| < |words[c]|
    {
      var f := failLink[c].value;
      var t := words[c][1..];
      assert IsSuffix(t, words[c]);
      LongestSuffixIsSuffix(index.Keys, t);
      SuffixTransitive(words[f], t, words[c]);
      SuffixTransitive(words[f], words[c], s);
      forall u | u in index && IsSuffix(u, s) && |words[f]| < |u|
        ensures u + [b] !in index
      {
        if |u| == |words[c]| {
          assert u == s[|s| - |u|..] == words[c];
        } else if |u| < |words[c]| {
          assert u == s[|s| - |u|..] == t[|t| - |u|..];
          LongestSuffixMaximal(index.Keys, t, u);
        }
      }
    }

    /** The end of the walk: taking the child for `b`, or staying at the root, lands on the
        node spelling the longest suffix of `s + [b]` that the trie spells. */
    lemma WalkExit(s: bytes, b: byte, c: nat)
      requires Shape() && WalkInv(s, b, c) && (b in nodes[c].children || c == Root)
      ensures var next := if b in nodes[c].children then nodes[c].children[b] else Root;
              next < |nodes| && words[next] == LongestSuffix(index.Keys, s + [b])
    {
      var t := s + [b];
      var next := if b in nodes[c].children then nodes[c].children[b] else Root;
      forall u | u in index && IsSuffix(u, t)
        ensures |u| <= |words[next]|
      {
        if u != [] {
          var v := u[..|u| - 1];
          assert u == v + [b] && v == s[|s| - |v|..];
          DropLast(v, b);
          assert IsSuffix(v, s);
        }
      }
      if b in nodes[c].children {
        assert t[|t| - |words[next]|..] == s[|s| - |words[c]|..] + [b];
      }
      LongestSuffixUnique(index.Keys, t, words[next]);
    }

    // ----- finalize -----

    /** src/lib.rs `finalize`: breadth-first, give every child of the root a fail link to the
        root, then for each dequeued node link each of its children in byte order and enqueue
        them; finally raise the finalized flag. Every non-root node then fails to the node of
        the longest proper suffix of its string that the trie spells. */
    method Finalize()
      requires Valid()
      modifies this`failLink, this`finalized
      ensures Valid() && finalized
      ensures forall n :: 0 < n < |nodes| ==>
                failLink[n] == Some(index[LongestSuffix(index.Keys, words[n][1..])])
    {
      ghost var order := LinkBreadthFirst();
      finalized := true;
      forall n | 0 < n < |nodes|
        ensures failLink[n] == Some(index[LongestSuffix(index.Keys, words[n][1..])])
      {
        assert FailOk(n);
      }
    }

    /** The two loops of src/lib.rs `finalize` that set the fail links. The ghost result
        `order` is the sequence of dequeued nodes: every non-root node exactly once, shallower
        nodes first. */
    method LinkBreadthFirst() returns (ghost order: seq<nat>)
      requires Shape() && |failLink| == |nodes| && failLink[Root] == None
      modifies this`failLink
      ensures |failLink| == |nodes| && failLink[Root] == None && FailLinksBuilt()
      ensures forall j :: 0 <= j < |order| ==> 0 < order[j] < |nodes|
      ensures forall m :: m in order <==> 0 < m < |nodes|
      ensures forall j, k :: 0 <= j < k < |order| ==>
                order[j] != order[k] && |words[order[j]]| <= |words[order[k]]|
    {
      var queue := LinkRootChildren();
      BfsStart(queue);
      order := [];
      while queue != []
        invariant BfsInv(queue, order)
        decreases index.Values - (set x | x in order)
      {
        BfsHead(queue, order, failLink);
        assert index[words[queue[0]]] == queue[0];
        Dequeue(index.Values, order, queue[0]);
        queue, order := VisitNext(queue, order);
      }
      BfsDone(order);
    }

    /** The children of the root, linked to the root, start the queue loop. */
    lemma BfsStart(queue: seq<nat>)
      requires Shape() && |failLink| == |nodes| && failLink[Root] == None
      requires queue == ChildList(Root, 256)
      requires forall q :: q in queue ==> 0 < q < |nodes| && failLink[q] == Some(Root)
      ensures BfsInv(queue, [])
    {
      RootChildren();
    }

    /** When the queue runs empty, every non-root node has been dequeued, once, so every
        fail link is set correctly. */
    lemma BfsDone(order: seq<nat>)
      requires BfsInv([], order)
      ensures FailLinksBuilt()
      ensures forall j :: 0 <= j < |order| ==> 0 < order[j] < |nodes|
      ensures forall m :: m in order <==> 0 < m < |nodes|
      ensures forall j, k :: 0 <= j < k < |order| ==>
                order[j] != order[k] && |words[order[j]]| <= |words[order[k]]|
    {
      forall m | 0 < m < |nodes|
        ensures m in order && FailOk(m)
      {
        UnvisitedIsDeep(m, order, [], |words[m]|);
        var j :| 0 <= j < |order| && order[j] == m;
      }
    }

    /** The invariant of the queue loop of src/lib.rs `finalize`, `order` being the nodes
        dequeued so far: see `BfsLinks`, for the stored fail links. */
    ghost predicate BfsInv(queue: seq<nat>, order: seq<nat>)
      reads this`nodes, this`words, this`index, this`parent, this`failLink
    {
      BfsLinks(failLink, queue, order)
    }

    /** The queue loop invariant for fail links `links`: dequeued and waiting nodes are non-root
        nodes with their correct fail links, the two sequences are layered by depth, the
        children of the root and of every dequeued node are dequeued or waiting, and every
        waiting node is a child of the root or of a dequeued node. */
    ghost predicate BfsLinks(links: seq<Option<nat>>, queue: seq<nat>, order: seq<nat>)
      reads this`nodes, this`words, this`index, this`parent
    {
      // bound to a name, so that callers establish it as one fact
      var ok :=
        && Shape() && |links| == |nodes| && links[Root] == None
        && Layered(queue, order, words)
        && (forall j :: 0 <= j < |queue| ==>
              0 < queue[j] < |nodes| && links[queue[j]] == Some(LinkTarget(queue[j])))
        && (forall j :: 0 <= j < |order| ==>
              0 < order[j] < |nodes| && links[order[j]] == Some(LinkTarget(order[j])))
        && (forall m :: 0 < m < |nodes| && (parent[m] == Root || parent[m] in order) ==>
              m in order || m in queue)
        && (forall j :: 0 <= j < |queue| ==> parent[queue[j]] == Root || parent[queue[j]] in order);
      ok
    }

    /** One round of the queue loop of src/lib.rs `finalize`: dequeue the head, link each of
        its children and enqueue them in byte order. */
    method VisitNext(queue: seq<nat>, ghost order: seq<nat>) returns (queue': seq<nat>, ghost order': seq<nat>)
      requires queue != [] && BfsInv(queue, order)
      modifies this`failLink
      ensures BfsInv(queue', order')
      ensures queue' == queue[1..] + ChildList(queue[0], 256) && order' == order + [queue[0]]
    {
      var current: nat := queue[0];
      BfsLinkedBelow(queue, order);
      ghost var previous := failLink;
      var links, added := ChildLinks(current);
      failLink := links;
      BfsStep(queue, order, previous, links, added);
      queue' := queue[1..] + added;
      order' := order + [current];
    }

    /** The head of the queue is a non-root node not yet dequeued, and no waiting node is
        shallower. */
    lemma BfsHead(queue: seq<nat>, order: seq<nat>, links: seq<Option<nat>>)
      requires queue != [] && BfsLinks(links, queue, order)
      ensures 0 < queue[0] < |nodes| && queue[0] !in order
      ensures forall q :: q in queue ==> q < |nodes| && |words[queue[0]]| <= |words[q]|
    {
      forall q | q in queue
        ensures q < |nodes| && |words[queue[0]]| <= |words[q]|
      {
        var k :| 0 <= k < |queue| && queue[k] == q;
        assert k == 0 || |words[queue[0]]| <= |words[queue[k]]|;
      }
    }

    /** Every node no deeper than the head of the queue has its correct fail link. */
    lemma BfsLinkedBelow(queue: seq<nat>, order: seq<nat>)
      requires queue != [] && BfsInv(queue, order)
      ensures 0 < queue[0] < |nodes| && |words| == |nodes| && LinkedUpTo(|words[queue[0]]|)
    {
      BfsHead(queue, order, failLink);
      var d := |words[queue[0]]|;
      forall n | 0 < n < |nodes| && |words[n]| <= d
        ensures FailOk(n)
      {
        UnvisitedIsDeep(n, order, queue, d);
        if n in order {
          var j :| 0 <= j < |order| && order[j] == n;
        } else {
          var j :| 0 <= j < |queue| && queue[j] == n;
        }
      }
    }

    /** The children of the head, linked in `links` as the slot loop of `ChildLinks` leaves
        them, extend the queue loop invariant by one round. */
    lemma BfsStep(queue: seq<nat>, order: seq<nat>, previous: seq<Option<nat>>, links: seq<Option<nat>>, added: seq<nat>)
      requires queue != [] && BfsLinks(previous, queue, order)
      requires SlotsLinked(queue[0], 256, previous, links, added)
      ensures BfsLinks(links, queue[1..] + added, order + [queue[0]])
      ensures added == ChildList(queue[0], 256)
    {
      BfsLayered(queue, order, previous, added);
      BfsHead(queue, order, previous);
      BfsStepQueue(queue, order, previous, links, added);
      BfsStepOrder(order, queue[0], previous, links);
      BfsStepClosed(queue, order, added);
    }

    /** After a round, every waiting node is linked and hangs from the root or a dequeued node. */
    lemma BfsStepQueue(queue: seq<nat>, order: seq<nat>, previous: seq<Option<nat>>, links: seq<Option<nat>>, added: seq<nat>)
      requires Shape() && |previous| == |nodes| && |links| == |nodes|
      requires queue != [] && 0 < queue[0] < |nodes| && queue[0] !in order
      requires forall j :: 1 <= j < |queue| ==>
                 && 0 < queue[j] < |nodes| && queue[j] != queue[0]
                 && previous[queue[j]] == Some(LinkTarget(queue[j]))
                 && (parent[queue[j]] == Root || parent[queue[j]] in order)
      requires added == ChildList(queue[0], 256)
      requires forall q :: q in added ==> 0 < q < |nodes| && links[q] == Some(LinkTarget(q))
      requires forall n :: 0 < n < |nodes| && parent[n] != queue[0] ==> links[n] == previous[n]
      ensures var queue', order' := queue[1..] + added, order + [queue[0]];
              forall j :: 0 <= j < |queue'| ==>
                && 0 < queue'[j] < |nodes| && links[queue'[j]] == Some(LinkTarget(queue'[j]))
                && (parent[queue'[j]] == Root || parent[queue'[j]] in order')
    {
      var current := queue[0];
      var queue', order' := queue[1..] + added, order + [current];
      ChildListParents(current);
      forall j | 0 <= j < |queue'|
        ensures 0 < queue'[j] < |nodes| && links[queue'[j]] == Some(LinkTarget(queue'[j]))
        ensures parent[queue'[j]] == Root || parent[queue'[j]] in order'
      {
        if j < |queue| - 1 {
          assert queue'[j] == queue[j + 1];
        } else {
          assert queue'[j] == added[j - |queue| + 1] && queue'[j] in added;
        }
      }
    }

    /** Every node met by the byte loop over the slots of `n` hangs from `n`. */
    lemma ChildListParents(n: nat)
      requires Shape() && n < |nodes|
      ensures forall q :: q in ChildList(n, 256) ==> 0 < q < |nodes| && parent[q] == n
    {
      ChildListSpec(n, 256);
    }

    /** After a round, every dequeued node is linked: the fail links the round writes are
        those of the head's children, which lie deeper than every dequeued node. */
    lemma BfsStepOrder(order: seq<nat>, current: nat, previous: seq<Option<nat>>, links: seq<Option<nat>>)
      requires Shape() && |previous| == |nodes| && |links| == |nodes|
      requires 0 < current < |nodes| && previous[current] == Some(LinkTarget(current))
      requires forall j :: 0 <= j < |order| ==>
                 0 < order[j] < |nodes| && previous[order[j]] == Some(LinkTarget(order[j]))
                 && |words[order[j]]| <= |words[current]|
      requires forall n :: 0 < n < |nodes| && parent[n] != current ==> links[n] == previous[n]
      ensures var order' := order + [current];
              forall j :: 0 <= j < |order'| ==>
                0 < order'[j] < |nodes| && links[order'[j]] == Some(LinkTarget(order'[j]))
    {
      var order' := order + [current];
      forall j | 0 <= j < |order'|
        ensures 0 < order'[j] < |nodes| && links[order'[j]] == Some(LinkTarget(order'[j]))
      {
        var x := order'[j];
        assert |words[parent[x]]| + 1 == |words[x]|;
      }
    }

    /** After a round, the children of the root and of every dequeued node, the head's included,
        are dequeued or waiting. */
    lemma BfsStepClosed(queue: seq<nat>, order: seq<nat>, added: seq<nat>)
      requires Shape() && queue != [] && queue[0] < |nodes| && added == ChildList(queue[0], 256)
      requires forall m :: 0 < m < |nodes| && (parent[m] == Root || parent[m] in order) ==>
                 m in order || m in queue
      ensures var queue', order' := queue[1..] + added, order + [queue[0]];
              forall m :: 0 < m < |nodes| && (parent[m] == Root || parent[m] in order') ==>
                m in order' || m in queue'
    {
      var current := queue[0];
      var queue', order' := queue[1..] + added, order + [current];
      ChildListSpec(current, 256);
      forall m | 0 < m < |nodes| && (parent[m] == Root || parent[m] in order')
        ensures m in order' || m in queue'
      {
        if parent[m] != current && m in queue && m != current {
          var k :| 0 <= k < |queue| && queue[k] == m;
          assert queue'[k - 1] == m;
        }
      }
    }

    /** The children of the head of the queue are one level deeper than it, distinct, and not
        waiting, so enqueueing them keeps the layering. */
    lemma BfsLayered(queue: seq<nat>, order: seq<nat>, links: seq<Option<nat>>, added: seq<nat>)
      requires queue != [] && BfsLinks(links, queue, order) && added == ChildList(queue[0], 256)
      ensures Layered(queue[1..] + added, order + [queue[0]], words)
    {
      var current := queue[0];
      ChildListSpec(current, 256);
      forall j | 0 <= j < |added|
        ensures added[j] < |words| && |words[added[j]]| == |words[current]| + 1
      {
        assert added[j] in added;
      }
      forall j, k | 0 <= j < |added| && 1 <= k < |queue|
        ensures added[j] != queue[k]
      {
        assert added[j] in added;
        assert queue[0] !in order;
      }
      LayeredStep(queue, order, words, added);
    }

    /** The first loop of src/lib.rs `finalize`: every child of the root fails to the root, and
        the children of the root, in byte order, form the initial queue. */
    method LinkRootChildren() returns (queue: seq<nat>)
      requires Shape() && |failLink| == |nodes| && failLink[Root] == None
      modifies this`failLink
      ensures |failLink| == |nodes| && failLink[Root] == None
      ensures queue == ChildList(Root, 256)
      ensures forall q :: q in queue ==> 0 < q < |nodes| && failLink[q] == Some(Root)
      ensures forall n :: 0 < n < |nodes| && parent[n] != Root ==> failLink[n] == old(failLink[n])
    {
      queue := [];
      for i := 0 to 256
        invariant |failLink| == |nodes| && failLink[Root] == None
        invariant queue == ChildList(Root, i)
        invariant forall q :: q in queue ==> 0 < q < |nodes| && failLink[q] == Some(Root)
        invariant forall n :: 0 < n < |nodes| && parent[n] != Root ==> failLink[n] == old(failLink[n])
      {
        SlotStep(Root, i);
        var b: byte := i;
        if b in nodes[Root].children {
          var child: nat := nodes[Root].children[b];
          failLink := failLink[child := Some(Root)];
          queue := queue + [child];
        }
      }
    }

    /** The children of the root, in byte order, are without repetition exactly the nodes
        of depth one, and each of them has the root as its link target. */
    lemma RootChildren()
      requires Shape()
      ensures var q := ChildList(Root, 256);
              && (forall j, k :: 0 <= j < k < |q| ==> q[j] != q[k])
              && (forall m :: m in q <==> 0 < m < |nodes| && parent[m] == Root)
              && (forall j :: 0 <= j < |q| ==> 0 < q[j] < |nodes| && |words[q[j]]| == 1 && LinkTarget(q[j]) == Root)
    {
      ChildListSpec(Root, 256);
      var q := ChildList(Root, 256);
      forall j | 0 <= j < |q|
        ensures 0 < q[j] < |nodes| && |words[q[j]]| == 1 && LinkTarget(q[j]) == Root
      {
        var m := q[j];
        assert m in q;
        assert words[parent[m]] == words[m][..|words[m]| - 1];
        assert words[m][1..] == [];
        LinkTargetIs(m, Root);
      }
    }

    /** The invariant of the slot loop of `ChildLinks` after `i` slots of `current`, starting
        from the stored fail links `previous`: `added` lists the children found so far, each
        linked in `links` to its link target, and every other non-root node keeps its link
        from `previous`. */
    ghost predicate SlotsLinked(current: nat, i: nat, previous: seq<Option<nat>>, links: seq<Option<nat>>, added: seq<nat>)
      reads this`nodes, this`words, this`index, this`parent
    {
      // bound to a name, so that callers establish it as one fact
      var ok :=
        && Shape() && current < |nodes| && i <= 256
        && |links| == |nodes| && |previous| == |nodes| && links[Root] == None
        && added == ChildList(current, i)
        && (forall q :: q in added ==> 0 < q < |nodes| && links[q] == Some(LinkTarget(q)))
        && (forall n :: 0 < n < |nodes| && parent[n] != current ==> links[n] == previous[n]);
      ok
    }

    /** Linking the child in occupied slot `i` to its link target `f` keeps the invariant. */
    lemma SlotsLinkedStep(current: nat, i: nat, previous: seq<Option<nat>>, links: seq<Option<nat>>, added: seq<nat>, f: nat)
      requires 0 < current && i < 256 && SlotsLinked(current, i, previous, links, added)
      requires i in nodes[current].children && f < |nodes|
      requires words[f] == LongestSuffix(index.Keys, words[current][1..] + [i as byte])
      ensures var c := nodes[current].children[i];
              SlotsLinked(current, i + 1, previous, links[c := Some(f)], added + [c])
    {
      SlotStep(current, i);
      ChildLinkTarget(current, i, f);
    }

    /** An empty slot `i` keeps the invariant. */
    lemma SlotsLinkedSkip(current: nat, i: nat, previous: seq<Option<nat>>, links: seq<Option<nat>>, added: seq<nat>)
      requires i < 256 && SlotsLinked(current, i, previous, links, added)
      requires i !in nodes[current].children
      ensures SlotsLinked(current, i + 1, previous, links, added)
    {
      SlotStep(current, i);
    }

    /** The body of the breadth-first loop of src/lib.rs `finalize`, for the dequeued node
        `current` whose fail link and those of all nodes no deeper are already correct: for each
        occupied slot `b` in byte order, walk fail links from the fail link of `current` until
        a node with a child for `b` or the root, link the child to that node's child for `b`,
        or to the root, and enqueue it. The result is the fail link sequence with the children
        of `current` linked, each to its link target, and the children in slot order.
        The walks read only links of nodes shallower than `current`, none of which change, so
        the links are collected in `links` and stored by the caller. */
    method ChildLinks(current: nat) returns (links: seq<Option<nat>>, added: seq<nat>)
      requires Shape() && |failLink| == |nodes| && failLink[Root] == None
      requires 0 < current < |nodes| && LinkedUpTo(|words[current]|)
      ensures SlotsLinked(current, 256, failLink, links, added)
    {
      ghost var s := words[current][1..];
      HeadLinked(current);
      links := failLink;
      added := [];
      for i := 0 to 256
        invariant SlotsLinked(current, i, failLink, links, added)
      {
        var b: byte := i;
        if b in nodes[current].children {
          var child: nat := nodes[current].children[b];
          var fail := Step(s, failLink[current].value, b);
          SlotsLinkedStep(current, i, failLink, links, added, fail);
          links := links[child := Some(fail)];
          added := added + [child];
        } else {
          SlotsLinkedSkip(current, i, failLink, links, added);
        }
      }
    }

    /** A dequeued node's own fail link is set, to the node spelling the longest suffix of its
        string without the first byte, and every node no deeper than that suffix is linked. */
    lemma HeadLinked(current: nat)
      requires Shape() && |failLink| == |nodes|
      requires 0 < current < |nodes| && LinkedUpTo(|words[current]|)
      ensures failLink[current].Some? && failLink[current].value < |nodes|
      ensures words[failLink[current].value] == LongestSuffix(index.Keys, words[current][1..])
      ensures LinkedUpTo(|words[current][1..]|)
    {
      assert FailOk(current);
    }

    /** During the breadth-first pass, with `order` the dequeued nodes and `queue` the waiting
        ones: a node neither dequeued nor waiting lies deeper than every waiting node, because
        some ancestor of it is waiting. */
    lemma {:induction false} UnvisitedIsDeep(m: nat, order: seq<nat>, queue: seq<nat>, d: nat)
      requires Shape() && 0 < m < |nodes|
      requires forall n :: 0 < n < |nodes| && (parent[n] == Root || parent[n] in order) ==>
                 n in order || n in queue
      requires forall q :: q in queue ==> q < |nodes| && d <= |words[q]|
      ensures m !in order && m !in queue ==> d < |words[m]|
      decreases |words[m]|
    {
      var p := parent[m];
      assert |words[p]| + 1 == |words[m]|;
      if m !in order && m !in queue && p != Root && p !in queue {
        UnvisitedIsDeep(p, order, queue, d);
      }
    }

    // ----- categorize -----

    /** src/lib.rs `categorize`: scan the text byte by byte, following fail links while the
        current node has no child for the byte and is not the root, then taking the child if
        there is one, and recording the label of the node reached; return the last label
        recorded. */
    method Categorize(text: bytes) returns (r: Option<string>)
      requires Valid() && finalized
      ensures r == Reference.Categorize(Dictionary(), text)
      ensures text == [] ==> r == None
    {
      TrieIsPrefixes();
      ghost var d := Dictionary();
      var node: nat := Root;
      r := None;
      for j := 0 to |text|
        invariant node < |nodes| && words[node] == Reference.State(d, text[..j])
        invariant r == Reference.Categorize(d, text[..j])
      {
        var b := text[j];
        ghost var s := text[..j];
        TakeOneMore(text, j);
        node := Step(s, node, b);
        ScanStep(s, b, node, r);
        if nodes[node].tag.Some? {
          r := nodes[node].tag;
        }
      }
      assert text[..|text|] == text;
    }

    /** The body of the scan loop of src/lib.rs `categorize` for one byte `b`: from the node
        spelling the longest suffix of `s` in the trie, follow fail links while there is no
        child for `b` and the root is not reached, then take the child for `b` if there is one.
        The node reached spells the longest suffix of `s + [b]` in the trie. */
    method Step(ghost s: bytes, node: nat, b: byte) returns (next: nat)
      requires Shape() && |failLink| == |nodes| && LinkedUpTo(|s|)
      requires node < |nodes| && words[node] == LongestSuffix(index.Keys, s)
      ensures next < |nodes| && words[next] == LongestSuffix(index.Keys, s + [b])
    {
      next := node;
      WalkStart(s, b, next);
      while b !in nodes[next].children && next != Root
        invariant WalkInv(s, b, next)
        decreases |words[next]|
      {
        WalkStep(s, b, next);
        next := failLink[next].value;
      }
      WalkExit(s, b, next);
      if b in nodes[next].children {
        next := nodes[next].children[b];
      }
    }

    /** One byte of the scan: the node reached is the reference state after the byte, and
        recording its label, if any, gives the reference result after the byte. */
    lemma ScanStep(s: bytes, b: byte, next: nat, r: Option<string>)
      requires Shape() && index.Keys == Reference.TrieWords(Dictionary())
      requires next < |nodes| && words[next] == LongestSuffix(index.Keys, s + [b])
      requires r == Reference.Categorize(Dictionary(), s)
      ensures words[next] == Reference.State(Dictionary(), s + [b])
      ensures (if nodes[next].tag.Some? then nodes[next].tag else r) ==
              Reference.Categorize(Dictionary(), s + [b])
    {
      Reference.CategorizeStep(Dictionary(), s, b);
      DictionaryAt(next);
    }

    // ----- properties of the finalized automaton -----

    /** The node reached from `n` by following fail links `k` times (stopping at the root). */
    ghost function FailChain(n: nat, k: nat): nat
      reads this
      requires Valid() && finalized && n < |nodes|
      decreases k
    {
      if k == 0 || n == Root then n
      else assert FailOk(n); FailChain(failLink[n].value, k - 1)
    }

    /** A fail link points strictly up the trie, so following fail links from any node reaches
        the root within as many steps as the node's depth. */
    lemma {:induction false} FailChainReachesRoot(n: nat, k: nat)
      requires Valid() && finalized && n < |nodes| && |words[n]| <= k
      ensures FailChain(n, k) == Root
      decreases k
    {
      if n != Root {
        assert FailOk(n);
        var f := failLink[n].value;
        assert |words[f]| <= |words[n][1..]|;
        FailChainReachesRoot(f, k - 1);
      }
    }

    /** The children of the root fail to the root. */
    lemma RootChildrenFailToRoot(n: nat)
      requires Valid() && finalized && 0 < n < |nodes| && parent[n] == Root
      ensures failLink[n] == Some(Root)
    {
      assert FailOk(n);
      assert words[n][..|words[n]| - 1] == [];
      assert words[n][1..] == [];
    }
  }
}
