/**
 * The array-of-children trie of trie.java: class trie, its insertion
 * method isWord and its breadth-first prefix query wordByPrefix, over the
 * node class trieNode as its uses show it (a letter given to the
 * constructor, 26 child slots indexed by `c - 'A'`, a `terminal` flag and
 * a `word` string).
 *
 * The trieNode objects of one trie live in an arena: a reference to one
 * is its index in a sequence of node values. The root is index 0, and a
 * created node is appended, so every child has a larger index than its
 * parent. Ghost labels give the path that leads to each node.
 */
module JavaTrie {
  import opened Options
  import opened Sequences

  /** The number of child slots of a node. */
  const Width := 26

  /**
   * One trieNode: the letter it was created with, its child slots (None
   * for `null`), its `terminal` flag and its `word`. Java leaves `word`
   * null until the node is made terminal; the model keeps "" there, and
   * `word` is read only on terminal nodes.
   */
  datatype Node = Node(letter: char, children: seq<Option<nat>>, terminal: bool, word: string)

  /** `new trieNode(c)`: no children, not terminal. */
  function NewNode(c: char): (r: Node)
    ensures r.letter == c && |r.children| == Width && !r.terminal
    ensures forall k :: 0 <= k < Width ==> r.children[k].None?
  {
    Node(c, seq(Width, _ => None), false, "")
  }

  // === The alphabet ===

  predicate InAlphabet(c: char) {
    'A' <= c <= 'Z'
  }

  /** The child slot `c - 'A'` of a letter. */
  function Slot(c: char): (k: nat)
    requires InAlphabet(c)
    ensures k < Width
  {
    (c as int) - ('A' as int)
  }

  /** The letter whose child slot is `k`. */
  function Letter(k: nat): (c: char)
    requires k < Width
    ensures InAlphabet(c)
  {
    ((k + 'A' as int) as char)
  }

  /** Slot and Letter are inverse to each other. */
  lemma SlotLetter(c: char, k: nat)
    requires InAlphabet(c) && k < Width
    ensures Letter(Slot(c)) == c
    ensures Slot(Letter(k)) == k
    ensures Slot(c) == k <==> c == Letter(k)
  {
  }

  /**
   * What both methods demand of their string: `currentChar[0]` is read, so
   * it is not empty, and every letter indexes a child slot.
   */
  predicate ValidWord(w: string) {
    |w| > 0 && forall i :: 0 <= i < |w| ==> InAlphabet(w[i])
  }

  // === The arena ===

  /** Every node has 26 slots, and every child lies after its parent. */
  ghost predicate Linked(ns: seq<Node>) {
    && (forall n :: 0 <= n < |ns| ==> |ns[n].children| == Width)
    && (forall n, k {:trigger ns[n].children[k]} :: 0 <= n < |ns| && 0 <= k < |ns[n].children| && ns[n].children[k].Some? ==>
          n < ns[n].children[k].value < |ns|)
  }

  /** The child of `n` in slot `k`, if any. */
  function Child(ns: seq<Node>, n: nat, k: nat): (r: Option<nat>)
    requires Linked(ns) && n < |ns| && k < Width
    ensures r.Some? ==> n < r.value < |ns|
  {
    ns[n].children[k]
  }

  /** The node reached from `n` by following the letters of `p`, if any. */
  function Walk(ns: seq<Node>, n: nat, p: string): (r: Option<nat>)
    requires Linked(ns) && n < |ns|
    ensures r.Some? ==> n <= r.value < |ns|
    ensures r.Some? && p != [] ==> n < r.value
    decreases |p|
  {
    if p == [] then Some(n)
    else match Walk(ns, n, p[..|p| - 1])
      case None => None
      case Some(m) =>
        var c := p[|p| - 1];
        if InAlphabet(c) then Child(ns, m, Slot(c)) else None
  }

  /** `p` is a word of the trie: its walk ends at a terminal node. */
  ghost predicate Stored(ns: seq<Node>, p: string)
    requires Linked(ns) && |ns| > 0
  {
    var r := Walk(ns, 0, p);
    r.Some? && ns[r.value].terminal
  }

  /** The child in slot `k` is labelled by its parent's label and `Letter(k)`. */
  ghost predicate EdgesLabelled(ns: seq<Node>, labels: seq<string>)
    requires |labels| == |ns|
  {
    forall n, k {:trigger ns[n].children[k]} ::
      0 <= n < |ns| && 0 <= k < Width && k < |ns[n].children| && ns[n].children[k].Some? && ns[n].children[k].value < |ns| ==>
        labels[ns[n].children[k].value] == labels[n] + [Letter(k)]
  }

  /** Every node is reached from the root by walking its label. */
  ghost predicate Reached(ns: seq<Node>, labels: seq<string>)
    requires Linked(ns) && |ns| > 0 && |labels| == |ns|
  {
    forall m {:trigger Walk(ns, 0, labels[m])} :: 0 <= m < |ns| ==> Walk(ns, 0, labels[m]) == Some(m)
  }

  /** A terminal node holds the word that leads to it. */
  ghost predicate WordsLabelled(ns: seq<Node>, labels: seq<string>)
    requires |labels| == |ns|
  {
    forall m :: 0 <= m < |ns| && ns[m].terminal ==> ns[m].word == labels[m]
  }

  /** The arena is a tree under the root, labelled by paths. */
  ghost predicate WellFormed(ns: seq<Node>, labels: seq<string>) {
    && |ns| > 0 && |labels| == |ns| && labels[0] == []
    && Linked(ns) && EdgesLabelled(ns, labels) && Reached(ns, labels) && WordsLabelled(ns, labels)
  }

  // === Walks ===

  lemma WalkSnoc(ns: seq<Node>, n: nat, p: string, c: char)
    requires Linked(ns) && n < |ns|
    ensures Walk(ns, n, p + [c]) == match Walk(ns, n, p)
      case None => None
      case Some(m) => if InAlphabet(c) then Child(ns, m, Slot(c)) else None
  {
    assert (p + [c])[..|p|] == p;
  }

  /** Walking `p` and then `s` is walking `p + s`. */
  lemma {:induction false} WalkConcat(ns: seq<Node>, n: nat, p: string, s: string)
    requires Linked(ns) && n < |ns|
    ensures Walk(ns, n, p + s) == match Walk(ns, n, p) case None => None case Some(m) => Walk(ns, m, s)
    decreases |s|
  {
    if s == [] {
      assert p + s == p;
    } else {
      var s' := s[..|s| - 1];
      assert (p + s)[..|p + s| - 1] == p + s';
      assert (p + s)[|p + s| - 1] == s[|s| - 1];
      WalkConcat(ns, n, p, s');
    }
  }

  /** Walking from the root ends at the node labelled by the walked string. */
  lemma {:induction false} WalkLabel(ns: seq<Node>, labels: seq<string>, p: string)
    requires Linked(ns) && |ns| > 0 && |labels| == |ns| && labels[0] == [] && EdgesLabelled(ns, labels)
    requires Walk(ns, 0, p).Some?
    ensures labels[Walk(ns, 0, p).value] == p
    decreases |p|
  {
    if p != [] {
      var q, c := p[..|p| - 1], p[|p| - 1];
      WalkLabel(ns, labels, q);
      var m := Walk(ns, 0, q).value;
      assert Walk(ns, 0, p) == Child(ns, m, Slot(c));
      assert q + [c] == p;
    }
  }

  /** Where a walk fails, it fails for every extension. */
  lemma {:induction false} WalkPrefixNone(ns: seq<Node>, n: nat, p: string, k: nat)
    requires Linked(ns) && n < |ns| && k <= |p| && Walk(ns, n, p[..k]).None?
    ensures Walk(ns, n, p).None?
    decreases |p| - k
  {
    if k < |p| {
      assert p[..|p| - 1][..k] == p[..k];
      WalkPrefixNone(ns, n, p[..|p| - 1], k);
    } else {
      assert p[..k] == p;
    }
  }

  /** Where the walk of the first `k` letters of `w` succeeds, so do those of all shorter prefixes. */
  lemma PrefixesWalk(ns: seq<Node>, w: string, k: nat)
    requires Linked(ns) && |ns| > 0 && k <= |w| && Walk(ns, 0, w[..k]).Some?
    ensures forall p :: p <= w && |p| <= k ==> Walk(ns, 0, p).Some?
  {
    forall p | p <= w && |p| <= k
      ensures Walk(ns, 0, p).Some?
    {
      assert w[..k][..|p|] == p;
      if Walk(ns, 0, p).None? {
        WalkPrefixNone(ns, 0, w[..k], |p|);
      }
    }
  }

  // === isWord ===

  /** `a` grew into `b`: same letter, no child slot or mark lost. */
  ghost predicate NodeGrown(a: Node, b: Node) {
    && a.letter == b.letter
    && |a.children| == |b.children|
    && (forall k :: 0 <= k < |a.children| && a.children[k].Some? ==> b.children[k] == a.children[k])
    && (a.terminal ==> b.terminal && b.word == a.word)
  }

  /** Every node of `ns` grew into the node at the same index of `ns'`. */
  ghost predicate Grown(ns: seq<Node>, ns': seq<Node>) {
    |ns| <= |ns'| && forall n :: 0 <= n < |ns| ==> NodeGrown(ns[n], ns'[n])
  }

  lemma GrownTrans(a: seq<Node>, b: seq<Node>, c: seq<Node>)
    requires Grown(a, b) && Grown(b, c)
    ensures Grown(a, c)
  {
  }

  /** A walk that succeeds in an arena succeeds alike in what it grew into. */
  lemma {:induction false} WalkGrown(ns: seq<Node>, ns': seq<Node>, n: nat, p: string)
    requires Linked(ns) && Linked(ns') && Grown(ns, ns') && n < |ns|
    requires Walk(ns, n, p).Some?
    ensures Walk(ns', n, p) == Walk(ns, n, p)
    decreases |p|
  {
    if p != [] {
      WalkGrown(ns, ns', n, p[..|p| - 1]);
    }
  }

  /** The terminal mark isWord sets on the node of `w` (trie.java:29-30, 42-43). */
  function Mark(nd: Node, w: string): (r: Node)
    ensures r.terminal && r.word == w
    ensures r.letter == nd.letter && r.children == nd.children
  {
    nd.(terminal := true, word := w)
  }

  /**
   * `ns'` is `ns` with a node appended for the letter `c` under the node
   * `n`, whose slot for `c` was empty (trie.java:38).
   */
  ghost predicate Created(ns: seq<Node>, n: nat, c: char, ns': seq<Node>) {
    && n < |ns| && InAlphabet(c) && Slot(c) < |ns[n].children| && |ns'| == |ns| + 1
    && ns'[|ns|] == NewNode(c)
    && ns'[n] == ns[n].(children := ns[n].children[Slot(c) := Some(|ns|)])
    && forall m :: 0 <= m < |ns| && m != n ==> ns'[m] == ns[m]
  }

  /** Appending `new trieNode(c)` and storing it in the slot for `c` of `n` creates it. */
  lemma AppendCreates(ns: seq<Node>, n: nat, c: char, appended: seq<Node>, ns': seq<Node>)
    requires Linked(ns) && n < |ns| && InAlphabet(c)
    requires appended == ns + [NewNode(c)]
    requires ns' == appended[n := appended[n].(children := appended[n].children[Slot(c) := Some(|appended| - 1)])]
    ensures Created(ns, n, c, ns')
  {
  }

  /** Creating a child keeps the arena a labelled tree and loses nothing. */
  lemma CreatedWellFormed(ns: seq<Node>, labels: seq<string>, n: nat, c: char, ns': seq<Node>)
    requires WellFormed(ns, labels) && Created(ns, n, c, ns')
    requires Child(ns, n, Slot(c)).None?
    ensures WellFormed(ns', labels + [labels[n] + [c]])
    ensures Grown(ns, ns')
  {
    var labels' := labels + [labels[n] + [c]];
    CreatedLinked(ns, n, c, ns');
    CreatedEdges(ns, labels, n, c, ns');
    CreatedReached(ns, labels, n, c, ns');
    CreatedWords(ns, labels, n, c, ns');
  }

  lemma CreatedWords(ns: seq<Node>, labels: seq<string>, n: nat, c: char, ns': seq<Node>)
    requires |labels| == |ns| && WordsLabelled(ns, labels) && Created(ns, n, c, ns')
    ensures WordsLabelled(ns', labels + [labels[n] + [c]])
    ensures forall m :: 0 <= m < |ns'| && ns'[m].terminal ==> m < |ns| && ns[m].terminal
  {
    var labels' := labels + [labels[n] + [c]];
    forall m | 0 <= m < |ns'| && ns'[m].terminal
      ensures m < |ns| && ns[m].terminal && ns'[m].word == labels'[m]
    {
      assert m < |ns|;
      assert labels'[m] == labels[m];
    }
  }

  lemma CreatedLinked(ns: seq<Node>, n: nat, c: char, ns': seq<Node>)
    requires Linked(ns) && Created(ns, n, c, ns') && Child(ns, n, Slot(c)).None?
    ensures Linked(ns') && Grown(ns, ns')
  {
    forall m, k | 0 <= m < |ns'| && 0 <= k < |ns'[m].children| && ns'[m].children[k].Some?
      ensures m < ns'[m].children[k].value < |ns'|
    {
      if m < |ns| && !(m == n && k == Slot(c)) {
        assert ns'[m].children[k] == ns[m].children[k];
      }
    }
    forall m | 0 <= m < |ns|
      ensures NodeGrown(ns[m], ns'[m])
    {
    }
  }

  lemma CreatedEdges(ns: seq<Node>, labels: seq<string>, n: nat, c: char, ns': seq<Node>)
    requires Linked(ns) && |labels| == |ns| && EdgesLabelled(ns, labels) && Created(ns, n, c, ns')
    ensures EdgesLabelled(ns', labels + [labels[n] + [c]])
  {
    var labels' := labels + [labels[n] + [c]];
    forall m, k | 0 <= m < |ns'| && 0 <= k < Width && k < |ns'[m].children| && ns'[m].children[k].Some? &&
                  ns'[m].children[k].value < |ns'|
      ensures labels'[ns'[m].children[k].value] == labels'[m] + [Letter(k)]
    {
      if m == n && k == Slot(c) {
        SlotLetter(c, k);
      } else {
        assert m < |ns| && ns'[m].children[k] == ns[m].children[k];
      }
    }
  }

  lemma CreatedReached(ns: seq<Node>, labels: seq<string>, n: nat, c: char, ns': seq<Node>)
    requires Linked(ns) && |ns| > 0 && |labels| == |ns| && Reached(ns, labels)
    requires Linked(ns') && Grown(ns, ns') && Created(ns, n, c, ns')
    ensures Reached(ns', labels + [labels[n] + [c]])
  {
    var labels' := labels + [labels[n] + [c]];
    forall m | 0 <= m < |ns'|
      ensures Walk(ns', 0, labels'[m]) == Some(m)
    {
      if m < |ns| {
        assert labels'[m] == labels[m];
        StillReached(ns, labels, ns', m);
      } else {
        assert m == |ns| && labels'[m] == labels[n] + [c];
        StillReached(ns, labels, ns', n);
        WalkSnoc(ns', 0, labels[n], c);
      }
    }
  }

  /** An old node is reached in the grown arena by its old label. */
  lemma StillReached(ns: seq<Node>, labels: seq<string>, ns': seq<Node>, m: nat)
    requires Linked(ns) && Linked(ns') && |ns| > 0 && |labels| == |ns| && Reached(ns, labels)
    requires Grown(ns, ns') && m < |ns|
    ensures Walk(ns', 0, labels[m]) == Some(m)
  {
    WalkGrown(ns, ns', 0, labels[m]);
  }

  /**
   * Creating a child into an empty slot makes exactly one more string
   * walkable from the root: the child's label.
   */
  lemma {:induction false} CreatedWalk(ns: seq<Node>, labels: seq<string>, n: nat, c: char, ns': seq<Node>, p: string)
    requires WellFormed(ns, labels) && Created(ns, n, c, ns') && Child(ns, n, Slot(c)).None?
    ensures Linked(ns')
    ensures Walk(ns', 0, p).Some? <==> Walk(ns, 0, p).Some? || p == labels[n] + [c]
    decreases |p|
  {
    CreatedLinked(ns, n, c, ns');
    if p != [] {
      var q, d := p[..|p| - 1], p[|p| - 1];
      assert p == q + [d];
      CreatedWalk(ns, labels, n, c, ns', q);
      WalkSnoc(ns, 0, q, d);
      WalkSnoc(ns', 0, q, d);
      if Walk(ns, 0, q).Some? {
        WalkGrown(ns, ns', 0, q);
        WalkLabel(ns, labels, q);
      } else if q == labels[n] + [c] {
        StillReached(ns, labels, ns', n);
        WalkSnoc(ns', 0, labels[n], c);
        assert ns'[|ns|] == NewNode(c);
      } else {
        assert p != labels[n] + [c] by {
          assert Walk(ns, 0, labels[n]) == Some(n);
        }
      }
    }
  }

  /** CreatedWalk for every string. */
  lemma CreatedPaths(ns: seq<Node>, labels: seq<string>, n: nat, c: char, ns': seq<Node>)
    requires WellFormed(ns, labels) && Created(ns, n, c, ns') && Child(ns, n, Slot(c)).None?
    ensures Linked(ns')
    ensures forall p :: Walk(ns', 0, p).Some? <==> Walk(ns, 0, p).Some? || p == labels[n] + [c]
  {
    CreatedLinked(ns, n, c, ns');
    forall p
      ensures Walk(ns', 0, p).Some? <==> Walk(ns, 0, p).Some? || p == labels[n] + [c]
    {
      CreatedWalk(ns, labels, n, c, ns', p);
    }
  }

  /** Marking a node by its own label keeps the arena a labelled tree. */
  lemma MarkWellFormed(ns: seq<Node>, labels: seq<string>, n: nat)
    requires WellFormed(ns, labels) && n < |ns|
    ensures var ns' := ns[n := Mark(ns[n], labels[n])];
      WellFormed(ns', labels) && Grown(ns, ns') && Linked(ns')
      && forall p :: Walk(ns', 0, p) == Walk(ns, 0, p)
  {
    var ns' := ns[n := Mark(ns[n], labels[n])];
    assert Linked(ns');
    forall p
      ensures Walk(ns', 0, p) == Walk(ns, 0, p)
    {
      WalkSame(ns, ns', 0, p);
    }
  }

  /** Arenas with the same child slots walk alike. */
  lemma {:induction false} WalkSame(ns: seq<Node>, ns': seq<Node>, n: nat, p: string)
    requires Linked(ns) && Linked(ns') && |ns| == |ns'| && n < |ns|
    requires forall m :: 0 <= m < |ns| ==> ns'[m].children == ns[m].children
    ensures Walk(ns', n, p) == Walk(ns, n, p)
    decreases |p|
  {
    if p != [] {
      WalkSame(ns, ns', n, p[..|p| - 1]);
    }
  }

  /**
   * The words of an arena that grew without new marks on old nodes and
   * with no mark on new nodes are the old words.
   */
  lemma StoredKept(ns: seq<Node>, labels: seq<string>, ns': seq<Node>, labels': seq<string>)
    requires WellFormed(ns, labels) && WellFormed(ns', labels') && Grown(ns, ns')
    requires |labels| <= |labels'| && labels'[..|labels|] == labels
    requires forall m :: 0 <= m < |ns'| && ns'[m].terminal ==> m < |ns| && ns[m].terminal
    ensures forall p :: Stored(ns', p) <==> Stored(ns, p)
  {
    forall p
      ensures Stored(ns', p) <==> Stored(ns, p)
    {
      if Stored(ns, p) {
        WalkGrown(ns, ns', 0, p);
      }
      if Stored(ns', p) {
        var m := Walk(ns', 0, p).value;
        WalkLabel(ns', labels', p);
        assert labels'[m] == labels[m];
      }
    }
  }

  /** Marking the node labelled `w` adds `w` to the words and nothing else. */
  lemma MarkStored(ns: seq<Node>, labels: seq<string>, n: nat, w: string)
    requires WellFormed(ns, labels) && n < |ns| && labels[n] == w
    ensures var ns' := ns[n := Mark(ns[n], w)];
      && WellFormed(ns', labels) && Grown(ns, ns')
      && (forall p :: Stored(ns', p) <==> Stored(ns, p) || p == w)
      && Walk(ns', 0, w) == Some(n)
  {
    var ns' := ns[n := Mark(ns[n], w)];
    MarkWellFormed(ns, labels, n);
    forall p
      ensures Stored(ns', p) <==> Stored(ns, p) || p == w
    {
      if Walk(ns, 0, p).Some? {
        WalkLabel(ns, labels, p);
      }
    }
  }

  /**
   * The creation loop's state (trie.java:37-40) after the letters of `w`
   * before `i`: the arena grew from `ns` and stays a labelled tree, `node`
   * is labelled by those letters, its slot for the next letter is empty,
   * and no node has been marked.
   */
  ghost predicate Creating(ns: seq<Node>, labels: seq<string>, w: string, i: nat,
                           ns': seq<Node>, labels': seq<string>, node: nat)
  {
    && WellFormed(ns, labels) && WellFormed(ns', labels') && ValidWord(w) && i <= |w|
    && Grown(ns, ns') && |labels| <= |labels'| && labels'[..|labels|] == labels
    && node < |ns'| && labels'[node] == w[..i]
    && (i < |w| ==> Child(ns', node, Slot(w[i])).None?)
    && (forall m :: 0 <= m < |ns'| && ns'[m].terminal ==> m < |ns| && ns[m].terminal)
  }

  /** One iteration of the creation loop keeps its state. */
  lemma CreateStep(ns: seq<Node>, labels: seq<string>, w: string, i: nat,
                   ns1: seq<Node>, labels1: seq<string>, node: nat, ns2: seq<Node>)
    requires Creating(ns, labels, w, i, ns1, labels1, node) && i < |w|
    requires Created(ns1, node, w[i], ns2)
    ensures Creating(ns, labels, w, i + 1, ns2, labels1 + [labels1[node] + [w[i]]], |ns1|)
  {
    var labels2 := labels1 + [labels1[node] + [w[i]]];
    CreatedWellFormed(ns1, labels1, node, w[i], ns2);
    GrownTrans(ns, ns1, ns2);
    SliceSnoc(w, i);
    PrefixTrans(labels, labels1, labels2);
    CreatedWords(ns1, labels1, node, w[i], ns2);
  }

  /**
   * The strings walkable in `ns'` are those walkable in `ns` and the
   * prefixes of `w` longer than `lo` letters and at most `hi` long.
   */
  ghost predicate PathsAdded(ns: seq<Node>, ns': seq<Node>, w: string, lo: nat, hi: nat)
    requires Linked(ns) && Linked(ns') && |ns| > 0 && |ns'| > 0
  {
    forall p :: Walk(ns', 0, p).Some? <==> Walk(ns, 0, p).Some? || (lo < |p| <= hi && p <= w)
  }

  /** One iteration of the creation loop walks one more prefix of `w`, by one more node. */
  lemma PathsStep(ns: seq<Node>, labels: seq<string>, w: string, lo: nat, i: nat,
                  ns1: seq<Node>, labels1: seq<string>, node: nat, ns2: seq<Node>)
    requires Creating(ns, labels, w, i, ns1, labels1, node) && lo <= i < |w|
    requires PathsAdded(ns, ns1, w, lo, i) && |ns1| == |ns| + (i - lo)
    requires Created(ns1, node, w[i], ns2)
    ensures Linked(ns2) && PathsAdded(ns, ns2, w, lo, i + 1) && |ns2| == |ns| + (i + 1 - lo)
  {
    CreatedPaths(ns1, labels1, node, w[i], ns2);
    SliceSnoc(w, i);
    forall p
      ensures Walk(ns2, 0, p).Some? <==> Walk(ns, 0, p).Some? || (lo < |p| <= i + 1 && p <= w)
    {
      assert p == w[..i + 1] <==> |p| == i + 1 && p <= w;
    }
  }

  /**
   * The do-while walk of isWord (trie.java:21-34) along the existing path
   * of `w`: either the whole path exists and `node` ends it, or `node` ends
   * the longest existing prefix, whose next slot is empty.
   */
  method FollowPath(ns: seq<Node>, w: string) returns (node: nat, index: nat, complete: bool)
    requires Linked(ns) && |ns| > 0 && ValidWord(w)
    ensures node < |ns|
    ensures complete ==> index == |w| && Walk(ns, 0, w) == Some(node)
    ensures !complete ==>
      index < |w| && Walk(ns, 0, w[..index]) == Some(node) && Child(ns, node, Slot(w[index])).None? && Walk(ns, 0, w).None?
  {
    node, index := 0, 0;
    var tnode := ns[node].children[Slot(w[index])];
    while tnode.Some?
      invariant index < |w| && node < |ns| && Walk(ns, 0, w[..index]) == Some(node)
      invariant tnode == Child(ns, node, Slot(w[index]))
      decreases |w| - index
    {
      SliceSnoc(w, index);
      WalkSnoc(ns, 0, w[..index], w[index]);
      node := tnode.value;
      index := index + 1;
      if index >= |w| {
        SliceAll(w);
        return node, index, true;
      }
      tnode := ns[node].children[Slot(w[index])];
    }
    SliceSnoc(w, index);
    WalkSnoc(ns, 0, w[..index], w[index]);
    WalkPrefixNone(ns, 0, w, index + 1);
    complete := false;
  }

  /**
   * The for loop of isWord (trie.java:37-40): a new node for each remaining
   * letter, each stored in the empty slot of the one before.
   */
  method CreatePath(ns: seq<Node>, ghost labels: seq<string>, w: string, index: nat, node: nat)
    returns (ns': seq<Node>, ghost labels': seq<string>, last: nat)
    requires index < |w| && node < |ns| && Creating(ns, labels, w, index, ns, labels, node)
    ensures Creating(ns, labels, w, |w|, ns', labels', last)
    ensures |ns'| == |ns| + (|w| - index) && PathsAdded(ns, ns', w, index, |w|)
  {
    ns', labels', last := ns, labels, node;
    for i := index to |w|
      invariant Creating(ns, labels, w, i, ns', labels', last)
      invariant |ns'| == |ns| + (i - index) && PathsAdded(ns, ns', w, index, i)
    {
      ghost var before, ls := ns', labels';
      var created := NewNode(w[i]);
      ns' := ns' + [created];
      ghost var appended := ns';
      ns' := ns'[last := ns'[last].(children := ns'[last].children[Slot(w[i]) := Some(|ns'| - 1)])];
      labels' := labels' + [labels'[last] + [w[i]]];
      AppendCreates(before, last, w[i], appended, ns');
      CreateStep(ns, labels, w, i, before, ls, last, ns');
      PathsStep(ns, labels, w, index, i, before, ls, last, ns');
      last := |ns'| - 1;
    }
  }

  /**
   * isWord (trie.java:15-44): the word `w` becomes a word of the trie and
   * its node holds `w`; no other word is added or lost; no child slot or
   * mark is lost, so new nodes go only into empty slots; and when the path
   * of `w` existed, no node is created and only its node changes, to
   * terminal with `w` as its word.
   */
  method AddWord(ns: seq<Node>, ghost labels: seq<string>, w: string)
    returns (ns': seq<Node>, ghost labels': seq<string>)
    requires WellFormed(ns, labels) && ValidWord(w)
    ensures WellFormed(ns', labels') && Grown(ns, ns')
    ensures forall p :: Stored(ns', p) <==> Stored(ns, p) || p == w
    ensures Walk(ns', 0, w).Some? && ns'[Walk(ns', 0, w).value].word == w
    ensures Walk(ns, 0, w).Some? ==>
      var n := Walk(ns, 0, w).value; ns' == ns[n := Mark(ns[n], w)]
    ensures forall p :: Walk(ns', 0, p).Some? <==> Walk(ns, 0, p).Some? || p <= w
  {
    var node, index, complete := FollowPath(ns, w);
    if complete {
      WalkLabel(ns, labels, w);
      MarkStored(ns, labels, node, w);
      MarkWellFormed(ns, labels, node);
      SliceAll(w);
      PrefixesWalk(ns, w, |w|);
      ns', labels' := ns[node := Mark(ns[node], w)], labels;
      return;
    }
    WalkLabel(ns, labels, w[..index]);
    PrefixesWalk(ns, w, index);
    ns', labels', node := CreatePath(ns, labels, w, index, node);
    SliceAll(w);
    StoredKept(ns, labels, ns', labels');
    MarkStored(ns', labels', node, w);
    MarkWellFormed(ns', labels', node);
    GrownTrans(ns, ns', ns'[node := Mark(ns'[node], w)]);
    ns' := ns'[node := Mark(ns'[node], w)];
  }

  // === wordByPrefix ===

  /** What slot `k` of node `n` holds, or None where there is no such node or slot. */
  function Entry(ns: seq<Node>, n: nat, k: nat): Option<nat> {
    if n < |ns| && k < |ns[n].children| then ns[n].children[k] else None
  }

  /** The children of `n` in its slots before `k`, in slot order (trie.java:73-77). */
  function ChildrenUpTo(ns: seq<Node>, n: nat, k: nat): seq<nat> {
    if k == 0 then []
    else ChildrenUpTo(ns, n, k - 1) + (if Entry(ns, n, k - 1).Some? then [Entry(ns, n, k - 1).value] else [])
  }

  /** The children of `n`, in slot order. */
  function Children(ns: seq<Node>, n: nat): seq<nat> {
    ChildrenUpTo(ns, n, Width)
  }

  /** The children of the nodes of `xs`, in the order of `xs` and then of slots. */
  function Kids(ns: seq<Node>, xs: seq<nat>): seq<nat> {
    if xs == [] then [] else Kids(ns, xs[..|xs| - 1]) + Children(ns, xs[|xs| - 1])
  }

  /** The nodes `d` levels below `n`, from left to right. */
  function Level(ns: seq<Node>, n: nat, d: nat): seq<nat> {
    if d == 0 then [n] else Kids(ns, Level(ns, n, d - 1))
  }

  /** The words of the terminal nodes of `xs`, in order. */
  function Terminals(ns: seq<Node>, xs: seq<nat>): seq<string> {
    if xs == [] then []
    else
      var x := xs[|xs| - 1];
      Terminals(ns, xs[..|xs| - 1]) + (if x < |ns| && ns[x].terminal then [ns[x].word] else [])
  }

  /** The words of the terminal nodes of the first `d` levels below `n`, level by level. */
  function Layers(ns: seq<Node>, n: nat, d: nat): seq<string> {
    if d == 0 then [] else Layers(ns, n, d - 1) + Terminals(ns, Level(ns, n, d - 1))
  }

  /** The breadth-first listing of the words below `n`: every level that has nodes. */
  function Bfs(ns: seq<Node>, n: nat): seq<string>
    requires n < |ns|
  {
    Layers(ns, n, |ns| - n)
  }

  /** In a linked arena a slot's entry is the child of the walk, and lies after its parent. */
  lemma EntryChild(ns: seq<Node>, n: nat, k: nat)
    requires Linked(ns) && Entry(ns, n, k).Some?
    ensures n < |ns| && k < Width && Child(ns, n, k) == Entry(ns, n, k)
    ensures n < Entry(ns, n, k).value < |ns|
  {
  }

  /** A child listed by ChildrenUpTo sits in one of the slots before `k`. */
  lemma {:induction false} ChildSlot(ns: seq<Node>, n: nat, k: nat, y: nat) returns (slot: nat)
    requires y in ChildrenUpTo(ns, n, k)
    ensures slot < k && Entry(ns, n, slot) == Some(y)
  {
    if y in ChildrenUpTo(ns, n, k - 1) {
      slot := ChildSlot(ns, n, k - 1, y);
    } else {
      slot := k - 1;
    }
  }

  /** The child in a slot before `k` is listed by ChildrenUpTo. */
  lemma {:induction false} SlotChild(ns: seq<Node>, n: nat, k: nat, slot: nat)
    requires slot < k && Entry(ns, n, slot).Some?
    ensures Entry(ns, n, slot).value in ChildrenUpTo(ns, n, k)
  {
    if slot < k - 1 {
      SlotChild(ns, n, k - 1, slot);
    }
  }

  /** A node of Kids(xs) is a child of a node of `xs`. */
  lemma {:induction false} KidsParent(ns: seq<Node>, xs: seq<nat>, y: nat) returns (i: nat, slot: nat)
    requires y in Kids(ns, xs)
    ensures i < |xs| && slot < Width && Entry(ns, xs[i], slot) == Some(y)
    decreases |xs|
  {
    var xs' := xs[..|xs| - 1];
    if y in Kids(ns, xs') {
      i, slot := KidsParent(ns, xs', y);
      assert xs[i] == xs'[i];
    } else {
      i := |xs| - 1;
      slot := ChildSlot(ns, xs[i], Width, y);
    }
  }

  /** Every child of a node of `xs` is a node of Kids(xs). */
  lemma {:induction false} ParentKids(ns: seq<Node>, xs: seq<nat>, i: nat, slot: nat)
    requires i < |xs| && slot < Width && Entry(ns, xs[i], slot).Some?
    ensures Entry(ns, xs[i], slot).value in Kids(ns, xs)
    decreases |xs|
  {
    var xs' := xs[..|xs| - 1];
    if i < |xs'| {
      assert xs'[i] == xs[i];
      ParentKids(ns, xs', i, slot);
    } else {
      SlotChild(ns, xs[i], Width, slot);
    }
  }

  /** A node `d` levels below `n` is the child of a node one level up. */
  lemma LevelParent(ns: seq<Node>, n: nat, d: nat, y: nat) returns (x: nat, slot: nat)
    requires d > 0 && y in Level(ns, n, d)
    ensures x in Level(ns, n, d - 1) && slot < Width && Entry(ns, x, slot) == Some(y)
  {
    var xs := Level(ns, n, d - 1);
    var i;
    i, slot := KidsParent(ns, xs, y);
    x := xs[i];
  }

  /** The child of a node `d` levels below `n` is a node one level down. */
  lemma LevelChild(ns: seq<Node>, n: nat, d: nat, x: nat, slot: nat)
    requires x in Level(ns, n, d) && slot < Width && Entry(ns, x, slot).Some?
    ensures Entry(ns, x, slot).value in Level(ns, n, d + 1)
  {
    var xs := Level(ns, n, d);
    var i := Position(xs, x);
    ParentKids(ns, xs, i, slot);
  }

  /** Every node `d` levels below `n` is a node of the arena at least `d` indices after `n`. */
  lemma {:induction false} LevelAbove(ns: seq<Node>, n: nat, d: nat, y: nat)
    requires Linked(ns) && n < |ns| && y in Level(ns, n, d)
    ensures n + d <= y < |ns|
  {
    if d > 0 {
      var x, slot := LevelParent(ns, n, d, y);
      LevelAbove(ns, n, d - 1, x);
      EntryChild(ns, x, slot);
    }
  }

  /** A level with no nodes is followed by none. */
  lemma {:induction false} LevelEmpty(ns: seq<Node>, n: nat, d: nat, e: nat)
    requires d <= e && Level(ns, n, d) == []
    ensures Level(ns, n, e) == []
    decreases e - d
  {
    if d < e {
      LevelEmpty(ns, n, d + 1, e);
    }
  }

  /** Levels after the last node add no words. */
  lemma {:induction false} LayersDone(ns: seq<Node>, n: nat, d: nat, e: nat)
    requires d <= e && Level(ns, n, d) == []
    ensures Layers(ns, n, e) == Layers(ns, n, d)
    decreases e - d
  {
    if d < e {
      LayersDone(ns, n, d, e - 1);
      LevelEmpty(ns, n, d, e - 1);
    }
  }

  /** A node `d` levels below `n` is walked to by a string of length `d`. */
  lemma {:induction false} LevelWalk(ns: seq<Node>, n: nat, d: nat, y: nat) returns (s: string)
    requires Linked(ns) && n < |ns| && y in Level(ns, n, d)
    ensures |s| == d && Walk(ns, n, s) == Some(y)
  {
    if d == 0 {
      s := [];
    } else {
      var x, slot := LevelParent(ns, n, d, y);
      var q := LevelWalk(ns, n, d - 1, x);
      EntryChild(ns, x, slot);
      s := q + [Letter(slot)];
      WalkSnoc(ns, n, q, Letter(slot));
      SlotLetter(Letter(slot), slot);
    }
  }

  /** The node a string of length `d` walks to from `n` is `d` levels below it. */
  lemma {:induction false} WalkLevel(ns: seq<Node>, n: nat, s: string)
    requires Linked(ns) && n < |ns| && Walk(ns, n, s).Some?
    ensures Walk(ns, n, s).value in Level(ns, n, |s|)
    decreases |s|
  {
    if s != [] {
      var q, c := s[..|s| - 1], s[|s| - 1];
      WalkLevel(ns, n, q);
      var x := Walk(ns, n, q).value;
      assert Walk(ns, n, s) == Child(ns, x, Slot(c));
      assert Child(ns, x, Slot(c)) == Entry(ns, x, Slot(c));
      LevelChild(ns, n, |q|, x, Slot(c));
    }
  }

  /** A word Terminals collects is the word of a terminal node of `xs`. */
  lemma {:induction false} TerminalsNode(ns: seq<Node>, xs: seq<nat>, w: string) returns (i: nat)
    requires w in Terminals(ns, xs)
    ensures i < |xs| && xs[i] < |ns| && ns[xs[i]].terminal && ns[xs[i]].word == w
    decreases |xs|
  {
    var xs' := xs[..|xs| - 1];
    if w in Terminals(ns, xs') {
      i := TerminalsNode(ns, xs', w);
      assert xs[i] == xs'[i];
    } else {
      i := |xs| - 1;
    }
  }

  /** The word of a terminal node of `xs` is collected by Terminals. */
  lemma {:induction false} NodeTerminals(ns: seq<Node>, xs: seq<nat>, i: nat) returns (k: nat)
    requires i < |xs| && xs[i] < |ns| && ns[xs[i]].terminal
    ensures k < |Terminals(ns, xs)| && Terminals(ns, xs)[k] == ns[xs[i]].word
    decreases |xs|
  {
    var xs' := xs[..|xs| - 1];
    if i < |xs'| {
      assert xs'[i] == xs[i];
      k := NodeTerminals(ns, xs', i);
    } else {
      k := |Terminals(ns, xs')|;
    }
  }

  /**
   * A terminal node `e` levels below the node of `prefix` holds a word of
   * the trie that extends `prefix` by `e` letters.
   */
  lemma LevelWord(ns: seq<Node>, labels: seq<string>, prefix: string, node: nat, e: nat, y: nat)
    requires WellFormed(ns, labels) && Walk(ns, 0, prefix) == Some(node)
    requires y in Level(ns, node, e) && y < |ns| && ns[y].terminal
    ensures |ns[y].word| == |prefix| + e && ns[y].word[..|prefix|] == prefix && Stored(ns, ns[y].word)
  {
    var s := LevelWalk(ns, node, e, y);
    WalkConcat(ns, 0, prefix, s);
    WalkLabel(ns, labels, prefix + s);
    assert (prefix + s)[..|prefix|] == prefix;
  }

  /** The strings of `r` have lengths in [lo, hi), shorter ones first. */
  ghost predicate LengthOrdered(r: seq<string>, lo: nat, hi: nat) {
    && (forall i :: 0 <= i < |r| ==> lo <= |r[i]| < hi)
    && (forall i, j :: 0 <= i < j < |r| ==> |r[i]| <= |r[j]|)
  }

  lemma LengthOrderedSnoc(a: seq<string>, b: seq<string>, lo: nat, len: nat)
    requires LengthOrdered(a, lo, len) && lo <= len
    requires forall i :: 0 <= i < |b| ==> |b[i]| == len
    ensures LengthOrdered(a + b, lo, len + 1)
  {
  }

  /** The words of the terminal nodes `e` levels below `node` all have length `lo + e`. */
  ghost predicate LevelLengths(ns: seq<Node>, node: nat, lo: nat, e: nat) {
    var b := Terminals(ns, Level(ns, node, e));
    forall i :: 0 <= i < |b| ==> |b[i]| == lo + e
  }

  /** Levels of uniform, growing word length make the listing ordered by length. */
  lemma {:induction false} LayersOrdered(ns: seq<Node>, node: nat, lo: nat, d: nat)
    requires forall e: nat :: e < d ==> LevelLengths(ns, node, lo, e)
    ensures LengthOrdered(Layers(ns, node, d), lo, lo + d)
  {
    if d > 0 {
      LayersOrdered(ns, node, lo, d - 1);
      assert LevelLengths(ns, node, lo, d - 1);
      LengthOrderedSnoc(Layers(ns, node, d - 1), Terminals(ns, Level(ns, node, d - 1)), lo, lo + (d - 1));
    }
  }

  /** Every word of the first `d` levels comes from one of those levels. */
  lemma {:induction false} LayersLevel(ns: seq<Node>, n: nat, d: nat, i: nat) returns (e: nat, k: nat)
    requires i < |Layers(ns, n, d)|
    ensures e < d && k < |Terminals(ns, Level(ns, n, e))|
    ensures Terminals(ns, Level(ns, n, e))[k] == Layers(ns, n, d)[i]
  {
    var a := Layers(ns, n, d - 1);
    if i < |a| {
      e, k := LayersLevel(ns, n, d - 1, i);
    } else {
      e, k := d - 1, i - |a|;
    }
  }

  /** A deeper listing extends a shallower one. */
  lemma {:induction false} LayersGrow(ns: seq<Node>, n: nat, d: nat, d': nat, i: nat)
    requires d <= d' && i < |Layers(ns, n, d)|
    ensures i < |Layers(ns, n, d')| && Layers(ns, n, d')[i] == Layers(ns, n, d)[i]
    decreases d' - d
  {
    if d < d' {
      LayersGrow(ns, n, d, d' - 1, i);
    }
  }

  /** A word of a level is among the words of every deeper listing. */
  lemma LayersHas(ns: seq<Node>, n: nat, e: nat, d: nat, k: nat) returns (i: nat)
    requires e < d && k < |Terminals(ns, Level(ns, n, e))|
    ensures i < |Layers(ns, n, d)| && Layers(ns, n, d)[i] == Terminals(ns, Level(ns, n, e))[k]
  {
    i := |Layers(ns, n, e)| + k;
    LayersGrow(ns, n, e + 1, d, i);
  }

  /** The words of the terminal nodes `e` levels below the node of `prefix` extend it by `e` letters. */
  lemma LevelWords(ns: seq<Node>, labels: seq<string>, prefix: string, node: nat, e: nat)
    requires WellFormed(ns, labels) && Walk(ns, 0, prefix) == Some(node)
    ensures LevelLengths(ns, node, |prefix|, e)
  {
    var level := Level(ns, node, e);
    var b := Terminals(ns, level);
    forall i | 0 <= i < |b|
      ensures |b[i]| == |prefix| + e
    {
      var k := TerminalsNode(ns, level, b[i]);
      LevelWord(ns, labels, prefix, node, e, level[k]);
    }
  }

  /** A word of the breadth-first listing is the word of a terminal node on one of its levels. */
  lemma BfsNode(ns: seq<Node>, node: nat, w: string) returns (e: nat, y: nat)
    requires node < |ns| && w in Bfs(ns, node)
    ensures y in Level(ns, node, e) && y < |ns| && ns[y].terminal && ns[y].word == w
  {
    var i := Position(Bfs(ns, node), w);
    var k;
    e, k := LayersLevel(ns, node, |ns| - node, i);
    var level := Level(ns, node, e);
    var x := TerminalsNode(ns, level, w);
    y := level[x];
  }

  /** The word of a terminal node on a level below `node` is in the breadth-first listing. */
  lemma LevelBfs(ns: seq<Node>, node: nat, e: nat, y: nat)
    requires node + e < |ns| && y in Level(ns, node, e) && y < |ns| && ns[y].terminal
    ensures ns[y].word in Bfs(ns, node)
  {
    var level := Level(ns, node, e);
    var x := Position(level, y);
    var k := NodeTerminals(ns, level, x);
    var i := LayersHas(ns, node, e, |ns| - node, k);
    assert Bfs(ns, node)[i] == ns[y].word;
  }

  /** Every word wordByPrefix lists is a word of the trie that starts with `prefix`. */
  lemma BfsSound(ns: seq<Node>, labels: seq<string>, prefix: string, w: string)
    requires WellFormed(ns, labels) && Walk(ns, 0, prefix).Some?
    requires w in Bfs(ns, Walk(ns, 0, prefix).value)
    ensures Stored(ns, w) && |prefix| <= |w| && w[..|prefix|] == prefix
  {
    var node := Walk(ns, 0, prefix).value;
    var e, y := BfsNode(ns, node, w);
    LevelWord(ns, labels, prefix, node, e, y);
  }

  /** Every word of the trie that starts with `prefix` is listed by wordByPrefix. */
  lemma BfsComplete(ns: seq<Node>, labels: seq<string>, prefix: string, w: string)
    requires WellFormed(ns, labels) && Walk(ns, 0, prefix).Some?
    requires Stored(ns, w) && |prefix| <= |w| && w[..|prefix|] == prefix
    ensures w in Bfs(ns, Walk(ns, 0, prefix).value)
  {
    var node := Walk(ns, 0, prefix).value;
    var s := w[|prefix|..];
    assert prefix + s == w;
    WalkConcat(ns, 0, prefix, s);
    var y := Walk(ns, node, s).value;
    WalkLevel(ns, node, s);
    WalkLabel(ns, labels, w);
    LevelAbove(ns, node, |s|, y);
    LevelBfs(ns, node, |s|, y);
  }

  /**
   * wordByPrefix lists shorter words before longer ones, and lists
   * `prefix` first exactly when it is a word of the trie.
   */
  lemma BfsOrdered(ns: seq<Node>, labels: seq<string>, prefix: string)
    requires WellFormed(ns, labels) && Walk(ns, 0, prefix).Some?
    ensures var r := Bfs(ns, Walk(ns, 0, prefix).value);
      && (forall i, j :: 0 <= i < j < |r| ==> |r[i]| <= |r[j]|)
      && (|r| > 0 && r[0] == prefix <==> Stored(ns, prefix))
  {
    var node := Walk(ns, 0, prefix).value;
    var r := Bfs(ns, node);
    forall e: nat | e < |ns| - node
      ensures LevelLengths(ns, node, |prefix|, e)
    {
      LevelWords(ns, labels, prefix, node, e);
    }
    LayersOrdered(ns, node, |prefix|, |ns| - node);
    if |r| > 0 && r[0] == prefix {
      BfsSound(ns, labels, prefix, r[0]);
    }
    if Stored(ns, prefix) {
      assert prefix[..|prefix|] == prefix;
      BfsComplete(ns, labels, prefix, prefix);
      var i := Position(r, prefix);
      BfsSound(ns, labels, prefix, r[0]);
      assert |r[0]| == |prefix|;
    }
  }

  // === The work queue ===

  /**
   * The state of the breadth-first loop (trie.java:64-78) below `node`:
   * `j` nodes of level `d` were taken from the queue, which holds the rest
   * of the level and then the children of those taken; `words` holds the
   * words of the levels before and of the nodes taken.
   */
  ghost predicate Queue(ns: seq<Node>, node: nat, d: nat, j: nat, dq: seq<nat>, words: seq<string>) {
    var level := Level(ns, node, d);
    && node + d < |ns| && j <= |level|
    && dq == level[j..] + Kids(ns, level[..j])
    && words == Layers(ns, node, d) + Terminals(ns, level[..j])
  }

  /** Taking the next node of the level and queueing its children keeps the state. */
  lemma QueueTake(ns: seq<Node>, node: nat, d: nat, j: nat, dq: seq<nat>, words: seq<string>)
    requires Linked(ns) && node < |ns| && Queue(ns, node, d, j, dq, words) && j < |Level(ns, node, d)|
    ensures dq != [] && dq[0] == Level(ns, node, d)[j] && dq[0] < |ns|
    ensures var x := dq[0];
      Queue(ns, node, d, j + 1, dq[1..] + Children(ns, x), words + (if ns[x].terminal then [ns[x].word] else []))
  {
    var level := Level(ns, node, d);
    LevelAbove(ns, node, d, level[j]);
    SliceSnoc(level, j);
    assert level[j..][0] == level[j];
    assert level[j..][1..] == level[j + 1..];
    assert (level[..j] + [level[j]])[..j] == level[..j];
  }

  /** Once the level is done, the queue holds the next level. */
  lemma QueueNext(ns: seq<Node>, node: nat, d: nat, j: nat, dq: seq<nat>, words: seq<string>)
    requires Linked(ns) && node < |ns| && Queue(ns, node, d, j, dq, words)
    requires j == |Level(ns, node, d)| && dq != []
    ensures Queue(ns, node, d + 1, 0, dq, words)
  {
    var level := Level(ns, node, d);
    SliceAll(level);
    assert level[j..] == [];
    LevelAbove(ns, node, d + 1, dq[0]);
  }

  /** An empty queue means the listing is complete. */
  lemma QueueDone(ns: seq<Node>, node: nat, d: nat, j: nat, dq: seq<nat>, words: seq<string>)
    requires node < |ns| && Queue(ns, node, d, j, dq, words) && dq == []
    ensures words == Bfs(ns, node)
  {
    var level := Level(ns, node, d);
    assert j == |level|;
    SliceAll(level);
    assert Level(ns, node, d + 1) == [];
    LayersDone(ns, node, d + 1, |ns| - node);
  }

  /** The for loop of wordByPrefix (trie.java:73-77): queue the children of `first` in slot order. */
  method PushChildren(ns: seq<Node>, first: nat, dq: seq<nat>) returns (dq': seq<nat>)
    requires Linked(ns) && first < |ns|
    ensures dq' == dq + Children(ns, first)
  {
    dq' := dq;
    for k := 0 to Width
      invariant dq' == dq + ChildrenUpTo(ns, first, k)
    {
      if ns[first].children[k].Some? {
        dq' := dq' + [ns[first].children[k].value];
      }
    }
  }

  /**
   * The walk of wordByPrefix down `prefix` (trie.java:47-61): the node it
   * leads to, or None where a slot on the way is empty.
   */
  method WalkPrefix(ns: seq<Node>, prefix: string) returns (r: Option<nat>)
    requires Linked(ns) && |ns| > 0 && ValidWord(prefix)
    ensures r == Walk(ns, 0, prefix)
  {
    var node: nat := 0;
    var index: nat := 0;
    while true
      invariant index < |prefix| && node < |ns| && Walk(ns, 0, prefix[..index]) == Some(node)
      decreases |prefix| - index
    {
      var tnode := ns[node].children[Slot(prefix[index])];
      SliceSnoc(prefix, index);
      WalkSnoc(ns, 0, prefix[..index], prefix[index]);
      if tnode.None? {
        WalkPrefixNone(ns, 0, prefix, index + 1);
        return None;
      }
      index := index + 1;
      node := tnode.value;
      if index >= |prefix| {
        SliceAll(prefix);
        return Some(node);
      }
    }
  }

  /**
   * wordByPrefix (trie.java:46-80): `null` when the path of `prefix` is
   * missing, and otherwise the words of the terminal nodes below it in
   * breadth-first order, the children of a node in slot order. The trie
   * is only read.
   */
  method ListByPrefix(ns: seq<Node>, prefix: string) returns (r: Option<seq<string>>)
    requires Linked(ns) && |ns| > 0 && ValidWord(prefix)
    ensures r.None? <==> Walk(ns, 0, prefix).None?
    ensures r.Some? ==> r.value == Bfs(ns, Walk(ns, 0, prefix).value)
  {
    var start := WalkPrefix(ns, prefix);
    if start.None? {
      return None;
    }
    var node := start.value;
    var words: seq<string> := [];
    var dq: seq<nat> := [node];
    ghost var d, j := 0, 0;
    assert Queue(ns, node, d, j, dq, words);
    while dq != []
      invariant Queue(ns, node, d, j, dq, words)
      decreases |ns| - node - d, |Level(ns, node, d)| - j
    {
      if j == |Level(ns, node, d)| {
        QueueNext(ns, node, d, j, dq, words);
        d, j := d + 1, 0;
      }
      QueueTake(ns, node, d, j, dq, words);
      var first := dq[0];
      dq := dq[1..];
      if ns[first].terminal {
        words := words + [ns[first].word];
      }
      dq := PushChildren(ns, first, dq);
      j := j + 1;
    }
    QueueDone(ns, node, d, j, dq, words);
    r := Some(words);
  }

  /** class trie (trie.java:8-81): the arena of its trieNode objects, root first. */
  class Trie {
    var nodes: seq<Node>
    ghost var labels: seq<string>

    ghost predicate Valid()
      reads this
    {
      WellFormed(nodes, labels)
    }

    /** The constructor (trie.java:11-13): a lone root with letter ' ', so no words. */
    constructor()
      ensures Valid() && nodes == [NewNode(' ')]
      ensures forall p :: !Stored(nodes, p)
    {
      nodes := [NewNode(' ')];
      labels := [[]];
    }

    /** isWord (trie.java:15-44) on this trie. */
    method IsWord(w: string)
      requires Valid() && ValidWord(w)
      modifies this
      ensures Valid() && Grown(old(nodes), nodes)
      ensures forall p :: Stored(nodes, p) <==> Stored(old(nodes), p) || p == w
      ensures Walk(nodes, 0, w).Some? && nodes[Walk(nodes, 0, w).value].word == w
      ensures Walk(old(nodes), 0, w).Some? ==>
        var n := Walk(old(nodes), 0, w).value; nodes == old(nodes)[n := Mark(old(nodes)[n], w)]
      ensures forall p :: Walk(nodes, 0, p).Some? <==> Walk(old(nodes), 0, p).Some? || p <= w
    {
      nodes, labels := AddWord(nodes, labels, w);
    }

    /** wordByPrefix (trie.java:46-80) on this trie, which it only reads. */
    method WordByPrefix(prefix: string) returns (r: Option<seq<string>>)
      requires Valid() && ValidWord(prefix)
      ensures r.None? <==> Walk(nodes, 0, prefix).None?
      ensures r.Some? ==> r.value == Bfs(nodes, Walk(nodes, 0, prefix).value)
    {
      r := ListByPrefix(nodes, prefix);
    }
  }
}
