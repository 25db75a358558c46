/**
 * The character trie of trie.js: class Trie, its constructor (bulk
 * insertion) and findWithPrefix (bounded pre-order prefix search).
 *
 * The Trie objects of one trie live in an arena: the class below holds the
 * node values in a sequence, and a reference to a Trie object is its index
 * there. The root is index 0, and a node created by the constructor is
 * appended, so every child has a larger index than its parent.
 */
module JsTrie {
  import opened Options
  import opened Sequences

  /**
   * One Trie object: its `isWord` flag and its `children` object, which maps
   * a symbol to the index of the child. `order` lists the symbols in the
   * order their properties were created.
   */
  datatype Node = Node(isWord: bool, children: map<char, nat>, order: seq<char>)

  /** `new Trie()`: no word, no children. */
  const Empty := Node(false, map[], [])

  // === Sequences ===

  /** The first `k` items of `xs`; none when `k` is not positive. */
  function Take<T>(xs: seq<T>, k: int): (r: seq<T>)
    ensures |r| == (if k <= 0 then 0 else if k < |xs| then k else |xs|)
  {
    if k <= 0 then [] else if k < |xs| then xs[..k] else xs
  }

  /**
   * JavaScript `xs.slice(0, end)`: a negative `end` counts back from the end
   * of `xs`.
   */
  function SliceTo<T>(xs: seq<T>, end: int): (r: seq<T>)
    ensures |r| == (if end < 0 then (if |xs| + end < 0 then 0 else |xs| + end)
                    else if end < |xs| then end else |xs|)
    ensures r == xs[..|r|]
  {
    if end < 0 then (if |xs| + end < 0 then [] else xs[..|xs| + end])
    else if end < |xs| then xs[..end] else xs
  }

  /** Every string of `xs` with `p` put in front. */
  function Prepend(p: string, xs: seq<string>): (ys: seq<string>)
    ensures |ys| == |xs|
  {
    seq(|xs|, i requires 0 <= i < |xs| => p + xs[i])
  }

  lemma AppendAssoc<T>(a: seq<T>, b: seq<T>, c: seq<T>)
    ensures (a + b) + c == a + (b + c)
  {
  }

  /** Taking the first `k` of a concatenation takes from the front part first. */
  lemma TakeAppend<T>(xs: seq<T>, ys: seq<T>, k: int)
    ensures Take(xs + ys, k) == Take(xs, k) + Take(ys, k - |Take(xs, k)|)
  {
    if k > |xs| {
      assert Take(xs + ys, k) == xs + Take(ys, k - |xs|);
    }
  }

  lemma PrependTake(p: string, xs: seq<string>, k: int)
    ensures Prepend(p, Take(xs, k)) == Take(Prepend(p, xs), k)
  {
  }

  lemma PrependAppend(p: string, xs: seq<string>, ys: seq<string>)
    ensures Prepend(p, xs + ys) == Prepend(p, xs) + Prepend(p, ys)
  {
    assert forall i :: 0 <= i < |xs| + |ys| ==> Prepend(p, xs + ys)[i] == (Prepend(p, xs) + Prepend(p, ys))[i];
  }

  lemma PrependPrepend(p: string, q: string, xs: seq<string>)
    ensures Prepend(p, Prepend(q, xs)) == Prepend(p + q, xs)
  {
    assert forall i :: 0 <= i < |xs| ==> p + (q + xs[i]) == (p + q) + xs[i];
  }

  // === Object.keys ===

  predicate IsDigit(c: char) {
    '0' <= c <= '9'
  }

  /** The symbols of `cs` that are keys of `m`, in the order of `cs`. */
  function Present(cs: seq<char>, m: map<char, nat>): (r: seq<char>)
    ensures forall c :: c in r <==> c in cs && c in m
  {
    if cs == [] then [] else (if cs[0] in m then [cs[0]] else []) + Present(cs[1..], m)
  }

  /** The symbols of `cs` that are not digits, in the order of `cs`. */
  function NonDigits(cs: seq<char>): (r: seq<char>)
    ensures forall c :: c in r <==> c in cs && !IsDigit(c)
  {
    if cs == [] then [] else (if IsDigit(cs[0]) then [] else [cs[0]]) + NonDigits(cs[1..])
  }

  /** The keys of `children` are those listed in `order`, each once. */
  ghost predicate KeysListed(nd: Node) {
    && (forall c :: c in nd.order <==> c in nd.children)
    && (forall i, j :: 0 <= i < j < |nd.order| ==> nd.order[i] != nd.order[j])
  }

  /**
   * `Object.keys(children)`. A one-symbol key that is a digit is an array
   * index, and those come first in ascending order; the other keys follow in
   * the order their properties were created.
   */
  function ObjectKeys(nd: Node): (keys: seq<char>)
    requires KeysListed(nd)
    ensures forall c :: c in keys <==> c in nd.children
  {
    Present("0123456789", nd.children) + NonDigits(nd.order)
  }

  /** Symbols of `cs` kept by Present stay in ascending order when `cs` is. */
  lemma {:induction false} PresentAscending(cs: seq<char>, m: map<char, nat>)
    requires forall i, j :: 0 <= i < j < |cs| ==> cs[i] < cs[j]
    ensures forall i, j :: 0 <= i < j < |Present(cs, m)| ==> Present(cs, m)[i] < Present(cs, m)[j]
  {
    if cs != [] {
      PresentAscending(cs[1..], m);
      var r := Present(cs, m);
      var rest := Present(cs[1..], m);
      forall i, j | 0 <= i < j < |r|
        ensures r[i] < r[j]
      {
        if cs[0] in m && i == 0 {
          assert r[j] in rest;
          assert r[j] in cs[1..];
        }
      }
    }
  }

  /** Object.keys lists the digit keys first, in ascending order. */
  lemma ObjectKeysOrder(nd: Node)
    requires KeysListed(nd)
    ensures var keys := ObjectKeys(nd);
      forall i, j :: 0 <= i < j < |keys| && IsDigit(keys[j]) ==> IsDigit(keys[i]) && keys[i] < keys[j]
  {
    PresentAscending("0123456789", nd.children);
    DigitsOnly(nd.children);
    DigitsFirst(Present("0123456789", nd.children), NonDigits(nd.order));
  }

  /** The ten digits are the digit symbols. */
  lemma DigitsOnly(m: map<char, nat>)
    ensures forall c :: c in Present("0123456789", m) ==> IsDigit(c)
  {
    var ds := "0123456789";
    assert forall k :: 0 <= k < |ds| ==> IsDigit(ds[k]);
  }

  /** Ascending digits followed by non-digits put every digit first, in order. */
  lemma DigitsFirst(digits: seq<char>, others: seq<char>)
    requires forall c :: c in digits ==> IsDigit(c)
    requires forall i, j :: 0 <= i < j < |digits| ==> digits[i] < digits[j]
    requires forall c :: c in others ==> !IsDigit(c)
    ensures var keys := digits + others;
      forall i, j :: 0 <= i < j < |keys| && IsDigit(keys[j]) ==> IsDigit(keys[i]) && keys[i] < keys[j]
  {
    var keys := digits + others;
    assert forall k :: |digits| <= k < |keys| ==> keys[k] == others[k - |digits|];
    forall i, j | 0 <= i < j < |keys| && IsDigit(keys[j])
      ensures IsDigit(keys[i]) && keys[i] < keys[j]
    {
      assert keys[i] in digits;
    }
  }

  // === The arena ===

  /** Every edge leads from a node to a later node of the arena. */
  ghost predicate Linked(ns: seq<Node>) {
    forall n, c {:trigger ns[n].children[c]} :: 0 <= n < |ns| && c in ns[n].children ==> n < ns[n].children[c] < |ns|
  }

  ghost predicate AllKeysListed(ns: seq<Node>) {
    forall n :: 0 <= n < |ns| ==> KeysListed(ns[n])
  }

  /** The arena forms a forest whose every node lists its keys. */
  ghost predicate Tree(ns: seq<Node>) {
    Linked(ns) && AllKeysListed(ns)
  }

  /**
   * A trie as the constructor leaves it: a root at index 0, edges that lead
   * forward, and for each node the `label` it is reached by from the root.
   */
  ghost predicate WellFormed(ns: seq<Node>, labels: seq<string>) {
    && |ns| > 0 && |labels| == |ns| && labels[0] == []
    && Tree(ns)
    && EdgesLabelled(ns, labels)
    && Reached(ns, labels)
  }

  /** The label of a child is its parent's label followed by the edge's symbol. */
  ghost predicate EdgesLabelled(ns: seq<Node>, labels: seq<string>)
    requires |labels| == |ns|
  {
    forall n, c {:trigger ns[n].children[c]} :: 0 <= n < |ns| && c in ns[n].children && ns[n].children[c] < |ns| ==>
      labels[ns[n].children[c]] == labels[n] + [c]
  }

  /** Every node is where walking its label from the root ends. */
  ghost predicate Reached(ns: seq<Node>, labels: seq<string>)
    requires Linked(ns) && |ns| > 0 && |labels| == |ns|
  {
    forall m :: 0 <= m < |ns| ==> Walk(ns, 0, labels[m]) == Some(m)
  }

  /**
   * The node reached from `n` by following the symbols of `p`, or None as
   * soon as a symbol has no child.
   */
  function Walk(ns: seq<Node>, n: nat, p: string): (r: Option<nat>)
    requires Linked(ns) && n < |ns|
    ensures r.Some? ==> n <= r.value < |ns|
    ensures r.Some? && p != [] ==> n < r.value
    decreases |p|
  {
    if p == [] then Some(n)
    else match Walk(ns, n, p[..|p| - 1])
      case None => None
      case Some(m) =>
        var c := p[|p| - 1];
        if c in ns[m].children then Some(ns[m].children[c]) else None
  }

  /** `p` is a word of the trie: walking it from the root ends at a node marked isWord. */
  ghost predicate Stored(ns: seq<Node>, p: string)
    requires Linked(ns) && |ns| > 0
  {
    var r := Walk(ns, 0, p);
    r.Some? && ns[r.value].isWord
  }

  /**
   * The pre-order listing of the words below `n`, as suffixes: the node's
   * own word (the empty suffix) first, then each child's listing in
   * Object.keys order, behind the child's symbol.
   */
  function Listing(ns: seq<Node>, n: nat): seq<string>
    requires Tree(ns) && n < |ns|
    decreases |ns| - n, 1
  {
    (if ns[n].isWord then [""] else []) + Subtrees(ns, n, ObjectKeys(ns[n]))
  }

  /** The listings of the children of `n` for the symbols `ks`, in that order. */
  function Subtrees(ns: seq<Node>, n: nat, ks: seq<char>): seq<string>
    requires Tree(ns) && n < |ns|
    requires forall c :: c in ks ==> c in ns[n].children
    decreases |ns| - n, 0, |ks|
  {
    if ks == [] then []
    else
      var c := ks[|ks| - 1];
      Subtrees(ns, n, ks[..|ks| - 1]) + Prepend([c], Listing(ns, ns[n].children[c]))
  }

  /** The full words below the node `prefix` leads to from `n`, in pre-order. */
  function Matches(ns: seq<Node>, n: nat, prefix: string): seq<string>
    requires Tree(ns) && n < |ns|
  {
    match Walk(ns, n, prefix)
    case None => []
    case Some(m) => Prepend(prefix, Listing(ns, m))
  }

  // === Properties of the listing ===

  /** Walking `p` and then `s` is walking `p + s`. */
  lemma {:induction false} WalkConcat(ns: seq<Node>, n: nat, p: string, s: string)
    requires Linked(ns) && n < |ns|
    ensures Walk(ns, n, p + s) == match Walk(ns, n, p) case None => None case Some(m) => Walk(ns, m, s)
    decreases |s|
  {
    if s == [] {
      assert p + s == p;
    } else {
      var s' := s[..|s| - 1];
      assert (p + s)[..|p + s| - 1] == p + s';
      assert (p + s)[|p + s| - 1] == s[|s| - 1];
      WalkConcat(ns, n, p, s');
    }
  }

  /** Walking one symbol from `n` reaches its child for that symbol, if any. */
  lemma WalkOne(ns: seq<Node>, n: nat, c: char)
    requires Linked(ns) && n < |ns|
    ensures Walk(ns, n, [c]) == if c in ns[n].children then Some(ns[n].children[c]) else None
  {
    assert [c][..0] == [];
  }

  /** Every suffix the listing of `n` holds leads from `n` to a word. */
  lemma {:induction false} ListingSound(ns: seq<Node>, n: nat, i: nat)
    requires Tree(ns) && n < |ns| && i < |Listing(ns, n)|
    ensures var r := Walk(ns, n, Listing(ns, n)[i]); r.Some? && ns[r.value].isWord
    decreases |ns| - n, 1
  {
    var own: seq<string> := if ns[n].isWord then [""] else [];
    if i >= |own| {
      SubtreesSound(ns, n, ObjectKeys(ns[n]), i - |own|);
    }
  }

  lemma {:induction false} SubtreesSound(ns: seq<Node>, n: nat, ks: seq<char>, i: nat)
    requires Tree(ns) && n < |ns|
    requires forall c :: c in ks ==> c in ns[n].children
    requires i < |Subtrees(ns, n, ks)|
    ensures var r := Walk(ns, n, Subtrees(ns, n, ks)[i]); r.Some? && ns[r.value].isWord
    decreases |ns| - n, 0, |ks|
  {
    var init := Subtrees(ns, n, ks[..|ks| - 1]);
    if i < |init| {
      SubtreesSound(ns, n, ks[..|ks| - 1], i);
    } else {
      var c := ks[|ks| - 1];
      var child := ns[n].children[c];
      var j := i - |init|;
      ListingSound(ns, child, j);
      WalkConcat(ns, n, [c], Listing(ns, child)[j]);
      WalkOne(ns, n, c);
    }
  }

  /** The listing of the children for `ks` holds those of every child in `ks`. */
  lemma {:induction false} InSubtrees(ns: seq<Node>, n: nat, ks: seq<char>, c: char, s: string)
    requires Tree(ns) && n < |ns|
    requires forall c :: c in ks ==> c in ns[n].children
    requires c in ks && s in Listing(ns, ns[n].children[c])
    ensures [c] + s in Subtrees(ns, n, ks)
    decreases |ks|
  {
    var last := ks[|ks| - 1];
    if c == last {
      var l := Listing(ns, ns[n].children[c]);
      var k :| 0 <= k < |l| && l[k] == s;
      assert Prepend([c], l)[k] == [c] + s;
    } else {
      assert c in ks[..|ks| - 1];
      InSubtrees(ns, n, ks[..|ks| - 1], c, s);
    }
  }

  /** Every suffix that leads from `n` to a word is in the listing of `n`. */
  lemma {:induction false} ListingComplete(ns: seq<Node>, n: nat, s: string)
    requires Tree(ns) && n < |ns|
    requires var r := Walk(ns, n, s); r.Some? && ns[r.value].isWord
    ensures s in Listing(ns, n)
    decreases |s|
  {
    if s == [] {
      assert Listing(ns, n)[0] == s;
    } else {
      var c := s[0];
      WalkConcat(ns, n, [c], s[1..]);
      assert [c] + s[1..] == s;
      WalkOne(ns, n, c);
      var child := ns[n].children[c];
      ListingComplete(ns, child, s[1..]);
      InSubtrees(ns, n, ObjectKeys(ns[n]), c, s[1..]);
      InListing(ns, n, s);
    }
  }

  /** What the children of `n` list, the listing of `n` lists. */
  lemma InListing(ns: seq<Node>, n: nat, x: string)
    requires Tree(ns) && n < |ns|
    requires x in Subtrees(ns, n, ObjectKeys(ns[n]))
    ensures x in Listing(ns, n)
  {
    var own: seq<string> := if ns[n].isWord then [""] else [];
    var sub := Subtrees(ns, n, ObjectKeys(ns[n]));
    assert Listing(ns, n) == own + sub;
  }

  /** What the search finds are words of the trie that begin with `prefix`. */
  lemma MatchesSound(ns: seq<Node>, prefix: string, x: string)
    requires Tree(ns) && |ns| > 0
    requires x in Matches(ns, 0, prefix)
    ensures |prefix| <= |x| && x[..|prefix|] == prefix
    ensures Stored(ns, x)
  {
    var m := Walk(ns, 0, prefix).value;
    var l := Listing(ns, m);
    var i :| 0 <= i < |l| && Prepend(prefix, l)[i] == x;
    ListingSound(ns, m, i);
    WalkConcat(ns, 0, prefix, l[i]);
    assert x[..|prefix|] == prefix;
  }

  /** Every word of the trie that begins with `prefix` is found. */
  lemma MatchesComplete(ns: seq<Node>, prefix: string, x: string)
    requires Tree(ns) && |ns| > 0
    requires Stored(ns, x) && |prefix| <= |x| && x[..|prefix|] == prefix
    ensures x in Matches(ns, 0, prefix)
  {
    var s := x[|prefix|..];
    assert x == prefix + s;
    WalkConcat(ns, 0, prefix, s);
    var m := Walk(ns, 0, prefix).value;
    ListingComplete(ns, m, s);
    var l := Listing(ns, m);
    var i :| 0 <= i < |l| && l[i] == s;
    assert Prepend(prefix, l)[i] == x;
  }

  /** A prefix that is itself a word comes first. */
  lemma StoredPrefixFirst(ns: seq<Node>, prefix: string)
    requires Tree(ns) && |ns| > 0 && Stored(ns, prefix)
    ensures |Matches(ns, 0, prefix)| > 0 && Matches(ns, 0, prefix)[0] == prefix
  {
  }

  /** A first symbol the node has no child for leads nowhere. */
  lemma MissingFirstSymbol(ns: seq<Node>, n: nat, prefix: string)
    requires Tree(ns) && n < |ns|
    requires |prefix| > 0 && prefix[0] !in ns[n].children
    ensures Matches(ns, n, prefix) == []
  {
    WalkConcat(ns, n, [prefix[0]], prefix[1..]);
    assert [prefix[0]] + prefix[1..] == prefix;
    WalkOne(ns, n, prefix[0]);
  }

  /** The listing for one more key adds that child's listing at the end. */
  lemma SubtreesSnoc(ns: seq<Node>, n: nat, keys: seq<char>, k: nat)
    requires Tree(ns) && n < |ns|
    requires forall c :: c in keys ==> c in ns[n].children
    requires k < |keys|
    ensures Subtrees(ns, n, keys[..k + 1])
      == Subtrees(ns, n, keys[..k]) + Prepend([keys[k]], Listing(ns, ns[n].children[keys[k]]))
  {
    assert keys[..k + 1][..k] == keys[..k];
  }

  /**
   * Taking the first `r` full words of a listing extended by one child's
   * words behind the symbol `c`.
   */
  lemma TakeExtended(prefix: string, c: char, init: seq<string>, l: seq<string>, r: int)
    ensures var before := Take(Prepend(prefix, init), r);
      Take(Prepend(prefix, init + Prepend([c], l)), r)
      == before + Prepend(prefix + [c], Take(l, r - |before|))
  {
    PrependAppend(prefix, init, Prepend([c], l));
    PrependPrepend(prefix, [c], l);
    TakeAppend(Prepend(prefix, init), Prepend(prefix + [c], l), r);
    PrependTake(prefix + [c], l, r - |Take(Prepend(prefix, init), r)|);
  }

  /**
   * The sequence algebra of one turn over the children: `words` holds `own`
   * and then the first words of `init` behind `prefix`; pushing the first
   * words of `l` that still fit, behind `prefix + [c]`, makes it hold the
   * first words of `init` followed by `l` behind `c`.
   */
  lemma StepAlgebra(own: seq<string>, prefix: string, c: char, init: seq<string>, l: seq<string>,
                    size: int, words: seq<string>, sub: seq<string>)
    requires words == own + Take(Prepend(prefix, init), size - |own|)
    requires sub == Take(l, size - |words|)
    ensures words + Prepend(prefix + [c], sub)
      == own + Take(Prepend(prefix, init + Prepend([c], l)), size - |own|)
  {
    var before := Take(Prepend(prefix, init), size - |own|);
    TakeExtended(prefix, c, init, l, size - |own|);
    AppendAssoc(own, before, Prepend(prefix + [c], sub));
  }

  /**
   * One turn over the children in findWithPrefix: when `words` holds the
   * node's own word, if any, and then the first words of the listing up to
   * the `k`th key, pushing what the search from the `k`th child returned
   * makes it hold those up to the `k + 1`st key.
   */
  lemma FindStep(ns: seq<Node>, n: nat, keys: seq<char>, k: nat, prefix: string, size: int,
                 own: seq<string>, words: seq<string>, words': seq<string>)
    requires Tree(ns) && n < |ns|
    requires Keys(ns, n, keys) && k < |keys|
    requires words == own + Take(Prepend(prefix, Subtrees(ns, n, keys[..k])), size - |own|)
    requires words' == words + Prepend(prefix + [keys[k]], Take(Matches(ns, ns[n].children[keys[k]], []), size - |words|))
    ensures words' == own + Take(Prepend(prefix, Subtrees(ns, n, keys[..k + 1])), size - |own|)
  {
    var child := ns[n].children[keys[k]];
    MatchesHere(ns, child);
    SubtreesSnoc(ns, n, keys, k);
    StepAlgebra(own, prefix, keys[k], Subtrees(ns, n, keys[..k]), Listing(ns, child), size, words,
                Take(Listing(ns, child), size - |words|));
  }

  /** From the node itself, the search lists the node's own words. */
  lemma MatchesHere(ns: seq<Node>, n: nat)
    requires Tree(ns) && n < |ns|
    ensures Matches(ns, n, []) == Listing(ns, n)
  {
    var l := Listing(ns, n);
    assert forall i :: 0 <= i < |l| ==> Prepend([], l)[i] == l[i];
  }

  /** The words below a node: its own word, if any, then its children's. */
  lemma ListingSplit(ns: seq<Node>, m: nat, prefix: string)
    requires Tree(ns) && m < |ns|
    ensures Prepend(prefix, Listing(ns, m))
      == (if ns[m].isWord then [prefix] else []) + Prepend(prefix, Subtrees(ns, m, ObjectKeys(ns[m])))
  {
    PrependOwn(prefix, ns[m].isWord, Subtrees(ns, m, ObjectKeys(ns[m])));
  }

  /** An own word, the empty suffix, becomes the prefix itself. */
  lemma PrependOwn(prefix: string, isWord: bool, rest: seq<string>)
    ensures Prepend(prefix, (if isWord then [""] else []) + rest)
      == (if isWord then [prefix] else []) + Prepend(prefix, rest)
  {
    var own: seq<string> := if isWord then [""] else [];
    PrependAppend(prefix, own, rest);
    if isWord {
      assert Prepend(prefix, own)[0] == prefix + [];
      assert prefix + [] == prefix;
    }
  }

  /**
   * The final `slice(0, size)` of findWithPrefix: with at most one word of
   * the node's own in front, it cuts the collected words to the first `size`
   * of the whole listing, and to none when `size` is not positive.
   */
  lemma FinalSlice(own: seq<string>, rest: seq<string>, size: int)
    requires |own| <= 1
    ensures SliceTo(own + Take(rest, size - |own|), size) == Take(own + rest, size)
  {
    TakeAppend(own, rest, size);
  }

  /**
   * The end of findWithPrefix: the node's own word, if any, followed by the
   * first words of its children's listings, cut to `size`, are the first
   * `size` matches.
   */
  lemma FinishFind(ns: seq<Node>, n: nat, prefix: string, node: nat, size: int,
                   own: seq<string>, collected: seq<string>)
    requires Tree(ns) && n < |ns|
    requires Walk(ns, n, prefix) == Some(node)
    requires own == if ns[node].isWord then [prefix] else []
    requires collected == own + Take(Prepend(prefix, Subtrees(ns, node, ObjectKeys(ns[node]))), size - |own|)
    ensures SliceTo(collected, size) == Take(Matches(ns, n, prefix), size)
  {
    var rest := Prepend(prefix, Subtrees(ns, node, ObjectKeys(ns[node])));
    ListingSplit(ns, node, prefix);
    FinalSlice(own, rest, size);
  }

  /**
   * The inner loop of findWithPrefix (trie.js:53-59): each suffix a child
   * returned is pushed behind `head` while fewer than `size` words are
   * collected. A child never returns more than fit, so all of them are.
   */
  method PushSuffixes(words: seq<string>, count: int, head: string, sub: seq<string>, size: int)
    returns (words': seq<string>, count': int)
    requires count == |words|
    requires |sub| == 0 || |sub| <= size - count
    ensures words' == words + Prepend(head, sub)
    ensures count' == |words'|
  {
    words', count' := words, count;
    for m := 0 to |sub|
      invariant count' == |words'| == |words| + m
      invariant words' == words + Prepend(head, sub[..m])
    {
      if count' < size {
        words' := words' + [head + sub[m]];
        count' := count' + 1;
      }
      assert sub[..m + 1] == sub[..m] + [sub[m]];
    }
    assert sub[..|sub|] == sub;
  }

  // === The constructor ===

  /**
   * The property assignment `children[c] = sub` (trie.js:22): a symbol that
   * is not yet a key becomes the last key in creation order, and assigning
   * an existing key keeps its place.
   */
  function Attach(nd: Node, c: char, sub: nat): (r: Node)
    ensures r.isWord == nd.isWord
    ensures r.children.Keys == nd.children.Keys + {c} && r.children[c] == sub
    ensures forall k :: k in nd.children && k != c ==> r.children[k] == nd.children[k]
    ensures |nd.order| <= |r.order| && r.order[..|nd.order|] == nd.order
    ensures KeysListed(nd) ==> KeysListed(r)
  {
    nd.(children := nd.children[c := sub],
        order := if c in nd.children then nd.order else nd.order + [c])
  }

  /**
   * One symbol of a word in the constructor (trie.js:18-23): the child of
   * `curr` for `c` is reused, or else created by `new Trie()` at the end of
   * the arena; it is marked as a word when `c` is the word's last symbol;
   * and it is assigned to `children[c]`. Node by node, the arena
   * afterwards is what Added describes, and `sub` is the child's index.
   */
  method AddSymbol(ns: seq<Node>, curr: nat, c: char, last: bool) returns (ns': seq<Node>, sub: nat)
    requires Linked(ns) && curr < |ns|
    ensures Added(ns, curr, c, last, ns', sub)
    ensures c in ns'[curr].children && ns'[curr].children[c] == sub
  {
    if c in ns[curr].children {
      sub := ns[curr].children[c];
      ns' := ns;
    } else {
      sub := |ns|;
      ns' := ns + [Empty];
    }
    if last {
      ns' := ns'[sub := ns'[sub].(isWord := true)];
    }
    ns' := ns'[curr := Attach(ns'[curr], c, sub)];
  }

  /** The labels after AddSymbol: a created child is labelled by its path. */
  ghost function AddLabel(ns: seq<Node>, labels: seq<string>, curr: nat, c: char): seq<string>
    requires curr < |ns| && curr < |labels|
  {
    if c in ns[curr].children then labels else labels + [labels[curr] + [c]]
  }

  /** `a` grew into `b`: it keeps its word flag, its edges and its key order. */
  ghost predicate NodeGrown(a: Node, b: Node) {
    && (a.isWord ==> b.isWord)
    && (forall c :: c in a.children ==> c in b.children && b.children[c] == a.children[c])
    && |a.order| <= |b.order| && b.order[..|a.order|] == a.order
  }

  /** Every node of `ns` grew into the node at the same index of `ns'`. */
  ghost predicate Grown(ns: seq<Node>, ns': seq<Node>) {
    |ns| <= |ns'| && forall n :: 0 <= n < |ns| ==> NodeGrown(ns[n], ns'[n])
  }

  lemma GrownTrans(a: seq<Node>, b: seq<Node>, c: seq<Node>)
    requires Grown(a, b) && Grown(b, c)
    ensures Grown(a, c)
  {
    forall n | 0 <= n < |a|
      ensures NodeGrown(a[n], c[n])
    {
      var x, y, z := a[n].order, b[n].order, c[n].order;
      assert z[..|x|] == z[..|y|][..|x|];
    }
  }

  /** A walk that succeeds in an arena succeeds alike in what it grew into. */
  lemma {:induction false} WalkGrown(ns: seq<Node>, ns': seq<Node>, n: nat, p: string)
    requires Linked(ns) && Linked(ns') && Grown(ns, ns') && n < |ns|
    requires Walk(ns, n, p).Some?
    ensures Walk(ns', n, p) == Walk(ns, n, p)
    decreases |p|
  {
    if p != [] {
      WalkGrown(ns, ns', n, p[..|p| - 1]);
    }
  }

  /** Walking from the root ends at the node labelled by the walked string. */
  lemma {:induction false} WalkLabel(ns: seq<Node>, labels: seq<string>, p: string)
    requires Linked(ns) && |ns| > 0 && |labels| == |ns| && labels[0] == [] && EdgesLabelled(ns, labels)
    requires Walk(ns, 0, p).Some?
    ensures labels[Walk(ns, 0, p).value] == p
    decreases |p|
  {
    if p != [] {
      var q, c := p[..|p| - 1], p[|p| - 1];
      WalkLabel(ns, labels, q);
      var m := Walk(ns, 0, q).value;
      assert Walk(ns, 0, p) == Some(ns[m].children[c]);
      assert q + [c] == p;
    }
  }

  /** Where a walk succeeds, the walks of its prefixes succeed. */
  lemma {:induction false} WalkPrefixSome(ns: seq<Node>, n: nat, p: string, k: nat)
    requires Linked(ns) && n < |ns| && Walk(ns, n, p).Some? && k <= |p|
    ensures Walk(ns, n, p[..k]).Some?
    decreases |p| - k
  {
    if k < |p| {
      var q := p[..|p| - 1];
      WalkPrefixSome(ns, n, q, k);
      assert q[..k] == p[..k];
    } else {
      assert p[..k] == p;
    }
  }

  /** Walking one more symbol continues from where the walk ended. */
  lemma WalkSnoc(ns: seq<Node>, n: nat, p: string, c: char)
    requires Linked(ns) && n < |ns|
    ensures Walk(ns, n, p + [c]) == match Walk(ns, n, p)
      case None => None
      case Some(m) => if c in ns[m].children then Some(ns[m].children[c]) else None
  {
    assert (p + [c])[..|p|] == p;
  }

  /** The node at index `n` after AddSymbol, for `sub` the child's index. */
  ghost function NodeAfter(ns: seq<Node>, curr: nat, c: char, last: bool, sub: nat, n: nat): Node {
    var base := if n < |ns| then ns[n] else Empty;
    var marked := if last && n == sub then base.(isWord := true) else base;
    if n == curr then Attach(marked, c, sub) else marked
  }

  /** `ns'` and `sub` are what AddSymbol makes of `ns`, node by node. */
  ghost predicate Added(ns: seq<Node>, curr: nat, c: char, last: bool, ns': seq<Node>, sub: nat) {
    && curr < |ns|
    && sub == (if c in ns[curr].children then ns[curr].children[c] else |ns|)
    && |ns'| == (if c in ns[curr].children then |ns| else |ns| + 1)
    && forall n :: 0 <= n < |ns'| ==> ns'[n] == NodeAfter(ns, curr, c, last, sub, n)
  }

  /** AddSymbol keeps the arena a forest whose nodes list their keys. */
  lemma AddedTree(ns: seq<Node>, curr: nat, c: char, last: bool, ns': seq<Node>, sub: nat)
    requires Tree(ns) && Added(ns, curr, c, last, ns', sub)
    ensures Tree(ns')
  {
    forall n | 0 <= n < |ns'|
      ensures KeysListed(ns'[n])
    {
      assert ns'[n] == NodeAfter(ns, curr, c, last, sub, n);
    }
    forall n, k | 0 <= n < |ns'| && k in ns'[n].children
      ensures n < ns'[n].children[k] < |ns'|
    {
      assert ns'[n] == NodeAfter(ns, curr, c, last, sub, n);
    }
  }

  /**
   * AddSymbol changes no edge but the one for `c` out of `curr`, marks no
   * node but the child when `last`, and creates a node only for a missing
   * child.
   */
  lemma AddedGrown(ns: seq<Node>, curr: nat, c: char, last: bool, ns': seq<Node>, sub: nat)
    requires Added(ns, curr, c, last, ns', sub)
    ensures Grown(ns, ns')
    ensures forall n, k {:trigger ns'[n].children[k]} :: 0 <= n < |ns'| && k in ns'[n].children ==>
      (n == curr && k == c) || (n < |ns| && k in ns[n].children && ns'[n].children[k] == ns[n].children[k])
    ensures forall m :: 0 <= m < |ns'| ==> (ns'[m].isWord <==> (m < |ns| && ns[m].isWord) || (last && m == sub))
  {
    forall n | 0 <= n < |ns|
      ensures NodeGrown(ns[n], ns'[n])
    {
      assert ns'[n] == NodeAfter(ns, curr, c, last, sub, n);
    }
    forall n, k | 0 <= n < |ns'| && k in ns'[n].children
      ensures (n == curr && k == c) || (n < |ns| && k in ns[n].children && ns'[n].children[k] == ns[n].children[k])
    {
      assert ns'[n] == NodeAfter(ns, curr, c, last, sub, n);
    }
    forall m | 0 <= m < |ns'|
      ensures ns'[m].isWord <==> (m < |ns| && ns[m].isWord) || (last && m == sub)
    {
      assert ns'[m] == NodeAfter(ns, curr, c, last, sub, m);
    }
  }

  /** AddSymbol changes nothing when the child exists and needs no new mark. */
  lemma AddedSame(ns: seq<Node>, curr: nat, c: char, last: bool, ns': seq<Node>, sub: nat)
    requires Added(ns, curr, c, last, ns', sub)
    requires c in ns[curr].children && (!last || (sub < |ns| && ns[sub].isWord))
    ensures ns' == ns
  {
    assert ns[curr].children[c := sub] == ns[curr].children;
    forall n | 0 <= n < |ns|
      ensures ns'[n] == ns[n]
    {
      assert ns'[n] == NodeAfter(ns, curr, c, last, sub, n);
    }
  }

  /** AddSymbol keeps the labels right: a created child's label is its path. */
  lemma AddedLabels(ns: seq<Node>, labels: seq<string>, curr: nat, c: char, last: bool, ns': seq<Node>, sub: nat)
    requires WellFormed(ns, labels) && Added(ns, curr, c, last, ns', sub)
    ensures var labels' := AddLabel(ns, labels, curr, c);
      && WellFormed(ns', labels')
      && labels'[sub] == labels[curr] + [c]
      && |labels| <= |labels'| && labels'[..|labels|] == labels
  {
    AddedTree(ns, curr, c, last, ns', sub);
    AddedGrown(ns, curr, c, last, ns', sub);
    AddedEdges(ns, labels, curr, c, last, ns', sub);
    ReachedGrown(ns, labels, ns', AddLabel(ns, labels, curr, c), curr, c, sub);
  }

  /** The edges AddSymbol leaves are labelled as before, the new one by its path. */
  lemma AddedEdges(ns: seq<Node>, labels: seq<string>, curr: nat, c: char, last: bool, ns': seq<Node>, sub: nat)
    requires Tree(ns) && |labels| == |ns| && EdgesLabelled(ns, labels) && Added(ns, curr, c, last, ns', sub)
    ensures var labels' := AddLabel(ns, labels, curr, c);
      && |labels'| == |ns'|
      && EdgesLabelled(ns', labels')
      && labels'[sub] == labels[curr] + [c]
      && |labels| <= |labels'| && labels'[..|labels|] == labels
  {
    var labels' := AddLabel(ns, labels, curr, c);
    AddedGrown(ns, curr, c, last, ns', sub);
    forall n, k | 0 <= n < |ns'| && k in ns'[n].children && ns'[n].children[k] < |ns'|
      ensures labels'[ns'[n].children[k]] == labels'[n] + [k]
    {
      if !(n == curr && k == c) {
        assert n < |ns| && k in ns[n].children;
      }
    }
  }

  /**
   * In an arena grown by at most one node, the child for `c` of `curr`, the
   * old nodes stay reached by their labels, and so is a new node labelled
   * by the label of `curr` followed by `c`.
   */
  lemma ReachedGrown(ns: seq<Node>, labels: seq<string>, ns': seq<Node>, labels': seq<string>,
                     curr: nat, c: char, sub: nat)
    requires Linked(ns) && Linked(ns') && |ns| > 0 && |labels| == |ns| && Reached(ns, labels)
    requires Grown(ns, ns') && curr < |ns| && c in ns'[curr].children && ns'[curr].children[c] == sub
    requires |labels'| == |ns'| && |labels| <= |labels'| && labels'[..|labels|] == labels
    requires |ns'| == |ns| || (|ns'| == |ns| + 1 && sub == |ns| && labels'[sub] == labels[curr] + [c])
    ensures Reached(ns', labels')
  {
    forall m | 0 <= m < |ns'|
      ensures Walk(ns', 0, labels'[m]) == Some(m)
    {
      if m < |ns| {
        assert labels'[m] == labels[m];
        StillReached(ns, labels, ns', m);
      } else {
        assert m == sub && labels'[m] == labels[curr] + [c];
        NewReached(ns, labels, ns', curr, c);
      }
    }
  }

  /** An old node is reached in the grown arena by its old label. */
  lemma StillReached(ns: seq<Node>, labels: seq<string>, ns': seq<Node>, m: nat)
    requires Linked(ns) && Linked(ns') && |ns| > 0 && |labels| == |ns| && Reached(ns, labels)
    requires Grown(ns, ns') && m < |ns|
    ensures Walk(ns', 0, labels[m]) == Some(m)
  {
    WalkGrown(ns, ns', 0, labels[m]);
  }

  /** The child for `c` of `curr` is reached by the label of `curr` followed by `c`. */
  lemma NewReached(ns: seq<Node>, labels: seq<string>, ns': seq<Node>, curr: nat, c: char)
    requires Linked(ns) && Linked(ns') && |ns| > 0 && |labels| == |ns| && Reached(ns, labels)
    requires Grown(ns, ns') && curr < |ns| && c in ns'[curr].children
    ensures Walk(ns', 0, labels[curr] + [c]) == Some(ns'[curr].children[c])
  {
    StillReached(ns, labels, ns', curr);
    WalkSnoc(ns', 0, labels[curr], c);
  }

  /**
   * AddSymbol makes at most one more string walkable from the root: the
   * label of `curr` followed by `c`.
   */
  lemma {:induction false} AddedWalk(ns: seq<Node>, labels: seq<string>, curr: nat, c: char, last: bool,
                                     ns': seq<Node>, sub: nat, p: string)
    requires WellFormed(ns, labels) && Added(ns, curr, c, last, ns', sub)
    ensures Linked(ns')
    ensures Walk(ns', 0, p).Some? <==> Walk(ns, 0, p).Some? || p == labels[curr] + [c]
    decreases |p|
  {
    AddedTree(ns, curr, c, last, ns', sub);
    AddedGrown(ns, curr, c, last, ns', sub);
    if p != [] {
      var q, d := p[..|p| - 1], p[|p| - 1];
      assert p == q + [d];
      AddedWalk(ns, labels, curr, c, last, ns', sub, q);
      WalkSnoc(ns, 0, q, d);
      WalkSnoc(ns', 0, q, d);
      if Walk(ns, 0, q).Some? {
        WalkGrown(ns, ns', 0, q);
        WalkLabel(ns, labels, q);
      } else if q == labels[curr] + [c] {
        WalkSnoc(ns, 0, labels[curr], c);
        NewReached(ns, labels, ns', curr, c);
        assert ns'[sub] == NodeAfter(ns, curr, c, last, sub, sub);
      } else {
        assert p != labels[curr] + [c] by {
          assert Walk(ns, 0, labels[curr]) == Some(curr);
        }
      }
    }
  }

  /** The number of keys node `n` of `ns` has; none for a node `ns` does not have. */
  function OldLength(ns: seq<Node>, n: nat): nat {
    if n < |ns| then |ns[n].order| else 0
  }

  /**
   * The strings walkable in `ns` are those walkable in `ns0` and the
   * prefixes of `w` at most `i` long.
   */
  ghost predicate WalksAdded(ns0: seq<Node>, ns: seq<Node>, w: string, i: nat)
    requires Linked(ns0) && Linked(ns) && |ns0| > 0 && |ns| > 0
  {
    forall p :: Walk(ns, 0, p).Some? <==> Walk(ns0, 0, p).Some? || (|p| <= i && p <= w)
  }

  /**
   * Every key a node of `ns` lists beyond those it had in `ns0` is the
   * symbol of `w` after the node's label.
   */
  ghost predicate KeysAdded(ns0: seq<Node>, ns: seq<Node>, labels: seq<string>, w: string)
    requires |labels| == |ns|
  {
    forall n, j {:trigger ns[n].order[j]} :: 0 <= n < |ns| && OldLength(ns0, n) <= j < |ns[n].order| ==>
      labels[n] + [ns[n].order[j]] <= w
  }

  /** Inserting, together with what the walk added so far. */
  ghost predicate Walking(ns0: seq<Node>, labels0: seq<string>, w: string, i: nat,
                          ns: seq<Node>, labels: seq<string>, curr: nat)
  {
    && Inserting(ns0, labels0, w, i, ns, labels, curr)
    && WalksAdded(ns0, ns, w, i) && KeysAdded(ns0, ns, labels, w)
  }

  /** One symbol of the walk keeps Walking. */
  lemma WalkingStep(ns0: seq<Node>, labels0: seq<string>, w: string, i: nat,
                    ns: seq<Node>, labels: seq<string>, curr: nat, ns': seq<Node>, sub: nat)
    requires Walking(ns0, labels0, w, i, ns, labels, curr) && i < |w|
    requires Added(ns, curr, w[i], i == |w| - 1, ns', sub)
    ensures Walking(ns0, labels0, w, i + 1, ns', AddLabel(ns, labels, curr, w[i]), sub)
  {
    AddStep(ns0, labels0, w, i, ns, labels, curr, ns', sub);
    WalksStep(ns0, labels0, w, i, ns, labels, curr, ns', sub);
    KeysStep(ns0, labels0, w, i, ns, labels, curr, ns', sub);
  }

  /** Before the walk, nothing is added. */
  lemma NothingAdded(ns: seq<Node>, labels: seq<string>, w: string)
    requires WellFormed(ns, labels)
    ensures WalksAdded(ns, ns, w, 0) && KeysAdded(ns, ns, labels, w)
  {
  }

  /** After the walk, every prefix of `w` has been added. */
  lemma AllAdded(ns0: seq<Node>, ns: seq<Node>, w: string)
    requires Linked(ns0) && Linked(ns) && |ns0| > 0 && |ns| > 0 && WalksAdded(ns0, ns, w, |w|)
    ensures forall p :: Walk(ns, 0, p).Some? <==> Walk(ns0, 0, p).Some? || p <= w
  {
  }

  /** One symbol of the walk adds the walk's next prefix, and nothing else. */
  lemma WalksStep(ns0: seq<Node>, labels0: seq<string>, w: string, i: nat,
                  ns: seq<Node>, labels: seq<string>, curr: nat, ns': seq<Node>, sub: nat)
    requires Inserting(ns0, labels0, w, i, ns, labels, curr) && i < |w|
    requires WalksAdded(ns0, ns, w, i)
    requires Added(ns, curr, w[i], i == |w| - 1, ns', sub)
    ensures Linked(ns') && WalksAdded(ns0, ns', w, i + 1)
  {
    SliceSnoc(w, i);
    AddedTree(ns, curr, w[i], i == |w| - 1, ns', sub);
    forall p
      ensures Walk(ns', 0, p).Some? <==> Walk(ns0, 0, p).Some? || (|p| <= i + 1 && p <= w)
    {
      AddedWalk(ns, labels, curr, w[i], i == |w| - 1, ns', sub, p);
      assert p == w[..i + 1] <==> |p| == i + 1 && p <= w;
    }
  }

  /** One symbol of the walk adds at most its own symbol to the order of `curr`. */
  lemma KeysStep(ns0: seq<Node>, labels0: seq<string>, w: string, i: nat,
                 ns: seq<Node>, labels: seq<string>, curr: nat, ns': seq<Node>, sub: nat)
    requires Inserting(ns0, labels0, w, i, ns, labels, curr) && i < |w|
    requires KeysAdded(ns0, ns, labels, w)
    requires Added(ns, curr, w[i], i == |w| - 1, ns', sub)
    ensures var labels' := AddLabel(ns, labels, curr, w[i]);
      |labels'| == |ns'| && KeysAdded(ns0, ns', labels', w)
  {
    var c, last := w[i], i == |w| - 1;
    var labels' := AddLabel(ns, labels, curr, c);
    AddedEdges(ns, labels, curr, c, last, ns', sub);
    SliceSnoc(w, i);
    forall n, j | 0 <= n < |ns'| && OldLength(ns0, n) <= j < |ns'[n].order|
      ensures labels'[n] + [ns'[n].order[j]] <= w
    {
      assert ns'[n] == NodeAfter(ns, curr, c, last, sub, n);
      if n < |ns| {
        assert labels'[n] == labels[n];
        if j < |ns[n].order| {
          assert ns'[n].order[j] == ns[n].order[j];
        }
      }
    }
  }

  /**
   * The state of the constructor's walk down `w` after `i` symbols, from the
   * arena `ns0`: the arena grew and stays well formed, `curr` is the node
   * labelled by the first `i` symbols, only the node of `w` is newly marked
   * and only once all of `w` is walked, no node is created when the whole
   * path of `w` existed, and nothing changes when `w` was already a word.
   */
  ghost predicate Inserting(ns0: seq<Node>, labels0: seq<string>, w: string, i: nat,
                            ns: seq<Node>, labels: seq<string>, curr: nat)
  {
    && WellFormed(ns0, labels0) && WellFormed(ns, labels) && i <= |w|
    && curr < |ns| && labels[curr] == w[..i]
    && Grown(ns0, ns) && |labels0| <= |labels| && labels[..|labels0|] == labels0
    && (forall m :: 0 <= m < |ns| ==> (ns[m].isWord <==> (m < |ns0| && ns0[m].isWord) || (0 < i == |w| && m == curr)))
    && (Walk(ns0, 0, w).Some? ==> |ns| == |ns0|)
    && (Stored(ns0, w) ==> ns == ns0 && labels == labels0)
  }

  /** When the path of `w` exists, its next symbol has a child. */
  lemma ExistingChild(ns0: seq<Node>, labels0: seq<string>, w: string, i: nat,
                      ns: seq<Node>, labels: seq<string>, curr: nat)
    requires Inserting(ns0, labels0, w, i, ns, labels, curr) && i < |w|
    requires Walk(ns0, 0, w).Some?
    ensures w[i] in ns[curr].children
    ensures i == |w| - 1 ==> Walk(ns, 0, w) == Some(ns[curr].children[w[i]])
  {
    WalkPrefixSome(ns0, 0, w, i + 1);
    WalkGrown(ns0, ns, 0, w[..i + 1]);
    SliceSnoc(w, i);
    WalkSnoc(ns, 0, w[..i], w[i]);
    assert i == |w| - 1 ==> w[..i + 1] == w;
  }

  /** One symbol of the walk keeps the state of the walk. */
  lemma AddStep(ns0: seq<Node>, labels0: seq<string>, w: string, i: nat,
                ns: seq<Node>, labels: seq<string>, curr: nat, ns': seq<Node>, sub: nat)
    requires Inserting(ns0, labels0, w, i, ns, labels, curr) && i < |w|
    requires Added(ns, curr, w[i], i == |w| - 1, ns', sub)
    ensures Inserting(ns0, labels0, w, i + 1, ns', AddLabel(ns, labels, curr, w[i]), sub)
  {
    var c, last := w[i], i == |w| - 1;
    var labels' := AddLabel(ns, labels, curr, c);
    AddedLabels(ns, labels, curr, c, last, ns', sub);
    AddedGrown(ns, curr, c, last, ns', sub);
    GrownTrans(ns0, ns, ns');
    SliceSnoc(w, i);
    PrefixTrans(labels0, labels, labels');
    StepMarks(ns0, labels0, w, i, ns, labels, curr, ns', sub);
    if Walk(ns0, 0, w).Some? {
      StepExisting(ns0, labels0, w, i, ns, labels, curr, ns', sub);
    }
  }

  /** Only the node of `w` gets marked, and only at its last symbol. */
  lemma StepMarks(ns0: seq<Node>, labels0: seq<string>, w: string, i: nat,
                  ns: seq<Node>, labels: seq<string>, curr: nat, ns': seq<Node>, sub: nat)
    requires Inserting(ns0, labels0, w, i, ns, labels, curr) && i < |w|
    requires Added(ns, curr, w[i], i == |w| - 1, ns', sub)
    ensures forall m :: 0 <= m < |ns'| ==>
      (ns'[m].isWord <==> (m < |ns0| && ns0[m].isWord) || (0 < i + 1 == |w| && m == sub))
  {
    AddedGrown(ns, curr, w[i], i == |w| - 1, ns', sub);
  }

  /** Along an existing path nothing is created, and a stored word changes nothing. */
  lemma StepExisting(ns0: seq<Node>, labels0: seq<string>, w: string, i: nat,
                     ns: seq<Node>, labels: seq<string>, curr: nat, ns': seq<Node>, sub: nat)
    requires Inserting(ns0, labels0, w, i, ns, labels, curr) && i < |w|
    requires Added(ns, curr, w[i], i == |w| - 1, ns', sub)
    requires Walk(ns0, 0, w).Some?
    ensures |ns'| == |ns0|
    ensures Stored(ns0, w) ==> ns' == ns0 && AddLabel(ns, labels, curr, w[i]) == labels0
  {
    ExistingChild(ns0, labels0, w, i, ns, labels, curr);
    if Stored(ns0, w) {
      AddedSame(ns, curr, w[i], i == |w| - 1, ns', sub);
    }
  }

  /**
   * After the walk down all of `w`, the words of the arena are those of
   * `ns0` and, when it is not empty, `w`.
   */
  lemma Inserted(ns0: seq<Node>, labels0: seq<string>, w: string,
                 ns: seq<Node>, labels: seq<string>, curr: nat)
    requires Inserting(ns0, labels0, w, |w|, ns, labels, curr)
    ensures forall p :: Stored(ns, p) <==> Stored(ns0, p) || (p == w && |w| > 0)
  {
    assert w[..|w|] == w;
    forall p
      ensures Stored(ns, p) <==> Stored(ns0, p) || (p == w && |w| > 0)
    {
      if Stored(ns0, p) {
        WalkGrown(ns0, ns, 0, p);
      }
      if Stored(ns, p) {
        var m := Walk(ns, 0, p).value;
        WalkLabel(ns, labels, p);
        if m < |ns0| && ns0[m].isWord {
          assert labels0[m] == labels[m];
        }
      }
    }
  }

  // === findWithPrefix ===
  // The search only reads the trie, so it is stated over the arena value.

  /**
   * The walk down `prefix` in findWithPrefix (trie.js:43-45): the node it
   * leads to from `n`, or None for the throw-away Trie that stands in for
   * a missing child.
   */
  method WalkPrefix(ns: seq<Node>, n: nat, prefix: string) returns (curr: Option<nat>)
    requires Linked(ns) && n < |ns|
    ensures curr == Walk(ns, n, prefix)
  {
    curr := Some(n);
    for i := 0 to |prefix|
      invariant curr == Walk(ns, n, prefix[..i])
    {
      assert prefix[..i + 1][..i] == prefix[..i];
      if curr.Some? && prefix[i] in ns[curr.value].children {
        curr := Some(ns[curr.value].children[prefix[i]]);
      } else {
        curr := None;
      }
    }
    assert prefix[..|prefix|] == prefix;
  }

  /**
   * findWithPrefix (trie.js:34-63) called on the node `n`: the first `size`
   * words of the pre-order listing below the node `prefix` leads to, and
   * none when `size` is not positive.
   */
  method FindFrom(ns: seq<Node>, n: nat, prefix: string, size: int) returns (words: seq<string>)
    requires Tree(ns) && n < |ns|
    ensures words == Take(Matches(ns, n, prefix), size)
    decreases |ns| - n, 3
  {
    if |prefix| > 0 && prefix[0] !in ObjectKeys(ns[n]) {
      MissingFirstSymbol(ns, n, prefix);
      return [];
    }
    var curr := WalkPrefix(ns, n, prefix);
    if curr.None? {
      // The throw-away Trie is no word and has no children.
      words := SliceTo([], size);
      return;
    }
    var node := curr.value;
    words := [];
    var count := 0;
    if ns[node].isWord {
      words := words + [prefix];
      count := count + 1;
    }
    ghost var own := words;
    var keys := ObjectKeys(ns[node]);
    words, count := CollectChildren(ns, node, keys, prefix, size, words, count);
    FinishFind(ns, n, prefix, node, size, own, words);
    words := SliceTo(words, size);
  }

  /** `keys` are keys of the children of `node`. */
  ghost predicate Keys(ns: seq<Node>, node: nat, keys: seq<char>)
    requires node < |ns|
  {
    forall c :: c in keys ==> c in ns[node].children
  }

  /**
   * `words` holds `own` followed by the first words of the listings of the
   * children for the first `k` keys, behind `prefix`.
   */
  ghost predicate Gathered(ns: seq<Node>, node: nat, keys: seq<char>, k: nat, prefix: string, size: int,
                           own: seq<string>, words: seq<string>)
    requires Tree(ns) && node < |ns| && Keys(ns, node, keys) && k <= |keys|
  {
    words == own + Take(Prepend(prefix, Subtrees(ns, node, keys[..k])), size - |own|)
  }

  /**
   * The turn over the children of `node` in findWithPrefix (trie.js:52-60):
   * behind the words already collected, the first words of the children's
   * listings, each behind `prefix` and the child's symbol, while fewer than
   * `size` words are collected.
   */
  method CollectChildren(ns: seq<Node>, node: nat, keys: seq<char>, prefix: string, size: int,
                         own: seq<string>, ownCount: int)
    returns (words: seq<string>, count: int)
    requires Tree(ns) && node < |ns| && Keys(ns, node, keys)
    requires ownCount == |own|
    ensures count == |words|
    ensures words == own + Take(Prepend(prefix, Subtrees(ns, node, keys)), size - |own|)
    decreases |ns| - node, 2
  {
    words, count := own, ownCount;
    assert keys[..0] == [];
    for k := 0 to |keys|
      invariant count == |words|
      invariant Gathered(ns, node, keys, k, prefix, size, own, words)
    {
      words, count := CollectKey(ns, node, keys, k, prefix, size, own, words, count);
    }
    assert keys[..|keys|] == keys;
  }

  /**
   * The turn for the `k`th key in the loop over the children: it extends
   * the collected words by the listing of the `k`th child.
   */
  method CollectKey(ns: seq<Node>, node: nat, keys: seq<char>, k: nat, prefix: string, size: int,
                    own: seq<string>, words: seq<string>, count: int)
    returns (words': seq<string>, count': int)
    requires Tree(ns) && node < |ns|
    requires Keys(ns, node, keys) && k < |keys| && count == |words|
    requires Gathered(ns, node, keys, k, prefix, size, own, words)
    ensures count' == |words'|
    ensures Gathered(ns, node, keys, k + 1, prefix, size, own, words')
    decreases |ns| - node, 1
  {
    words', count' := CollectChild(ns, ns[node].children[keys[k]], keys[k], prefix, size, words, count);
    FindStep(ns, node, keys, k, prefix, size, own, words, words');
  }

  /**
   * One turn of the loop over the children (trie.js:53-59): the child is
   * searched for at most the words still missing, and what it returns is
   * pushed behind `prefix` and the child's symbol `c`.
   */
  method CollectChild(ns: seq<Node>, child: nat, c: char, prefix: string, size: int,
                      words: seq<string>, count: int)
    returns (words': seq<string>, count': int)
    requires Tree(ns) && child < |ns| && count == |words|
    ensures count' == |words'|
    ensures words' == words + Prepend(prefix + [c], Take(Matches(ns, child, []), size - |words|))
    decreases |ns| - child, 4
  {
    var sub := FindFrom(ns, child, "", size - count);
    words', count' := PushSuffixes(words, count, prefix + [c], sub, size);
  }

  /**
   * The constructor's walk down one word (trie.js:15-24): each symbol's
   * child of `curr` is reused, or else created, and marked at the last
   * symbol. Afterwards the words are the old ones and `w` when it is not
   * empty; no edge or mark is lost; no node is created when the path of
   * `w` existed; and a word inserted again changes nothing.
   */
  method Insert(ns: seq<Node>, ghost labels: seq<string>, w: string)
    returns (ns': seq<Node>, ghost labels': seq<string>)
    requires WellFormed(ns, labels)
    ensures WellFormed(ns', labels')
    ensures Grown(ns, ns')
    ensures forall p :: Stored(ns', p) <==> Stored(ns, p) || (p == w && |w| > 0)
    ensures Walk(ns, 0, w).Some? ==> |ns'| == |ns|
    ensures Stored(ns, w) ==> ns' == ns
    ensures |labels| <= |labels'| && labels'[..|labels|] == labels
    ensures forall p :: Walk(ns', 0, p).Some? <==> Walk(ns, 0, p).Some? || p <= w
    ensures forall n, j {:trigger ns'[n].order[j]} :: 0 <= n < |ns'| && OldLength(ns, n) <= j < |ns'[n].order| ==>
      labels'[n] + [ns'[n].order[j]] <= w
  {
    ns', labels' := ns, labels;
    var curr: nat := 0;
    NothingAdded(ns, labels, w);
    for i := 0 to |w|
      invariant Walking(ns, labels, w, i, ns', labels', curr)
    {
      var c, last := w[i], i == |w| - 1;
      ghost var before, ls := ns', labels';
      var sub;
      ns', sub := AddSymbol(ns', curr, c, last);
      labels' := AddLabel(before, labels', curr, c);
      WalkingStep(ns, labels, w, i, before, ls, curr, ns', sub);
      curr := sub;
    }
    Inserted(ns, labels, w, ns', labels', curr);
    AllAdded(ns, ns', w);
  }

  /** The words of the arena are the non-empty strings of `ws`. */
  ghost predicate HoldsWords(ns: seq<Node>, ws: seq<string>)
    requires Linked(ns) && |ns| > 0
  {
    forall p :: Stored(ns, p) <==> p in ws && |p| > 0
  }

  /** The empty root is a well-formed trie without words. */
  lemma EmptyRoot()
    ensures WellFormed([Empty], [[]]) && HoldsWords([Empty], [])
  {
    assert Walk([Empty], 0, []) == Some(0);
  }

  /** Inserting one more word extends the words held. */
  lemma HoldsSnoc(ns: seq<Node>, ns': seq<Node>, ws: seq<string>, w: string)
    requires Linked(ns) && |ns| > 0 && Linked(ns') && |ns'| > 0 && HoldsWords(ns, ws)
    requires forall p :: Stored(ns', p) <==> Stored(ns, p) || (p == w && |w| > 0)
    ensures HoldsWords(ns', ws + [w])
  {
  }

  // === Key order ===

  /**
   * The index of the first string of `ws` that begins with `p`, or `|ws|`
   * when none does.
   */
  function FirstWith(ws: seq<string>, p: string): (r: nat)
    ensures r <= |ws|
    ensures r < |ws| ==> p <= ws[r]
    ensures forall i :: 0 <= i < r ==> !(p <= ws[i])
  {
    if ws == [] then 0
    else if p <= ws[0] then 0
    else
      var r := 1 + FirstWith(ws[1..], p);
      assert forall i :: 1 <= i < r ==> ws[i] == ws[1..][i - 1];
      r
  }

  /**
   * The strings walkable from the root of `ns` are the empty string and the
   * prefixes of the first `k` strings of `ws`.
   */
  ghost predicate BuiltWalks(ns: seq<Node>, ws: seq<string>, k: nat)
    requires Linked(ns) && |ns| > 0
  {
    forall p :: Walk(ns, 0, p).Some? <==> p == [] || FirstWith(ws, p) < k
  }

  /**
   * Every node lists its keys in the order of the first strings of `ws`
   * that pass through them.
   */
  ghost predicate FirstUseOrder(ns: seq<Node>, labels: seq<string>, ws: seq<string>)
    requires |labels| == |ns|
  {
    forall n, i, j :: 0 <= n < |ns| && 0 <= i < j < |ns[n].order| ==>
      FirstWith(ws, labels[n] + [ns[n].order[i]]) < FirstWith(ws, labels[n] + [ns[n].order[j]])
  }

  /**
   * A string walkable in `ns` that ends one symbol below a node of the
   * grown arena `ns'` ends below an old node, by one of its old keys.
   */
  lemma OldEdge(ns: seq<Node>, labels: seq<string>, ns': seq<Node>, labels': seq<string>, n: nat, x: char)
    requires WellFormed(ns, labels) && WellFormed(ns', labels') && Grown(ns, ns') && n < |ns'|
    ensures Walk(ns, 0, labels'[n] + [x]).Some? ==> n < |ns| && x in ns[n].children
  {
    var q := labels'[n] + [x];
    if Walk(ns, 0, q).Some? {
      WalkPrefixSome(ns, 0, q, |labels'[n]|);
      assert q[..|labels'[n]|] == labels'[n];
      WalkGrown(ns, ns', 0, labels'[n]);
      WalkSnoc(ns, 0, labels'[n], x);
    }
  }

  /** All keys the walk down `w` adds to one node are the same symbol. */
  lemma NewKeysAlike(ns: seq<Node>, ns': seq<Node>, labels': seq<string>, w: string, n: nat)
    requires |labels'| == |ns'| && KeysAdded(ns, ns', labels', w) && n < |ns'|
    ensures var o, l := ns'[n].order, OldLength(ns, n);
      forall a, b :: l <= a < |o| && l <= b < |o| ==> o[a] == o[b]
  {
    var o, l := ns'[n].order, OldLength(ns, n);
    forall a, b | l <= a < |o| && l <= b < |o|
      ensures o[a] == o[b]
    {
      var m := |labels'[n]|;
      assert (labels'[n] + [o[a]])[m] == w[m];
      assert (labels'[n] + [o[b]])[m] == w[m];
    }
  }

  /** Its keys being distinct, a node gains at most one key while a word is inserted. */
  lemma OneNewKey(ns: seq<Node>, ns': seq<Node>, labels': seq<string>, w: string, n: nat)
    requires |labels'| == |ns'| && KeysAdded(ns, ns', labels', w) && n < |ns'| && KeysListed(ns'[n])
    ensures |ns'[n].order| <= OldLength(ns, n) + 1
  {
    NewKeysAlike(ns, ns', labels', w, n);
    NextTwo(ns'[n].order, OldLength(ns, n));
  }

  /** Past `l`, a sequence longer than `l + 1` has two items. */
  lemma NextTwo<T>(xs: seq<T>, l: nat)
    ensures |xs| <= l + 1 || xs[l..l + 2] == [xs[l], xs[l + 1]]
  {
  }

  /** Inserting the next word extends the walkable strings by its prefixes. */
  lemma WalksBuilt(ns: seq<Node>, ns': seq<Node>, ws: seq<string>, k: nat)
    requires Linked(ns) && Linked(ns') && |ns| > 0 && |ns'| > 0 && k < |ws|
    requires BuiltWalks(ns, ws, k)
    requires forall p :: Walk(ns', 0, p).Some? <==> Walk(ns, 0, p).Some? || p <= ws[k]
    ensures BuiltWalks(ns', ws, k + 1)
  {
    forall p
      ensures Walk(ns', 0, p).Some? <==> p == [] || FirstWith(ws, p) < k + 1
    {
      var r := FirstWith(ws, p);
      assert r == k <==> k <= r && p <= ws[k];
    }
  }

  /** A key node `n` had before inserting `ws[k]` is first used by an earlier word. */
  lemma OldKeyEarlier(ns: seq<Node>, labels: seq<string>, ns': seq<Node>, labels': seq<string>,
                      ws: seq<string>, k: nat, n: nat, i: nat)
    requires WellFormed(ns, labels) && |labels'| == |ns'| && Grown(ns, ns')
    requires |labels| <= |labels'| && labels'[..|labels|] == labels
    requires BuiltWalks(ns, ws, k) && n < |ns| && i < |ns[n].order|
    ensures FirstWith(ws, labels'[n] + [ns'[n].order[i]]) < k
  {
    var x := ns[n].order[i];
    assert labels'[n] == labels[n];
    assert ns'[n].order[i] == x;
    WalkSnoc(ns, 0, labels[n], x);
    assert Walk(ns, 0, labels[n] + [x]).Some?;
  }

  /** A key added to node `n` of the grown arena leads to no old node. */
  lemma FreshKey(ns: seq<Node>, labels: seq<string>, ns': seq<Node>, labels': seq<string>, n: nat, j: nat)
    requires WellFormed(ns, labels) && WellFormed(ns', labels') && Grown(ns, ns')
    requires n < |ns'| && OldLength(ns, n) <= j < |ns'[n].order|
    ensures Walk(ns, 0, labels'[n] + [ns'[n].order[j]]).None?
  {
    var o, y := ns'[n].order, ns'[n].order[j];
    OldEdge(ns, labels, ns', labels', n, y);
    if n < |ns| {
      var l := |ns[n].order|;
      assert KeysListed(ns'[n]);
      assert y !in ns[n].order by {
        assert forall a :: 0 <= a < l ==> ns[n].order[a] == o[a];
      }
    }
  }

  /** A key that inserting `ws[k]` adds to node `n` is first used by `ws[k]`. */
  lemma NewKeyFirst(ns: seq<Node>, labels: seq<string>, ns': seq<Node>, labels': seq<string>,
                    ws: seq<string>, k: nat, n: nat, j: nat)
    requires WellFormed(ns, labels) && WellFormed(ns', labels') && Grown(ns, ns') && k < |ws|
    requires BuiltWalks(ns, ws, k) && KeysAdded(ns, ns', labels', ws[k])
    requires n < |ns'| && OldLength(ns, n) <= j < |ns'[n].order|
    ensures FirstWith(ws, labels'[n] + [ns'[n].order[j]]) == k
  {
    var q := labels'[n] + [ns'[n].order[j]];
    assert q <= ws[k];
    FreshKey(ns, labels, ns', labels', n, j);
    assert q != [];
  }

  /**
   * Inserting the next word keeps the keys in first-use order: a key it
   * adds to a node comes last there, and is first used by that word.
   */
  lemma OrderBuilt(ns: seq<Node>, labels: seq<string>, ns': seq<Node>, labels': seq<string>,
                   ws: seq<string>, k: nat)
    requires WellFormed(ns, labels) && WellFormed(ns', labels') && Grown(ns, ns') && k < |ws|
    requires |labels| <= |labels'| && labels'[..|labels|] == labels
    requires BuiltWalks(ns, ws, k) && FirstUseOrder(ns, labels, ws)
    requires KeysAdded(ns, ns', labels', ws[k])
    ensures FirstUseOrder(ns', labels', ws)
  {
    forall n, i, j | 0 <= n < |ns'| && 0 <= i < j < |ns'[n].order|
      ensures FirstWith(ws, labels'[n] + [ns'[n].order[i]]) < FirstWith(ws, labels'[n] + [ns'[n].order[j]])
    {
      var o, l := ns'[n].order, OldLength(ns, n);
      if j < l {
        assert o[i] == ns[n].order[i] && o[j] == ns[n].order[j];
        assert labels'[n] == labels[n];
      } else {
        OneNewKey(ns, ns', labels', ws[k], n);
        OldKeyEarlier(ns, labels, ns', labels', ws, k, n, i);
        NewKeyFirst(ns, labels, ns', labels', ws, k, n, j);
      }
    }
  }

  /**
   * The constructor's loop over `words` (trie.js:13-25), from the empty
   * root: its words are the non-empty input words.
   */
  method Build(words: Option<seq<string>>) returns (ns: seq<Node>, ghost labels: seq<string>)
    ensures WellFormed(ns, labels)
    ensures words.None? ==> ns == [Empty]
    ensures HoldsWords(ns, if words.Some? then words.value else [])
    ensures !ns[0].isWord
    ensures PrefixPaths(ns, if words.Some? then words.value else [])
    ensures FirstUseOrder(ns, labels, if words.Some? then words.value else [])
  {
    ns, labels := [Empty], [[]];
    EmptyRoot();
    if words.None? {
      return;
    }
    var ws := words.value;
    for k := 0 to |ws|
      invariant WellFormed(ns, labels) && HoldsWords(ns, ws[..k])
      invariant BuiltWalks(ns, ws, k) && FirstUseOrder(ns, labels, ws)
    {
      var ns', labels' := Insert(ns, labels, ws[k]);
      HoldsSnoc(ns, ns', ws[..k], ws[k]);
      SliceSnoc(ws, k);
      WalksBuilt(ns, ns', ws, k);
      OrderBuilt(ns, labels, ns', labels', ws, k);
      ns, labels := ns', labels';
    }
    SliceAll(ws);
    assert !Stored(ns, []);
    WalksOfWords(ns, ws);
  }

  /** The strings walkable from the root are the empty string and the prefixes of the strings of `ws`. */
  ghost predicate PrefixPaths(ns: seq<Node>, ws: seq<string>)
    requires Linked(ns) && |ns| > 0
  {
    forall p :: Walk(ns, 0, p).Some? <==> p == [] || exists w :: w in ws && p <= w
  }

  /** Walks built from all of `ws` are those of PrefixPaths. */
  lemma WalksOfWords(ns: seq<Node>, ws: seq<string>)
    requires Linked(ns) && |ns| > 0 && BuiltWalks(ns, ws, |ws|)
    ensures PrefixPaths(ns, ws)
  {
    forall p
      ensures Walk(ns, 0, p).Some? <==> p == [] || exists w :: w in ws && p <= w
    {
      var r := FirstWith(ws, p);
      if r < |ws| {
        assert ws[r] in ws;
      }
      if exists w :: w in ws && p <= w {
        var w :| w in ws && p <= w;
        var i :| 0 <= i < |ws| && ws[i] == w;
        assert r <= i;
      }
    }
  }

  /**
   * The order the constructor's contract fixes, on the words "a" and "b":
   * in every arena it allows, the root's keys were created as "ab", and
   * Object.keys, which findWithPrefix follows, lists them so.
   */
  lemma FirstUseRoot(ns: seq<Node>, labels: seq<string>)
    requires WellFormed(ns, labels)
    requires PrefixPaths(ns, ["a", "b"]) && FirstUseOrder(ns, labels, ["a", "b"])
    ensures ns[0].order == "ab" && ObjectKeys(ns[0]) == "ab"
  {
    RootKeys(ns);
    RootOrder(ns, labels);
    ObjectKeysOf(ns[0]);
  }

  /** The keys of the root of the trie of "a" and "b". */
  lemma RootKeys(ns: seq<Node>)
    requires Linked(ns) && |ns| > 0 && PrefixPaths(ns, ["a", "b"])
    ensures forall c :: c in ns[0].children <==> c == 'a' || c == 'b'
  {
    forall c
      ensures c in ns[0].children <==> c == 'a' || c == 'b'
    {
      WalkOne(ns, 0, c);
      assert [c] <= "a" <==> c == 'a';
      assert [c] <= "b" <==> c == 'b';
      assert "a" in ["a", "b"] && "b" in ["a", "b"];
    }
  }

  /** Object.keys of the root of the trie of "a" and "b". */
  lemma ObjectKeysOf(nd: Node)
    requires KeysListed(nd) && nd.order == "ab"
    requires forall c :: c in nd.children <==> c == 'a' || c == 'b'
    ensures ObjectKeys(nd) == "ab"
  {
    DigitsOnly(nd.children);
    FirstMember(Present("0123456789", nd.children));
    assert NonDigits("ab") == "ab";
  }

  /** The root of the trie of "a" and "b" lists its keys as "ab". */
  lemma RootOrder(ns: seq<Node>, labels: seq<string>)
    requires WellFormed(ns, labels) && FirstUseOrder(ns, labels, ["a", "b"])
    requires forall c :: c in ns[0].children <==> c == 'a' || c == 'b'
    ensures ns[0].order == "ab"
  {
    var o := ns[0].order;
    assert KeysListed(ns[0]);
    TwoKeys(o);
    assert FirstWith(["a", "b"], labels[0] + [o[0]]) < FirstWith(["a", "b"], labels[0] + [o[1]]);
    assert FirstWith(["a", "b"], "a") == 0;
    assert FirstWith(["a", "b"], "b") == 1;
  }

  /** A list of distinct symbols holding exactly 'a' and 'b' is "ab" or "ba". */
  lemma TwoKeys(o: seq<char>)
    requires forall c :: c in o <==> c == 'a' || c == 'b'
    requires forall i, j :: 0 <= i < j < |o| ==> o[i] != o[j]
    ensures o == "ab" || o == "ba"
  {
    assert 'a' in o && 'b' in o;
    forall i | 0 <= i < |o|
      ensures o[i] == 'a' || o[i] == 'b'
    {
      assert o[i] in o;
    }
    FirstMember(o);
    FirstThree(o);
  }

  /** A sequence of three or more has its first three items as members. */
  lemma FirstThree<T>(xs: seq<T>)
    ensures |xs| < 3 || (xs[0] in xs && xs[1] in xs && xs[2] in xs)
  {
  }

  /** A sequence that is not empty has a first member. */
  lemma FirstMember<T>(xs: seq<T>)
    ensures xs == [] || xs[0] in xs
  {
  }

  class Trie {
    var nodes: seq<Node>
    ghost var labels: seq<string>

    ghost predicate Valid()
      reads this
    {
      WellFormed(nodes, labels)
    }

    /**
     * The constructor (trie.js:11-26): `words == undefined` leaves the empty
     * root, and otherwise every word is inserted in turn. The words of the
     * trie are then exactly the non-empty input words; the root is never
     * one, since an empty word has no symbols to walk.
     */
    constructor(words: Option<seq<string>>)
      ensures Valid()
      ensures words.None? ==> nodes == [Empty]
      ensures HoldsWords(nodes, if words.Some? then words.value else [])
      ensures !nodes[0].isWord
      ensures PrefixPaths(nodes, if words.Some? then words.value else [])
      ensures FirstUseOrder(nodes, labels, if words.Some? then words.value else [])
    {
      var ns, ls := Build(words);
      nodes := ns;
      labels := ls;
    }

    /** findWithPrefix called on the root. */
    method FindWithPrefix(prefix: string, size: int) returns (words: seq<string>)
      requires Valid()
      ensures words == Take(Matches(nodes, 0, prefix), size)
    {
      words := FindFrom(nodes, 0, prefix, size);
    }
  }
}
