/**
 * The two algorithmic pieces of mvc.js: `find`, the predicate search over
 * an element tree that does not descend into matched elements, and the
 * template tokenizer of `Controller.compile`, which splits a template into
 * literal chunks, `{{ … }}` expressions and the positions of the
 * placeholders the expressions fill in, together with the `compute`
 * closure that fills them in and joins the chunks.
 *
 * DOM nodes become a generic tree datatype: an element is its own data and
 * the sequence of its child elements.
 */
module Mvc {
  import opened Sequences

  // === find ===

  /** A DOM element: its own data and its children, in document order. */
  datatype Element<T(!new)> = Element(data: T, children: seq<Element<T>>)

  /** `elements.filter(q)`: the elements that satisfy `q`, in order. */
  function Filter<T(!new)>(es: seq<Element<T>>, q: Element<T> -> bool): (r: seq<Element<T>>)
    ensures |r| <= |es|
    ensures forall i :: 0 <= i < |r| ==> r[i] in es && q(r[i])
    ensures forall i :: 0 <= i < |es| && q(es[i]) ==> es[i] in r
  {
    if es == [] then []
    else
      var last := es[|es| - 1];
      Filter(es[..|es| - 1], q) + (if q(last) then [last] else [])
  }

  /** The `not` closure of find (mvc.js:36). */
  function Not<T(!new)>(p: Element<T> -> bool): (r: Element<T> -> bool)
    ensures forall x :: r(x) == !p(x)
  {
    x => !p(x)
  }

  /**
   * find (mvc.js:32-41): the elements of `es` that satisfy `p`, in order,
   * followed by what find returns for the children of each element that
   * does not, in order. Every element found satisfies `p`.
   */
  function Find<T(!new)>(es: seq<Element<T>>, p: Element<T> -> bool): (r: seq<Element<T>>)
    ensures |es| == 0 ==> r == []
    ensures forall i :: 0 <= i < |r| ==> p(r[i])
    decreases es, 1
  {
    if |es| == 0 then [] else Filter(es, p) + FindEach(Filter(es, Not(p)), es, p)
  }

  /**
   * `[].concat.apply(…, furtherSearch.map(el => find([...el.children], p)))`:
   * find over the children of each element of `xs`, concatenated in order.
   * `es` is the sequence `xs` was filtered from.
   */
  function FindEach<T(!new)>(xs: seq<Element<T>>, ghost es: seq<Element<T>>, p: Element<T> -> bool): (r: seq<Element<T>>)
    requires forall i :: 0 <= i < |xs| ==> xs[i] in es
    ensures forall i :: 0 <= i < |r| ==> p(r[i])
    decreases es, 0, |xs|
  {
    if xs == [] then [] else FindEach(xs[..|xs| - 1], es, p) + Find(xs[|xs| - 1].children, p)
  }

  /**
   * `x` is a match that the search reaches: an element of `es` that
   * satisfies `p`, or one reached the same way below an element of `es`
   * that does not. Below a match nothing is reached.
   */
  ghost predicate Exposed<T(!new)>(es: seq<Element<T>>, x: Element<T>, p: Element<T> -> bool)
    decreases es
  {
    || (x in es && p(x))
    || exists j :: 0 <= j < |es| && !p(es[j]) && Exposed(es[j].children, x, p)
  }

  /** find returns exactly the exposed matches. */
  lemma {:induction false} FindExposed<T(!new)>(es: seq<Element<T>>, p: Element<T> -> bool, x: Element<T>)
    ensures x in Find(es, p) <==> Exposed(es, x, p)
    decreases es, 1
  {
    if |es| > 0 {
      var rest := Filter(es, Not(p));
      FindEachExposed(rest, es, p, x);
      if x in FindEach(rest, es, p) {
        var k :| 0 <= k < |rest| && Exposed(rest[k].children, x, p);
        var j := Position(es, rest[k]);
        assert !p(es[j]) && Exposed(es[j].children, x, p);
      }
      if j :| 0 <= j < |es| && !p(es[j]) && Exposed(es[j].children, x, p) {
        assert es[j] in rest;
        var k := Position(rest, es[j]);
        assert Exposed(rest[k].children, x, p);
      }
    }
  }

  /** find over the children of the elements of `xs` returns the matches exposed below them. */
  lemma {:induction false} FindEachExposed<T(!new)>(xs: seq<Element<T>>, es: seq<Element<T>>, p: Element<T> -> bool, x: Element<T>)
    requires forall i :: 0 <= i < |xs| ==> xs[i] in es
    ensures x in FindEach(xs, es, p) <==> exists k :: 0 <= k < |xs| && Exposed(xs[k].children, x, p)
    decreases es, 0, |xs|
  {
    if xs != [] {
      var init, last := xs[..|xs| - 1], xs[|xs| - 1];
      FindEachExposed(init, es, p, x);
      FindExposed(last.children, p, x);
      if k :| 0 <= k < |init| && Exposed(init[k].children, x, p) {
        assert xs[k] == init[k];
      }
      if k :| 0 <= k < |xs| && Exposed(xs[k].children, x, p) {
        if k < |init| {
          assert init[k] == xs[k];
        }
      }
    }
  }

  /** An element of the top level that matches is always found. */
  lemma MatchFound<T(!new)>(es: seq<Element<T>>, p: Element<T> -> bool, i: nat)
    requires i < |es| && p(es[i])
    ensures es[i] in Find(es, p)
  {
    FindExposed(es, p, es[i]);
  }

  // === JavaScript strings ===

  /**
   * The characters String.prototype.trim removes: WhiteSpace (tab, vertical
   * tab, form feed, space, no-break space, zero-width no-break space and the
   * Unicode space separators) and LineTerminator (line feed, carriage
   * return, line and paragraph separators), as in ECMAScript section 12.2
   * and 12.3.
   */
  predicate IsSpace(c: char) {
    || c == '\t' || c == '\U{B}' || c == '\U{C}' || c == ' ' || c == '\U{A0}' || c == '\U{FEFF}'
    || c == '\U{1680}' || ('\U{2000}' <= c <= '\U{200A}') || c == '\U{202F}' || c == '\U{205F}' || c == '\U{3000}'
    || c == '\n' || c == '\r' || c == '\U{2028}' || c == '\U{2029}'
  }

  /** How many white space characters `s` starts with. */
  function Leading(s: string): (n: nat)
    ensures n <= |s|
    ensures forall i :: 0 <= i < n ==> IsSpace(s[i])
    ensures n == |s| || !IsSpace(s[n])
  {
    if s != [] && IsSpace(s[0]) then 1 + Leading(s[1..]) else 0
  }

  /** How many white space characters `s` ends with. */
  function Trailing(s: string): (n: nat)
    ensures n <= |s|
    ensures forall i :: |s| - n <= i < |s| ==> IsSpace(s[i])
    ensures n == |s| || !IsSpace(s[|s| - n - 1])
  {
    if s != [] && IsSpace(s[|s| - 1]) then 1 + Trailing(s[..|s| - 1]) else 0
  }

  /**
   * String.prototype.trim: `s` without its leading and its trailing white
   * space, so that what is left neither starts nor ends with white space.
   */
  function Trim(s: string): (r: string)
    ensures |r| <= |s|
    ensures r == [] || (!IsSpace(r[0]) && !IsSpace(r[|r| - 1]))
  {
    var t := s[Leading(s)..];
    t[..|t| - Trailing(t)]
  }

  /** Trimming removes white space, and nothing else, from either end of `s`. */
  lemma TrimParts(s: string) returns (front: string, back: string)
    ensures s == front + Trim(s) + back
    ensures forall i :: 0 <= i < |front| ==> IsSpace(front[i])
    ensures forall i :: 0 <= i < |back| ==> IsSpace(back[i])
  {
    var t := s[Leading(s)..];
    var m := |t| - Trailing(t);
    front, back := s[..Leading(s)], t[m..];
    assert Trim(s) == t[..m];
    assert s == front + t;
    assert t == t[..m] + back;
    forall i | 0 <= i < |front|
      ensures IsSpace(front[i])
    {
      assert front[i] == s[i];
    }
    forall i | 0 <= i < |back|
      ensures IsSpace(back[i])
    {
      assert back[i] == t[m + i];
    }
  }

  /** `k` is where an occurrence of `pat` starts in `s`. */
  predicate At(s: string, pat: string, k: int) {
    0 <= k && k + |pat| <= |s| && s[k..k + |pat|] == pat
  }

  /**
   * String.prototype.indexOf with a start position: where the first
   * occurrence of `pat` that starts at or after `from` (a negative `from`
   * counts as 0) starts, or -1 if there is none; IndexOfFirst below proves
   * that this is what it computes.
   */
  function IndexOf(s: string, pat: string, from: int): (r: int)
    requires |pat| > 0
    ensures r == -1 || (from <= r && r + |pat| <= |s|)
    decreases |s| - from
  {
    if from < 0 then IndexOf(s, pat, 0)
    else if from + |pat| > |s| then -1
    else if At(s, pat, from) then from
    else IndexOf(s, pat, from + 1)
  }

  /**
   * IndexOf finds an occurrence of `pat` when there is one at or after
   * `from`, and then the first one; -1 means there is none.
   */
  lemma {:induction false} IndexOfFirst(s: string, pat: string, from: int)
    requires |pat| > 0
    ensures var r := IndexOf(s, pat, from);
      && (r == -1 || At(s, pat, r))
      && (forall k :: from <= k && (r == -1 || k < r) ==> !At(s, pat, k))
    decreases |s| - from
  {
    if from < 0 {
      IndexOfFirst(s, pat, 0);
    } else if from + |pat| > |s| {
    } else if At(s, pat, from) {
    } else {
      IndexOfFirst(s, pat, from + 1);
    }
  }

  /** `k` clamped into [0, |s|]. */
  function Clamp(s: string, k: int): (r: nat)
    ensures r <= |s|
    ensures 0 <= k <= |s| ==> r == k
  {
    if k < 0 then 0 else if k > |s| then |s| else k
  }

  /**
   * String.prototype.substring(a, b): both bounds clamped into [0, |s|],
   * and swapped when the first is the larger.
   */
  function Substring(s: string, a: int, b: int): (r: string)
    ensures 0 <= a <= b <= |s| ==> r == s[a..b]
    ensures 0 <= b <= a <= |s| ==> r == s[b..a]
  {
    var i, j := Clamp(s, a), Clamp(s, b);
    if i <= j then s[i..j] else s[j..i]
  }

  /** String.prototype.substring(a): from `a`, clamped, to the end. */
  function SubstringFrom(s: string, a: int): (r: string)
    ensures 0 <= a <= |s| ==> r == s[a..]
  {
    s[Clamp(s, a)..]
  }

  // === The tokenizer of compile ===

  /**
   * What the loop of compile builds: the `concat` chunks, with "" where an
   * expression goes; the text of each expression before it is trimmed; and
   * `expressionPositions`, the index in `concat` of each placeholder.
   */
  datatype Template = Template(concat: seq<string>, raws: seq<string>, positions: seq<nat>)

  const Empty := Template([], [], [])

  /**
   * Where one round of the loop finds `{{` (looked for from `index`) and
   * `}}` (looked for from `index + 2` as written, when `fixed` is false, or
   * from just after the `{{`, when it is true); -1 when not found, and `}}`
   * is not looked for when there is no `{{`.
   */
  function Delimiters(text: string, fixed: bool, index: nat): (d: (int, int))
    ensures d.0 != -1 && d.1 != -1 ==> index <= d.0 && index + 2 <= d.1 && (fixed ==> d.0 + 2 <= d.1)
  {
    var s := IndexOf(text, "{{", index);
    (s, if s == -1 then -1 else IndexOf(text, "}}", if fixed then s + 2 else index + 2))
  }

  /** The delimiters are what the two searches of a round return. */
  lemma DelimitersFound(text: string, fixed: bool, index: nat, s: int, e: int)
    requires s == IndexOf(text, "{{", index)
    requires e == if s == -1 then -1 else IndexOf(text, "}}", if fixed then s + 2 else index + 2)
    ensures Delimiters(text, fixed, index) == (s, e)
  {
  }

  /** Where a round finds both delimiters, they are there. */
  lemma DelimitersAt(text: string, fixed: bool, index: nat)
    requires var d := Delimiters(text, fixed, index); d.0 != -1 && d.1 != -1
    ensures var d := Delimiters(text, fixed, index); At(text, "{{", d.0) && At(text, "}}", d.1)
  {
    var s := IndexOf(text, "{{", index);
    IndexOfFirst(text, "{{", index);
    IndexOfFirst(text, "}}", if fixed then s + 2 else index + 2);
  }

  /**
   * One round that found `{{` at `s` and `}}` at `e`: the literal text from
   * `index` to `s` unless it is empty, then a placeholder, and the text
   * between `s + 2` and `e` as the expression.
   */
  function Push(text: string, index: nat, s: int, e: int, t: Template): (r: Template)
    ensures |r.concat| == |t.concat| + (if index != s then 2 else 1) && r.concat[..|t.concat|] == t.concat
    ensures index != s ==> r.concat[|t.concat|] == Substring(text, index, s)
    ensures r.concat[|r.concat| - 1] == ""
    ensures r.raws == t.raws + [Substring(text, s + 2, e)]
    ensures r.positions == t.positions + [|r.concat| - 1]
  {
    var c := if index != s then t.concat + [Substring(text, index, s)] else t.concat;
    Template(c + [""], t.raws + [Substring(text, s + 2, e)], t.positions + [|c|])
  }

  /** What a round pushes, given the chunks once its literal text is added. */
  lemma PushIs(text: string, index: nat, s: int, e: int, t: Template, c: seq<string>)
    requires c == if index != s then t.concat + [Substring(text, index, s)] else t.concat
    ensures Push(text, index, s, e, t) == Template(c + [""], t.raws + [Substring(text, s + 2, e)], t.positions + [|c|])
  {
  }

  /** The rounds of the loop that find both delimiters: where each finds its `{{` and its `}}`, in order. */
  datatype Rounds = NoMore | Round(open: nat, close: nat, rest: Rounds)

  /**
   * The rounds of the loop of compile (mvc.js:199-208) from position
   * `index`: a round that finds both delimiters goes on after its `}}`,
   * and the rounds stop when the text is read or a round misses a
   * delimiter.
   */
  function Search(text: string, fixed: bool, index: nat): (r: Rounds)
    ensures Delimited(text, fixed, index, r)
    decreases |text| - index
  {
    if index >= |text| then NoMore
    else
      var d := Delimiters(text, fixed, index);
      if d.0 != -1 && d.1 != -1 then
        DelimitersAt(text, fixed, index);
        Round(d.0, d.1, Search(text, fixed, d.1 + 2))
      else NoMore
  }

  /**
   * What the loop adds to `t` from position `index` when it goes through
   * `rounds`: what each round pushes, then, when text is left after the
   * last round, the rest of the text as the last chunk (mvc.js:209-213).
   */
  function Build(text: string, index: nat, rounds: Rounds, t: Template): (r: Template)
    ensures |r.raws| == |t.raws| + Count(rounds) && |r.positions| == |t.positions| + Count(rounds)
    decreases rounds
  {
    match rounds
    case NoMore =>
      if index < |text| then Template(t.concat + [SubstringFrom(text, index)], t.raws, t.positions) else t
    case Round(s, e, rest) =>
      Build(text, e + 2, rest, Push(text, index, s, e, t))
  }

  /** The number of rounds. */
  function Count(rounds: Rounds): nat {
    match rounds
    case NoMore => 0
    case Round(_, _, rest) => 1 + Count(rest)
  }

  /** Building through a first round pushes it and goes on after its `}}`. */
  lemma BuildNext(text: string, index: nat, s: nat, e: nat, rest: Rounds, t: Template)
    ensures Build(text, index, Round(s, e, rest), t) == Build(text, e + 2, rest, Push(text, index, s, e, t))
  {
  }

  /** With no round left and text left, building adds the rest of the text. */
  lemma BuildLast(text: string, index: nat, t: Template)
    requires index < |text|
    ensures Build(text, index, NoMore, t) == Template(t.concat + [SubstringFrom(text, index)], t.raws, t.positions)
  {
  }

  /** With the text read, building adds nothing. */
  lemma BuildDone(text: string, fixed: bool, index: nat, t: Template)
    requires index >= |text|
    ensures Build(text, index, Search(text, fixed, index), t) == t
  {
  }

  /**
   * The tokenizer of compile as written (mvc.js:188-215). It records one
   * placeholder per expression, each at an empty chunk, in increasing order.
   */
  function Tokenize(text: string): (r: Template)
    ensures Placeholders(r.concat, r.positions, |r.raws|)
  {
    assert Placed(Empty);
    BuildPlaceholders(text, 0, Search(text, false, 0), Empty);
    Build(text, 0, Search(text, false, 0), Empty)
  }

  /**
   * The tokenizer with `}}` looked for after the `{{`, as in the
   * interpolation code it follows. Its placeholders are well placed, and
   * computing with every expression put back between braces renders back
   * the text.
   */
  function TokenizeFixed(text: string): (r: Template)
    ensures Placeholders(r.concat, r.positions, |r.raws|)
    ensures Compute(r.concat, r.positions, Wrap(r.raws)) == text
  {
    assert Placed(Empty);
    BuildPlaceholders(text, 0, Search(text, true, 0), Empty);
    assert RendersPrefix(text, 0, Empty);
    BuildRoundTrip(text, 0, Search(text, true, 0), Empty);
    assert text[..|text|] == text;
    Build(text, 0, Search(text, true, 0), Empty)
  }

  /** A round that finds both delimiters is the first of the rounds from where it starts. */
  lemma SearchFound(text: string, fixed: bool, index: nat, s: nat, e: nat)
    requires index < |text| && Delimiters(text, fixed, index) == (s, e)
    ensures Search(text, fixed, index) == Round(s, e, Search(text, fixed, e + 2))
  {
  }

  /** A round that misses a delimiter ends the rounds. */
  lemma SearchMissed(text: string, fixed: bool, index: nat)
    requires index < |text| && var d := Delimiters(text, fixed, index); d.0 == -1 || d.1 == -1
    ensures Search(text, fixed, index) == NoMore
  {
  }

  /** From a round that finds `{{` at `s` and `}}` at `e`, the loop pushes it and goes on after the `}}`. */
  lemma BuildFound(text: string, fixed: bool, index: nat, t: Template, s: nat, e: nat)
    requires index < |text| && Delimiters(text, fixed, index) == (s, e)
    ensures Build(text, index, Search(text, fixed, index), t) == Build(text, e + 2, Search(text, fixed, e + 2), Push(text, index, s, e, t))
  {
    SearchFound(text, fixed, index, s, e);
    BuildNext(text, index, s, e, Search(text, fixed, e + 2), t);
  }

  /**
   * One round of compile that finds both delimiters, on the loop's own
   * variables before and after the round: the chunk before `{{` (if any)
   * and a placeholder are added to `concat`, the expression text to `raws`,
   * the placeholder's index to `positions`, and the tokenizer goes on after
   * `}}`, where it builds the same template as before the round.
   */
  lemma RoundFound(text: string, fixed: bool, index0: nat, concat0: seq<string>, raws0: seq<string>, positions0: seq<nat>, s: nat, e: nat,
                   index: nat, concat: seq<string>, raws: seq<string>, positions: seq<nat>)
    requires index0 < |text| && Delimiters(text, fixed, index0) == (s, e)
    requires var c := if index0 != s then concat0 + [Substring(text, index0, s)] else concat0;
      && index == e + 2 && concat == c + [""] && raws == raws0 + [Substring(text, s + 2, e)] && positions == positions0 + [|c|]
    ensures Build(text, index, Search(text, fixed, index), Template(concat, raws, positions))
      == Build(text, index0, Search(text, fixed, index0), Template(concat0, raws0, positions0))
  {
    var t := Template(concat0, raws0, positions0);
    BuildFound(text, fixed, index0, t, s, e);
    PushIs(text, index0, s, e, t, if index0 != s then concat0 + [Substring(text, index0, s)] else concat0);
  }

  /** From a round that misses a delimiter, the loop adds the rest of the text and stops. */
  lemma BuildMissed(text: string, fixed: bool, index: nat, t: Template)
    requires index < |text| && var d := Delimiters(text, fixed, index); d.0 == -1 || d.1 == -1
    ensures Build(text, index, Search(text, fixed, index), t)
      == Template(t.concat + [SubstringFrom(text, index)], t.raws, t.positions)
  {
    SearchMissed(text, fixed, index);
    BuildLast(text, index, t);
  }

  /**
   * The rounds are where the delimiters are: each `{{` at or after where
   * its round starts, each `}}` at or after two past it (and after the
   * `{{` when `fixed`), each round starting after the `}}` of the one
   * before.
   */
  ghost predicate Delimited(text: string, fixed: bool, index: nat, rounds: Rounds)
    decreases rounds
  {
    match rounds
    case NoMore => true
    case Round(s, e, rest) =>
      && index <= s && index + 2 <= e && (fixed ==> s + 2 <= e)
      && At(text, "{{", s) && At(text, "}}", e)
      && Delimited(text, fixed, e + 2, rest)
  }

  /** A round that finds real delimiters, in order, before rounds that do. */
  lemma DelimitedRound(text: string, fixed: bool, index: nat, s: nat, e: nat, rest: Rounds)
    requires index <= s && index + 2 <= e && (fixed ==> s + 2 <= e)
    requires At(text, "{{", s) && At(text, "}}", e) && Delimited(text, fixed, e + 2, rest)
    ensures Delimited(text, fixed, index, Round(s, e, rest))
  {
  }

  /** `expressions`: every expression trimmed, in order. */
  function TrimAll(raws: seq<string>): (r: seq<string>)
    ensures |r| == |raws|
  {
    if raws == [] then [] else TrimAll(raws[..|raws| - 1]) + [Trim(raws[|raws| - 1])]
  }

  /** Trimming one more expression text adds its trimmed form at the end. */
  lemma TrimAllSnoc(raws: seq<string>, raw: string)
    ensures TrimAll(raws + [raw]) == TrimAll(raws) + [Trim(raw)]
  {
    assert (raws + [raw])[..|raws|] == raws;
  }

  /** The `i`-th expression is the `i`-th expression text, trimmed. */
  lemma {:induction false} TrimAllEach(raws: seq<string>)
    ensures forall i :: 0 <= i < |raws| ==> TrimAll(raws)[i] == Trim(raws[i])
  {
    if raws != [] {
      var n := |raws| - 1;
      TrimAllEach(raws[..n]);
      assert forall i :: 0 <= i < n ==> raws[..n][i] == raws[i];
    }
  }

  /**
   * The placeholders are well placed: one per expression, each at a ""
   * chunk of `concat`, in increasing order.
   */
  ghost predicate Placeholders(concat: seq<string>, positions: seq<nat>, n: nat) {
    && |positions| == n
    && (forall i :: 0 <= i < |positions| ==> positions[i] < |concat| && concat[positions[i]] == "")
    && (forall i :: 0 < i < |positions| ==> positions[i - 1] < positions[i])
  }

  /** A literal chunk added at the end keeps the placeholders well placed. */
  lemma PlaceholdersLiteral(concat: seq<string>, positions: seq<nat>, n: nat, x: string)
    requires Placeholders(concat, positions, n)
    ensures Placeholders(concat + [x], positions, n)
  {
    forall i | 0 <= i < |positions|
      ensures (concat + [x])[positions[i]] == ""
    {
      assert (concat + [x])[positions[i]] == concat[positions[i]];
    }
  }

  /** A placeholder added at the end is well placed. */
  lemma PlaceholdersAdd(concat: seq<string>, positions: seq<nat>, n: nat)
    requires Placeholders(concat, positions, n)
    ensures Placeholders(concat + [""], positions + [|concat|], n + 1)
  {
    PlaceholdersLiteral(concat, positions, n, "");
  }

  /** A round keeps the placeholders well placed. */
  lemma PushPlaceholders(text: string, index: nat, s: int, e: int, t: Template)
    requires Placed(t)
    ensures Placed(Push(text, index, s, e, t))
  {
    var c := if index != s then t.concat + [Substring(text, index, s)] else t.concat;
    if index != s {
      PlaceholdersLiteral(t.concat, t.positions, |t.raws|, Substring(text, index, s));
    }
    PlaceholdersAdd(c, t.positions, |t.raws|);
  }

  /** Whatever the rounds, building keeps the placeholders well placed. */
  lemma {:induction false} BuildPlaceholders(text: string, index: nat, rounds: Rounds, t: Template)
    requires Placed(t)
    ensures Placed(Build(text, index, rounds, t))
    decreases rounds
  {
    match rounds
    case NoMore =>
      if index < |text| {
        PlaceholdersLiteral(t.concat, t.positions, |t.raws|, SubstringFrom(text, index));
      }
    case Round(s, e, rest) =>
      PushPlaceholders(text, index, s, e, t);
      BuildPlaceholders(text, e + 2, rest, Push(text, index, s, e, t));
  }

  /** The placeholders of `t` are well placed. */
  ghost predicate Placed(t: Template) {
    Placeholders(t.concat, t.positions, |t.raws|)
  }

  /**
   * A text without a `{{` followed by a `}}` has no expressions: it is one
   * literal chunk, or none when it is empty (mvc.js:200, 209-213).
   */
  lemma TokenizePlain(text: string)
    requires IndexOf(text, "{{", 0) == -1 || IndexOf(text, "}}", 2) == -1
    ensures Tokenize(text) == Template(if text == [] then [] else [text], [], [])
  {
    if text != [] {
      SearchMissed(text, false, 0);
      assert SubstringFrom(text, 0) == text;
    }
  }

  /**
   * The `compute` closure of compile (mvc.js:217), given the values of the
   * expressions: every placeholder is set to the value of its expression,
   * and the chunks are joined.
   */
  function Compute(concat: seq<string>, positions: seq<nat>, values: seq<string>): (r: string)
    requires |values| == |positions| && forall i :: 0 <= i < |positions| ==> positions[i] < |concat|
    ensures positions == [] ==> r == Join(concat)
    ensures |concat| == 1 && |positions| == 1 ==> r == values[0]
  {
    Join(Fill(concat, positions, values))
  }

  /** `positions.map((p, i) => concat[p] = values[i])` on a copy of `concat`. */
  function Fill(concat: seq<string>, positions: seq<nat>, values: seq<string>): (r: seq<string>)
    requires |values| == |positions| && forall i :: 0 <= i < |positions| ==> positions[i] < |concat|
    ensures |r| == |concat|
  {
    if positions == [] then concat
    else
      var n := |positions| - 1;
      Fill(concat, positions[..n], values[..n])[positions[n] := values[n]]
  }

  /** `xs.join('')`. */
  function Join(xs: seq<string>): (r: string)
    ensures |xs| == 1 ==> r == xs[0]
  {
    if xs == [] then [] else Join(xs[..|xs| - 1]) + xs[|xs| - 1]
  }

  lemma JoinSnoc(xs: seq<string>, x: string)
    ensures Join(xs + [x]) == Join(xs) + x
  {
    assert (xs + [x])[..|xs|] == xs;
  }

  /** A chunk added after every placeholder is left as it is. */
  lemma {:induction false} FillLiteral(concat: seq<string>, positions: seq<nat>, values: seq<string>, x: string)
    requires |values| == |positions| && forall i :: 0 <= i < |positions| ==> positions[i] < |concat|
    ensures Fill(concat + [x], positions, values) == Fill(concat, positions, values) + [x]
  {
    if positions != [] {
      var n := |positions| - 1;
      FillLiteral(concat, positions[..n], values[..n], x);
    }
  }

  /** A placeholder added last takes the value added last. */
  lemma FillPlaceholder(concat: seq<string>, positions: seq<nat>, values: seq<string>, v: string)
    requires |values| == |positions| && forall i :: 0 <= i < |positions| ==> positions[i] < |concat|
    ensures Fill(concat + [""], positions + [|concat|], values + [v]) == Fill(concat, positions, values) + [v]
  {
    var n := |positions|;
    assert (positions + [|concat|])[..n] == positions;
    assert (values + [v])[..n] == values;
    FillLiteral(concat, positions, values, "");
  }

  /** Every expression text put back between `{{` and `}}`. */
  function Wrap(raws: seq<string>): (r: seq<string>)
    ensures |r| == |raws|
  {
    if raws == [] then [] else Wrap(raws[..|raws| - 1]) + ["{{" + raws[|raws| - 1] + "}}"]
  }

  /** Every expression of `t` has a placeholder in `concat`, so that `compute` can fill it. */
  ghost predicate Fillable(t: Template) {
    |t.positions| == |t.raws| && forall i :: 0 <= i < |t.positions| ==> t.positions[i] < |t.concat|
  }

  /** The template built so far renders back the text before `index`. */
  ghost predicate RendersPrefix(text: string, index: nat, t: Template) {
    && index <= |text|
    && Fillable(t)
    && Compute(t.concat, t.positions, Wrap(t.raws)) == text[..index]
  }

  /**
   * Through rounds that find `}}` after their `{{`, filling every
   * placeholder with its expression text between `{{` and `}}` renders
   * back the whole text.
   */
  lemma {:induction false} BuildRoundTrip(text: string, index: nat, rounds: Rounds, t: Template)
    requires RendersPrefix(text, index, t) && Delimited(text, true, index, rounds)
    ensures RendersPrefix(text, |text|, Build(text, index, rounds, t))
    decreases rounds
  {
    match rounds
    case NoMore =>
      if index < |text| {
        RoundTripRest(text, index, t);
        BuildLast(text, index, t);
      } else {
        assert text[..index] == text[..|text|];
      }
    case Round(s, e, rest) =>
      DelimitedRest(text, index, s, e, rest);
      RoundTripStep(text, index, t, s, e);
      BuildRoundTrip(text, e + 2, rest, Push(text, index, s, e, t));
      BuildNext(text, index, s, e, rest, t);
  }

  /** A delimited first round has a `{{` and a `}}` after it, and delimited rounds after its `}}`. */
  lemma DelimitedRest(text: string, index: nat, s: nat, e: nat, rest: Rounds)
    requires Delimited(text, true, index, Round(s, e, rest))
    ensures index <= s && s + 2 <= e && At(text, "{{", s) && At(text, "}}", e)
    ensures Delimited(text, true, e + 2, rest)
  {
  }

  /** The rest of the text added as the last chunk completes the rendering. */
  lemma RoundTripRest(text: string, index: nat, t: Template)
    requires RendersPrefix(text, index, t)
    ensures RendersPrefix(text, |text|, Template(t.concat + [SubstringFrom(text, index)], t.raws, t.positions))
  {
    var rest := SubstringFrom(text, index);
    FillLiteral(t.concat, t.positions, Wrap(t.raws), rest);
    JoinSnoc(Fill(t.concat, t.positions, Wrap(t.raws)), rest);
    PrefixSplit(text, index, |text|);
    assert text[..|text|] == text;
  }

  /** One round of the corrected loop keeps the rendering equal to the text read. */
  lemma RoundTripStep(text: string, index: nat, t: Template, s: nat, e: nat)
    requires RendersPrefix(text, index, t) && index <= s && s + 2 <= e
    requires At(text, "{{", s) && At(text, "}}", e)
    ensures RendersPrefix(text, e + 2, Push(text, index, s, e, t))
  {
    var c := if index != s then t.concat + [Substring(text, index, s)] else t.concat;
    RoundTripLiteral(text, index, t, s);
    RoundTripExpression(text, Template(c, t.raws, t.positions), s, e);
  }

  /** The literal text before a `{{`, added unless empty, keeps the rendering equal to the text read. */
  lemma RoundTripLiteral(text: string, index: nat, t: Template, s: nat)
    requires RendersPrefix(text, index, t) && index <= s <= |text|
    ensures var c := if index != s then t.concat + [Substring(text, index, s)] else t.concat;
      RendersPrefix(text, s, Template(c, t.raws, t.positions))
  {
    if index != s {
      var w := Wrap(t.raws);
      FillLiteral(t.concat, t.positions, w, text[index..s]);
      JoinSnoc(Fill(t.concat, t.positions, w), text[index..s]);
      PrefixSplit(text, index, s);
    }
  }

  /** An expression between `{{` at `s` and `}}` at `e`, as a placeholder, keeps the rendering equal to the text read. */
  lemma RoundTripExpression(text: string, t: Template, s: nat, e: nat)
    requires RendersPrefix(text, s, t) && s + 2 <= e && e + 2 <= |text|
    requires text[s..s + 2] == "{{" && text[e..e + 2] == "}}"
    ensures RendersPrefix(text, e + 2, Template(t.concat + [""], t.raws + [Substring(text, s + 2, e)], t.positions + [|t.concat|]))
  {
    var raw := Substring(text, s + 2, e);
    assert raw == text[s + 2..e];
    var w := Wrap(t.raws);
    assert Wrap(t.raws + [raw]) == w + ["{{" + raw + "}}"];
    FillPlaceholder(t.concat, t.positions, w, "{{" + raw + "}}");
    JoinSnoc(Fill(t.concat, t.positions, w), "{{" + raw + "}}");
    Enclosed(text, s, e);
  }

  lemma PrefixSplit(x: string, i: nat, j: nat)
    requires i <= j <= |x|
    ensures x[..i] + x[i..j] == x[..j]
  {
  }

  /** The text up to a `}}` is the text before the `{{` and the expression between them, braces included. */
  lemma Enclosed(text: string, s: nat, e: nat)
    requires s + 2 <= e && e + 2 <= |text|
    requires text[s..s + 2] == "{{" && text[e..e + 2] == "}}"
    ensures text[..s] + ("{{" + text[s + 2..e] + "}}") == text[..e + 2]
  {
    var raw := text[s + 2..e];
    assert text[s + 2..e + 2] == raw + "}}";
    assert text[s..e + 2] == "{{" + (raw + "}}");
    assert "{{" + raw + "}}" == "{{" + (raw + "}}");
    assert text[..e + 2] == text[..s] + text[s..e + 2];
  }

  /** `IndexOf(s, pat, from)` is `r` when `pat` is at `r` and nowhere from `from` to `r`. */
  lemma IndexOfIs(s: string, pat: string, from: nat, r: nat)
    requires |pat| > 0 && from <= r && At(s, pat, r)
    requires forall k :: from <= k < r ==> !At(s, pat, k)
    ensures IndexOf(s, pat, from) == r
  {
    IndexOfFirst(s, pat, from);
  }

  /** Where the rounds over "ab}}c{{d}}" find their delimiters, as written. */
  lemma StrayDelimiters()
    ensures Delimiters("ab}}c{{d}}", false, 0) == (5, 2)
    ensures Delimiters("ab}}c{{d}}", false, 4) == (5, 8)
  {
    var text := "ab}}c{{d}}";
    forall k | 0 <= k < 5
      ensures !At(text, "{{", k)
    {
      assert text[k..k + 2][0] == text[k] != '{' by {
        assert text[..5] == "ab}}c";
        assert text[k] == text[..5][k];
      }
    }
    assert text[5..7] == "{{" && text[2..4] == "}}" && text[8..10] == "}}";
    IndexOfIs(text, "{{", 0, 5);
    IndexOfIs(text, "}}", 2, 2);
    IndexOfIs(text, "{{", 4, 5);
    forall k | 6 <= k < 8
      ensures !At(text, "}}", k)
    {
      assert text[k..k + 2][0] == text[k] != '}' by {
        assert text[6] == '{' && text[7] == 'd';
      }
    }
    IndexOfIs(text, "}}", 6, 8);
  }

  /** The rounds over "ab}}c{{d}}", as written: the first takes the `}}` at 2, before its `{{`. */
  lemma StrayRounds()
    ensures Search("ab}}c{{d}}", false, 0) == Round(5, 2, Round(5, 8, NoMore))
  {
    var text := "ab}}c{{d}}";
    StrayDelimiters();
    SearchFound(text, false, 0, 5, 2);
    SearchFound(text, false, 4, 5, 8);
    assert Search(text, false, 10) == NoMore;
  }

  /** What the two rounds over "ab}}c{{d}}" push, as written. */
  lemma StrayPushes()
    ensures Push("ab}}c{{d}}", 0, 5, 2, Empty) == Template(["ab}}c", ""], ["}}c{{"], [1])
    ensures Push("ab}}c{{d}}", 4, 5, 8, Template(["ab}}c", ""], ["}}c{{"], [1]))
         == Template(["ab}}c", "", "c", ""], ["}}c{{", "d"], [1, 3])
  {
    var text := "ab}}c{{d}}";
    assert Substring(text, 0, 5) == text[0..5] == "ab}}c";
    assert Substring(text, 7, 2) == text[2..7] == "}}c{{";
    assert Substring(text, 4, 5) == text[4..5] == "c";
    assert Substring(text, 7, 8) == text[7..8] == "d";
  }

  /**
   * As written, a `}}` before the `{{` closes the expression: for
   * "ab}}c{{d}}" the first expression is "}}c{{", the substring between
   * the `}}` at 2 and the `{{` at 5 with its bounds swapped, and "c" is
   * read twice, so the template does not render back.
   */
  lemma TokenizeStrayClose()
    ensures Tokenize("ab}}c{{d}}") == Template(["ab}}c", "", "c", ""], ["}}c{{", "d"], [1, 3])
    ensures var r := Tokenize("ab}}c{{d}}"); Compute(r.concat, r.positions, Wrap(r.raws)) != "ab}}c{{d}}"
  {
    var text := "ab}}c{{d}}";
    StrayRounds();
    StrayPushes();
    var t1 := Template(["ab}}c", ""], ["}}c{{"], [1]);
    var t2 := Template(["ab}}c", "", "c", ""], ["}}c{{", "d"], [1, 3]);
    assert Build(text, 10, NoMore, t2) == t2;
    assert Build(text, 4, Round(5, 8, NoMore), t1) == t2;
    assert Tokenize(text) == t2;
    StrayRendering(t2);
  }

  /** Rendering the as-written tokens of "ab}}c{{d}}" gives 20 characters, not the 10 of the text. */
  lemma StrayRendering(t: Template)
    requires t == Template(["ab}}c", "", "c", ""], ["}}c{{", "d"], [1, 3])
    ensures Placeholders(t.concat, t.positions, |t.raws|)
    ensures |Compute(t.concat, t.positions, Wrap(t.raws))| == 20
  {
    var w := Wrap(t.raws);
    assert w == Wrap(t.raws[..1]) + ["{{" + t.raws[1] + "}}"];
    assert t.raws[..1][..0] == [];
    assert Wrap(t.raws[..1]) == ["{{" + t.raws[0] + "}}"];
    assert |w| == 2 && |w[0]| == 9 && |w[1]| == 5;
    var f1 := Fill(t.concat, [1], [w[0]]);
    assert [1][..0] == [] && [w[0]][..0] == [];
    assert Fill(t.concat, [], []) == t.concat;
    assert f1 == Fill(t.concat, [], [])[1 := w[0]];
    assert f1 == t.concat[1 := w[0]];
    var f := Fill(t.concat, t.positions, w);
    assert t.positions[..1] == [1] && w[..1] == [w[0]];
    assert f == f1[3 := w[1]];
    assert Join(f) == Join(f[..3]) + f[3];
    assert Join(f[..3]) == Join(f[..2]) + f[2];
    assert Join(f[..2]) == Join(f[..1]) + f[1];
  }

  // === compile ===

  /** The template the loop of compile builds, as written or with the corrected search for `}}`. */
  function Tokenizer(text: string, fixed: bool): (r: Template)
    ensures Placeholders(r.concat, r.positions, |r.raws|)
    ensures fixed ==> Compute(r.concat, r.positions, Wrap(r.raws)) == text
  {
    if fixed then TokenizeFixed(text) else Tokenize(text)
  }

  /**
   * The loop of compile (mvc.js:188-215) over the template text: the
   * chunks, the trimmed expressions and the placeholder positions, as
   * Tokenize describes them; with `fixed`, `}}` is looked for after the
   * `{{`, as TokenizeFixed describes them, and the template renders back
   * the text.
   */
  method Compile(text: string, fixed: bool) returns (concat: seq<string>, expressions: seq<string>, positions: seq<nat>)
    ensures var t := Tokenizer(text, fixed);
      concat == t.concat && expressions == TrimAll(t.raws) && positions == t.positions
    ensures Placeholders(concat, positions, |expressions|)
  {
    var index: nat := 0;
    concat, expressions, positions := [], [], [];
    ghost var raws: seq<string> := [];
    while index < |text|
      invariant Build(text, index, Search(text, fixed, index), Template(concat, raws, positions)) == Tokenizer(text, fixed)
      invariant expressions == TrimAll(raws)
      decreases |text| - index
    {
      var startIndex := IndexOf(text, "{{", index);
      var endIndex := if startIndex == -1 then -1 else IndexOf(text, "}}", if fixed then startIndex + 2 else index + 2);
      DelimitersFound(text, fixed, index, startIndex, endIndex);
      if startIndex != -1 && endIndex != -1 {
        ghost var index0, concat0, raws0, positions0 := index, concat, raws, positions;
        if index != startIndex {
          concat := concat + [Substring(text, index, startIndex)];
        }
        var raw := Substring(text, startIndex + 2, endIndex);
        TrimAllSnoc(raws, raw);
        expressions := expressions + [Trim(raw)];
        raws := raws + [raw];
        index := endIndex + 2;
        positions := positions + [|concat|];
        concat := concat + [""];
        RoundFound(text, fixed, index0, concat0, raws0, positions0, startIndex, endIndex, index, concat, raws, positions);
      } else {
        BuildMissed(text, fixed, index, Template(concat, raws, positions));
        if index != |text| {
          concat := concat + [SubstringFrom(text, index)];
        }
        break;
      }
    }
    if index >= |text| {
      BuildDone(text, fixed, index, Template(concat, raws, positions));
    }
  }
}
