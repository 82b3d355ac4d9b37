/**
 * The pass over a Markdown tree that keeps `[` and `\[` in text from being escaped
 * by the serializer: each text node holding one is split around them, and the
 * brackets become raw html nodes, which the serializer copies as they are.
 */
module Brackets {
  import opened HtmlTree

  // ---------------------------------------------------------------------------
  // `value.split(/(\\{0,1}\[)/)`

  /**
   * The pieces of `s` around each `[` or `\[`, the separators kept at the odd
   * positions. A backslash not followed by `[` is ordinary text.
   */
  function Split(s: string): (r: seq<string>)
    ensures |r| % 2 == 1
  {
    if s == [] then [""]
    else if s[0] == '[' then ["", "["] + Split(s[1..])
    else if s[0] == '\\' && |s| >= 2 && s[1] == '[' then ["", "\\["] + Split(s[2..])
    else
      var t := Split(s[1..]);
      [[s[0]] + t[0]] + t[1..]
  }

  /** The pieces put back together. */
  function Join(ps: seq<string>): string
  {
    if ps == [] then "" else ps[0] + Join(ps[1..])
  }

  lemma {:induction false} JoinSnoc(ps: seq<string>, p: string)
    ensures Join(ps + [p]) == Join(ps) + p
  {
    if ps != [] {
      assert (ps + [p])[1..] == ps[1..] + [p];
      JoinSnoc(ps[1..], p);
    }
  }

  predicate IsSeparator(p: string)
  {
    p == "[" || p == "\\["
  }

  lemma {:induction false} SplitJoin(s: string)
    ensures Join(Split(s)) == s
  {
    if s == [] {
    } else if s[0] == '[' {
      SplitJoin(s[1..]);
      assert (["", "["] + Split(s[1..]))[2..] == Split(s[1..]);
      assert s == "[" + s[1..];
    } else if s[0] == '\\' && |s| >= 2 && s[1] == '[' {
      SplitJoin(s[2..]);
      assert (["", "\\["] + Split(s[2..]))[2..] == Split(s[2..]);
      assert s == "\\[" + s[2..];
    } else {
      var t := Split(s[1..]);
      SplitJoin(s[1..]);
      assert ([[s[0]] + t[0]] + t[1..])[1..] == t[1..];
      assert s == [s[0]] + s[1..];
    }
  }

  lemma {:induction false} SplitShape(s: string)
    ensures forall j :: 0 <= j < |Split(s)| && j % 2 == 0 ==> '[' !in Split(s)[j]
    ensures forall j :: 0 <= j < |Split(s)| && j % 2 == 1 ==> IsSeparator(Split(s)[j])
  {
    var r := Split(s);
    if s == [] {
    } else if s[0] == '[' || (s[0] == '\\' && |s| >= 2 && s[1] == '[') {
      var t := if s[0] == '[' then Split(s[1..]) else Split(s[2..]);
      if s[0] == '[' { SplitShape(s[1..]); } else { SplitShape(s[2..]); }
      assert r[2..] == t;
      forall j | 2 <= j < |r| ensures r[j] == t[j - 2] { }
    } else {
      SplitShape(s[1..]);
      var t := Split(s[1..]);
      assert r[0] == [s[0]] + t[0];
      forall j | 1 <= j < |r| ensures r[j] == t[j] { }
    }
  }

  lemma {:induction false} SplitNoBracket(s: string)
    requires '[' !in s
    ensures Split(s) == [s]
  {
    if s != [] {
      assert s[0] != '[';
      assert |s| >= 2 ==> s[1] != '[';
      SplitNoBracket(s[1..]);
      assert s == [s[0]] + s[1..];
    }
  }

  lemma {:induction false} SplitAtBracket(s: string)
    requires '[' in s
    ensures |Split(s)| > 1
  {
    if s[0] != '[' && !(s[0] == '\\' && |s| >= 2 && s[1] == '[') {
      assert '[' in s[1..] by {
        var j :| 0 <= j < |s| && s[j] == '[';
        assert s[1..][j - 1] == '[';
      }
      SplitAtBracket(s[1..]);
    }
  }

  /**
   * Splitting loses nothing, the separators sit at the odd positions and the text
   * between them holds no `[`, and a string splits into more than one piece
   * exactly when it holds a `[`.
   */
  lemma SplitFacts(s: string)
    ensures Join(Split(s)) == s
    ensures forall j :: 0 <= j < |Split(s)| && j % 2 == 0 ==> '[' !in Split(s)[j]
    ensures forall j :: 0 <= j < |Split(s)| && j % 2 == 1 ==> IsSeparator(Split(s)[j])
    ensures |Split(s)| == 1 <==> '[' !in s
    ensures '[' !in s ==> Split(s) == [s]
  {
    SplitJoin(s);
    SplitShape(s);
    if '[' in s {
      SplitAtBracket(s);
    } else {
      SplitNoBracket(s);
    }
  }

  // ---------------------------------------------------------------------------
  // The rewrite, specified on values

  /** Text pieces at even positions, the separators as raw html at odd ones. */
  function PieceNodes(ps: seq<string>): (r: seq<Node>)
    ensures |r| == |ps|
    ensures forall j :: 0 <= j < |ps| ==> r[j] == if j % 2 == 0 then Text(ps[j]) else Html(ps[j])
  {
    seq(|ps|, j requires 0 <= j < |ps| => if j % 2 == 0 then Text(ps[j]) else Html(ps[j]))
  }

  /** What one node becomes: a text node is replaced by its pieces, a parent has its children rewritten. */
  function UnescapeNode(n: Node): (r: seq<Node>)
    ensures |r| >= 1
    decreases n, 1
  {
    if n.Text? then PieceNodes(Split(n.value))
    else if HasChildren(n) then [WithChildren(n, UnescapeSeq(n.children))]
    else [n]
  }

  function UnescapeSeq(cs: seq<Node>): seq<Node>
    decreases cs, 0
  {
    if cs == [] then [] else UnescapeSeq(cs[..|cs| - 1]) + UnescapeNode(cs[|cs| - 1])
  }

  /** No text node anywhere in the forest holds a `[`. */
  predicate BracketFree(cs: seq<Node>)
    decreases cs, 0
  {
    forall j :: 0 <= j < |cs| ==> NodeBracketFree(cs[j])
  }

  predicate NodeBracketFree(n: Node)
    decreases n, 1
  {
    && (n.Text? ==> '[' !in n.value)
    && (HasChildren(n) ==> BracketFree(n.children))
  }

  lemma BracketFreeConcat(a: seq<Node>, b: seq<Node>)
    ensures BracketFree(a + b) <==> BracketFree(a) && BracketFree(b)
  {
    if BracketFree(a + b) {
      forall j | 0 <= j < |b| ensures NodeBracketFree(b[j]) {
        assert (a + b)[|a| + j] == b[j];
      }
      forall j | 0 <= j < |a| ensures NodeBracketFree(a[j]) {
        assert (a + b)[j] == a[j];
      }
    }
  }

  /** After the pass no text node holds a `[`. */
  lemma {:induction false} UnescapeIsBracketFree(cs: seq<Node>)
    ensures BracketFree(UnescapeSeq(cs))
    decreases cs, 0
  {
    if cs != [] {
      var init, last := cs[..|cs| - 1], cs[|cs| - 1];
      UnescapeIsBracketFree(init);
      UnescapeNodeIsBracketFree(last);
      BracketFreeConcat(UnescapeSeq(init), UnescapeNode(last));
    }
  }

  lemma {:induction false} UnescapeNodeIsBracketFree(n: Node)
    ensures BracketFree(UnescapeNode(n))
    decreases n, 1
  {
    if n.Text? {
      SplitFacts(n.value);
    } else if HasChildren(n) {
      UnescapeIsBracketFree(n.children);
      assert NodeBracketFree(UnescapeNode(n)[0]);
    }
  }

  /** A forest without a `[` in its text is left as it is. */
  lemma {:induction false} BracketFreeIsFixed(cs: seq<Node>)
    requires BracketFree(cs)
    ensures UnescapeSeq(cs) == cs
    decreases cs, 0
  {
    if cs != [] {
      var init, last := cs[..|cs| - 1], cs[|cs| - 1];
      assert BracketFree(init) by { BracketFreeConcat(init, [last]); assert cs == init + [last]; }
      assert NodeBracketFree(last);
      BracketFreeIsFixed(init);
      if last.Text? {
        SplitFacts(last.value);
        assert PieceNodes([last.value]) == [last];
      } else if HasChildren(last) {
        BracketFreeIsFixed(last.children);
      }
      assert UnescapeNode(last) == [last];
      assert cs == init + [last];
    }
  }

  /**
   * The pass leaves a forest unchanged exactly when no text node in it holds a
   * `[`, so running it a second time changes nothing.
   */
  lemma UnescapeFixedIff(cs: seq<Node>)
    ensures UnescapeSeq(cs) == cs <==> BracketFree(cs)
    ensures UnescapeSeq(UnescapeSeq(cs)) == UnescapeSeq(cs)
  {
    UnescapeIsBracketFree(cs);
    if BracketFree(cs) {
      BracketFreeIsFixed(cs);
    }
    BracketFreeIsFixed(UnescapeSeq(cs));
  }

  // ---------------------------------------------------------------------------
  // The characters of the document are kept, in order

  /** Every string value of the forest, in document order. */
  function Chars(cs: seq<Node>): string
    decreases cs, 0
  {
    if cs == [] then "" else Chars(cs[..|cs| - 1]) + NodeChars(cs[|cs| - 1])
  }

  function NodeChars(n: Node): string
    decreases n, 1
  {
    if HasValue(n) then n.value
    else if HasChildren(n) then Chars(n.children)
    else ""
  }

  lemma {:induction false} CharsConcat(a: seq<Node>, b: seq<Node>)
    ensures Chars(a + b) == Chars(a) + Chars(b)
    decreases |b|
  {
    if b == [] {
      assert a + b == a;
    } else {
      var init := b[..|b| - 1];
      assert (a + b)[..|a + b| - 1] == a + init;
      CharsConcat(a, init);
    }
  }

  lemma {:induction false} PieceChars(ps: seq<string>)
    ensures Chars(PieceNodes(ps)) == Join(ps)
  {
    if ps != [] {
      var init := ps[..|ps| - 1];
      assert PieceNodes(ps)[..|ps| - 1] == PieceNodes(init);
      PieceChars(init);
      JoinSnoc(init, ps[|ps| - 1]);
      assert init + [ps[|ps| - 1]] == ps;
    }
  }

  /** The pass moves characters between text and raw html nodes but adds, drops or reorders none. */
  lemma {:induction false} UnescapeKeepsChars(cs: seq<Node>)
    ensures Chars(UnescapeSeq(cs)) == Chars(cs)
    decreases cs, 0
  {
    if cs != [] {
      var init, last := cs[..|cs| - 1], cs[|cs| - 1];
      UnescapeKeepsChars(init);
      UnescapeNodeKeepsChars(last);
      CharsConcat(UnescapeSeq(init), UnescapeNode(last));
    }
  }

  lemma {:induction false} UnescapeNodeKeepsChars(n: Node)
    ensures Chars(UnescapeNode(n)) == NodeChars(n)
    decreases n, 1
  {
    var r := UnescapeNode(n);
    if n.Text? {
      PieceChars(Split(n.value));
      SplitFacts(n.value);
    } else {
      if HasChildren(n) {
        UnescapeKeepsChars(n.children);
      }
      assert r[..0] == [];
      assert Chars(r) == Chars([]) + NodeChars(r[0]);
    }
  }

  // ---------------------------------------------------------------------------
  // The walk as the source performs it

  function Max(a: nat, b: nat): nat
  {
    if a < b then b else a
  }

  function Height(n: Node): nat
    decreases n, 1
  {
    if HasChildren(n) then 1 + HeightSeq(n.children) else 0
  }

  function HeightSeq(cs: seq<Node>): nat
    decreases cs, 0
  {
    if cs == [] then 0 else Max(Height(cs[0]), HeightSeq(cs[1..]))
  }

  lemma {:induction false} HeightSeqAt(cs: seq<Node>, j: int)
    requires 0 <= j < |cs|
    ensures Height(cs[j]) <= HeightSeq(cs)
  {
    if j > 0 {
      HeightSeqAt(cs[1..], j - 1);
    }
  }

  lemma {:induction false} HeightSeqBound(cs: seq<Node>, h: nat)
    requires forall j :: 0 <= j < |cs| ==> Height(cs[j]) <= h
    ensures HeightSeq(cs) <= h
  {
    if cs != [] {
      HeightSeqBound(cs[1..], h);
    }
  }

  /** The pass never deepens the tree. */
  lemma {:induction false} UnescapeHeight(cs: seq<Node>)
    ensures forall j :: 0 <= j < |UnescapeSeq(cs)| ==> Height(UnescapeSeq(cs)[j]) <= HeightSeq(cs)
    decreases cs, 0
  {
    if cs != [] {
      var init, last := cs[..|cs| - 1], cs[|cs| - 1];
      var a, b := UnescapeSeq(init), UnescapeNode(last);
      UnescapeHeight(init);
      forall j | 0 <= j < |init| ensures Height(init[j]) <= HeightSeq(cs) {
        assert init[j] == cs[j];
        HeightSeqAt(cs, j);
      }
      HeightSeqBound(init, HeightSeq(cs));
      HeightSeqAt(cs, |cs| - 1);
      if HasChildren(last) {
        UnescapeHeight(last.children);
        HeightSeqBound(UnescapeSeq(last.children), HeightSeq(last.children));
      }
      forall j | 0 <= j < |a + b| ensures Height((a + b)[j]) <= HeightSeq(cs) {
        if j < |a| { assert (a + b)[j] == a[j]; } else { assert (a + b)[j] == b[j - |a|]; }
      }
    }
  }

  lemma WithOwnChildren(n: Node)
    requires HasChildren(n)
    ensures WithChildren(n, n.children) == n
  {
  }

  /** Every node of `cs` is at most `h` deep. */
  predicate Bounded(cs: seq<Node>, h: nat)
  {
    forall j :: 0 <= j < |cs| ==> Height(cs[j]) <= h
  }

  /**
   * The state of the walk over the children `cs` of one parent: the first `k`
   * original children have been rewritten, their rewrite fills `cur` up to `Done`,
   * and the walk stands at `i`, never past that point.
   */
  ghost predicate Walking(cs: seq<Node>, k: int, cur: seq<Node>, i: int)
  {
    && 0 <= k <= |cs|
    && cur == UnescapeSeq(cs[..k]) + cs[k..]
    && 0 <= i <= |UnescapeSeq(cs[..k])|
    && Bounded(cur, HeightSeq(cs))
  }

  lemma WalkStart(cs: seq<Node>)
    ensures Walking(cs, 0, cs, 0)
  {
    assert cs[..0] == [] && cs[0..] == cs;
    forall j | 0 <= j < |cs| ensures Height(cs[j]) <= HeightSeq(cs) {
      HeightSeqAt(cs, j);
    }
  }

  lemma WalkEnd(cs: seq<Node>, k: int, cur: seq<Node>, i: int)
    requires Walking(cs, k, cur, i) && i >= |cur|
    ensures cur == UnescapeSeq(cs)
  {
    assert k == |cs|;
    assert cs[..k] == cs;
  }

  /** The node at `i` in the walk is no deeper than the forest the walk started from. */
  lemma WalkHeight(cs: seq<Node>, k: int, cur: seq<Node>, i: int)
    requires Walking(cs, k, cur, i) && i < |cur|
    ensures Height(cur[i]) <= HeightSeq(cs)
  {
  }

  /** At the end of the rewritten part the walk meets the next original child. */
  lemma WalkAtNext(cs: seq<Node>, k: int, cur: seq<Node>, i: int)
    requires Walking(cs, k, cur, i) && i < |cur| && i == |UnescapeSeq(cs[..k])|
    ensures k < |cs| && cur[i] == cs[k]
  {
  }

  /** Before that point it meets a node already rewritten, which holds no `[` in its text. */
  lemma WalkRevisit(cs: seq<Node>, k: int, cur: seq<Node>, i: int)
    requires Walking(cs, k, cur, i) && i < |UnescapeSeq(cs[..k])|
    ensures NodeBracketFree(cur[i])
    ensures Walking(cs, k, cur, i + 1)
  {
    UnescapeIsBracketFree(cs[..k]);
    assert cur[i] == UnescapeSeq(cs[..k])[i];
  }

  /** Replacing the next original child by its rewrite moves the rewritten part one child on. */
  lemma WalkAdvance(cs: seq<Node>, k: int, cur: seq<Node>, i: int, repl: seq<Node>, next: int)
    requires Walking(cs, k, cur, i) && i == |UnescapeSeq(cs[..k])| && k < |cs|
    requires repl == UnescapeNode(cs[k]) && Bounded(repl, HeightSeq(cs))
    requires 0 <= next <= i + |repl|
    ensures Walking(cs, k + 1, cur[..i] + repl + cur[i + 1..], next)
  {
    var done := UnescapeSeq(cs[..k]);
    assert cs[..k + 1][..k] == cs[..k];
    assert UnescapeSeq(cs[..k + 1]) == done + repl;
    assert cur[..i] == done;
    assert cur[i + 1..] == cs[k + 1..];
    var c' := cur[..i] + repl + cur[i + 1..];
    forall j | 0 <= j < |c'| ensures Height(c'[j]) <= HeightSeq(cs) {
      if j < i {
        assert c'[j] == cur[j];
      } else if j < i + |repl| {
        assert c'[j] == repl[j - i];
      } else {
        assert c'[j] == cur[j - |repl| + 1];
      }
    }
  }

  lemma SpliceOwn(cur: seq<Node>, i: int)
    requires 0 <= i < |cur|
    ensures cur[..i] + [cur[i]] + cur[i + 1..] == cur
  {
  }

  /** A text node that splits is always met for the first time, and its pieces replace it. */
  lemma StepSplit(cs: seq<Node>, k: int, cur: seq<Node>, i: int)
    requires Walking(cs, k, cur, i) && i < |cur| && cur[i].Text? && |Split(cur[i].value)| > 1
    ensures Walking(cs, k + 1, cur[..i] + PieceNodes(Split(cur[i].value)) + cur[i + 1..], |Split(cur[i].value)|)
  {
    SplitFacts(cur[i].value);
    if i < |UnescapeSeq(cs[..k])| {
      WalkRevisit(cs, k, cur, i);
    }
    WalkAtNext(cs, k, cur, i);
    WalkAdvance(cs, k, cur, i, PieceNodes(Split(cur[i].value)), |Split(cur[i].value)|);
  }

  /** A node the pass leaves as it is: the walk steps over it. */
  lemma StepKeep(cs: seq<Node>, k: int, cur: seq<Node>, i: int) returns (k': int)
    requires Walking(cs, k, cur, i) && i < |cur| && UnescapeNode(cur[i]) == [cur[i]]
    ensures k <= k' && Walking(cs, k', cur, i + 1)
  {
    if i < |UnescapeSeq(cs[..k])| {
      WalkRevisit(cs, k, cur, i);
      k' := k;
    } else {
      WalkAtNext(cs, k, cur, i);
      WalkHeight(cs, k, cur, i);
      SpliceOwn(cur, i);
      WalkAdvance(cs, k, cur, i, [cur[i]], i + 1);
      k' := k + 1;
    }
  }

  /** A parent whose children have been walked: it takes its rewritten children. */
  lemma StepParent(cs: seq<Node>, k: int, cur: seq<Node>, i: int, sub: seq<Node>) returns (k': int)
    requires Walking(cs, k, cur, i) && i < |cur| && HasChildren(cur[i]) && sub == UnescapeSeq(cur[i].children)
    ensures k <= k' && Walking(cs, k', cur[..i] + [WithChildren(cur[i], sub)] + cur[i + 1..], i + 1)
    ensures k' == k ==> cur[..i] + [WithChildren(cur[i], sub)] + cur[i + 1..] == cur
  {
    var node := cur[i];
    if i < |UnescapeSeq(cs[..k])| {
      WalkRevisit(cs, k, cur, i);
      BracketFreeIsFixed(node.children);
      WithOwnChildren(node);
      SpliceOwn(cur, i);
      k' := k;
    } else {
      WalkAtNext(cs, k, cur, i);
      WalkHeight(cs, k, cur, i);
      UnescapeHeight(node.children);
      HeightSeqBound(sub, HeightSeq(node.children));
      WalkAdvance(cs, k, cur, i, [WithChildren(node, sub)], i + 1);
      k' := k + 1;
    }
  }

  /**
   * The children of one parent as the visitor leaves them. At a text node that
   * splits, the pieces replace it and the walk resumes at the index equal to the
   * number of pieces, counted from the start of the parent: when the node was not
   * the first child this goes back over pieces and siblings already done, which
   * the pass leaves unchanged the second time. Parents are walked into.
   */
  method UnescapeBracketChildren(cs: seq<Node>) returns (r: seq<Node>)
    ensures r == UnescapeSeq(cs)
    decreases HeightSeq(cs)
  {
    var cur := cs;
    var i := 0;
    ghost var k := 0;
    WalkStart(cs);
    while i < |cur|
      invariant Walking(cs, k, cur, i)
      decreases |cs| - k, |cur| - i
    {
      var node := cur[i];
      if node.Text? {
        var s := Split(node.value);
        if |s| > 1 {
          StepSplit(cs, k, cur, i);
          cur := cur[..i] + PieceNodes(s) + cur[i + 1..];
          i := |s|;
          k := k + 1;
        } else {
          SplitFacts(node.value);
          k := StepKeep(cs, k, cur, i);
          i := i + 1;
        }
      } else if HasChildren(node) {
        WalkHeight(cs, k, cur, i);
        var sub := UnescapeBracketChildren(node.children);
        k := StepParent(cs, k, cur, i, sub);
        cur := cur[..i] + [WithChildren(node, sub)] + cur[i + 1..];
        i := i + 1;
      } else {
        k := StepKeep(cs, k, cur, i);
        i := i + 1;
      }
    }
    WalkEnd(cs, k, cur, i);
    r := cur;
  }

  /** The pass, applied to the root of a Markdown tree. */
  method UnescapeBracketTransformer(tree: Tree)
    modifies tree
    ensures tree.children == UnescapeSeq(old(tree.children))
  {
    tree.children := UnescapeBracketChildren(tree.children);
  }
}
