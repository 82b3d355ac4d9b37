/**
 * The pass over a Markdown tree that deals with the space characters editors use
 * for layout: no-break space (U+00A0), en space (U+2002) and em space (U+2003).
 * Depending on the mode it leaves them, rejects the document, or turns them into
 * plain spaces everywhere or only inside code blocks.
 */
module SpaceChars {
  import opened Wrappers
  import opened HtmlTree

  predicate IsUnusualSpace(c: char)
  {
    c == '\U{00A0}' || c == '\U{2002}' || c == '\U{2003}'
  }

  predicate HasUnusualSpace(s: string)
  {
    exists i :: 0 <= i < |s| && IsUnusualSpace(s[i])
  }

  /** `s.replace(/[   ]/g, ' ')` */
  function NormalizeSpaces(s: string): (r: string)
    ensures |r| == |s|
    ensures forall i :: 0 <= i < |s| ==> r[i] == if IsUnusualSpace(s[i]) then ' ' else s[i]
  {
    if s == [] then []
    else [if IsUnusualSpace(s[0]) then ' ' else s[0]] + NormalizeSpaces(s[1..])
  }

  /** The replacement leaves no unusual space, and changes nothing in a string without one. */
  lemma NormalizeSpacesClears(s: string)
    ensures !HasUnusualSpace(NormalizeSpaces(s))
    ensures NormalizeSpaces(s) == s <==> !HasUnusualSpace(s)
  {
    var r := NormalizeSpaces(s);
    if HasUnusualSpace(s) {
      var i :| 0 <= i < |s| && IsUnusualSpace(s[i]);
      assert r[i] != s[i];
    }
  }

  datatype SpaceMode = ModeNone | ModeThrow | ModeNormalize | ModeNormalizeInCodeBlock

  /**
   * The nodes the visitor is called on: none when the mode is absent or `none`;
   * text, emphasis, strong, inline code and code for `throw` and `normalize`; code
   * blocks only for `normalizeInCodeBlock`.
   */
  predicate Visited(mode: Option<SpaceMode>, n: Node)
  {
    match mode
    case None => false
    case Some(m) =>
      match m
      case ModeNone => false
      case ModeThrow => n.Text? || n.Emphasis? || n.Strong? || n.InlineCode? || n.Code?
      case ModeNormalize => n.Text? || n.Emphasis? || n.Strong? || n.InlineCode? || n.Code?
      case ModeNormalizeInCodeBlock => n.Code?
  }

  /** A visited node whose string value holds an unusual space (emphasis and strong have no value). */
  predicate Offends(mode: Option<SpaceMode>, n: Node)
  {
    Visited(mode, n) && HasValue(n) && HasUnusualSpace(n.value)
  }

  predicate Normalizing(mode: Option<SpaceMode>)
  {
    mode == Some(ModeNormalize) || mode == Some(ModeNormalizeInCodeBlock)
  }

  // ---------------------------------------------------------------------------
  // What the walk does to each node

  function NormalizeNode(mode: Option<SpaceMode>, n: Node): Node
    decreases n, 1
  {
    if HasChildren(n) then WithChildren(n, NormalizeIn(mode, n.children))
    else if Visited(mode, n) && HasValue(n) then WithValue(n, NormalizeSpaces(n.value))
    else n
  }

  function NormalizeIn(mode: Option<SpaceMode>, s: seq<Node>): (r: seq<Node>)
    ensures |r| == |s|
    decreases s, 0
  {
    if s == [] then [] else [NormalizeNode(mode, s[0])] + NormalizeIn(mode, s[1..])
  }

  /** The value of the first offending node in visiting order, which the `throw` mode reports. */
  function FirstOffender(mode: Option<SpaceMode>, n: Node): Option<string>
    decreases n, 1
  {
    if Offends(mode, n) then Some(n.value)
    else if HasChildren(n) then FirstOffenderIn(mode, n.children)
    else None
  }

  function FirstOffenderIn(mode: Option<SpaceMode>, s: seq<Node>): Option<string>
    decreases s, 0
  {
    if s == [] then None
    else
      match FirstOffender(mode, s[0])
      case Some(v) => Some(v)
      case None => FirstOffenderIn(mode, s[1..])
  }

  const UnusualSpaceError: string := "normalizeSpaceCharsTransformer: Unusual space char is existed:"

  /** The root's children after the pass, or the error `throw` mode raises. */
  function NormalizeSpaceChars(mode: Option<SpaceMode>, cs: seq<Node>): Result<seq<Node>>
  {
    if mode == Some(ModeThrow) then
      match FirstOffenderIn(mode, cs)
      case None => Ok(cs)
      case Some(v) => Err(UnusualSpaceError + v)
    else if Normalizing(mode) then Ok(NormalizeIn(mode, cs))
    else Ok(cs)
  }

  /** The pass rewrites the values of the tree's nodes in place. */
  method NormalizeSpaceCharsTransformer(tree: Tree, mode: Option<SpaceMode>) returns (err: Option<string>)
    modifies tree
    ensures NormalizeSpaceChars(mode, old(tree.children)).Ok? ==>
              err == None && tree.children == NormalizeSpaceChars(mode, old(tree.children)).value
    ensures NormalizeSpaceChars(mode, old(tree.children)).Err? ==>
              err == Some(NormalizeSpaceChars(mode, old(tree.children)).message) &&
              tree.children == old(tree.children)
  {
    var r := NormalizeSpaceChars(mode, tree.children);
    if r.Err? {
      return Some(r.message);
    }
    tree.children := r.value;
    return None;
  }

  // ---------------------------------------------------------------------------
  // Properties

  /** `b` is what normalization makes of the node `a`, looking at the node itself only. */
  predicate Corresponds(mode: Option<SpaceMode>, a: Node, b: Node)
  {
    && SameKind(a, b)
    && (HasValue(a) ==> b.value == if Visited(mode, a) then NormalizeSpaces(a.value) else a.value)
  }

  predicate CorrespondAll(mode: Option<SpaceMode>, xs: seq<Node>, ys: seq<Node>)
  {
    |xs| == |ys| && forall i :: 0 <= i < |xs| ==> Corresponds(mode, xs[i], ys[i])
  }

  lemma CorrespondConcat(mode: Option<SpaceMode>, a: seq<Node>, b: seq<Node>, c: seq<Node>, d: seq<Node>)
    requires CorrespondAll(mode, a, c) && CorrespondAll(mode, b, d)
    ensures CorrespondAll(mode, a + b, c + d)
  {
    forall i | 0 <= i < |a + b|
      ensures Corresponds(mode, (a + b)[i], (c + d)[i])
    {
      if i >= |a| {
        assert (a + b)[i] == b[i - |a|] && (c + d)[i] == d[i - |a|];
      }
    }
  }

  /**
   * Normalization keeps the shape of the tree: the walks over the old and the new
   * tree meet the same kinds of nodes in the same order, each visited value is
   * normalized, and every other value is unchanged.
   */
  lemma {:induction false} NormalizeNodeCorresponds(mode: Option<SpaceMode>, n: Node)
    ensures CorrespondAll(mode, NodesOf(n), NodesOf(NormalizeNode(mode, n)))
    decreases n, 1
  {
    var m := NormalizeNode(mode, n);
    if HasChildren(n) {
      NormalizeInCorresponds(mode, n.children);
      CorrespondConcat(mode, [n], NodesIn(n.children), [m], NodesIn(m.children));
    } else {
      assert NodesOf(n) == [n] && NodesOf(m) == [m];
    }
  }

  lemma {:induction false} NormalizeInCorresponds(mode: Option<SpaceMode>, s: seq<Node>)
    ensures CorrespondAll(mode, NodesIn(s), NodesIn(NormalizeIn(mode, s)))
    decreases s, 0
  {
    if s != [] {
      var r := NormalizeIn(mode, s);
      assert r[0] == NormalizeNode(mode, s[0]) && r[1..] == NormalizeIn(mode, s[1..]);
      NormalizeNodeCorresponds(mode, s[0]);
      NormalizeInCorresponds(mode, s[1..]);
      CorrespondConcat(mode, NodesOf(s[0]), NodesIn(s[1..]), NodesOf(r[0]), NodesIn(r[1..]));
    }
  }

  /** No node of `ns` offends. */
  predicate Clean(mode: Option<SpaceMode>, ns: seq<Node>)
  {
    forall i :: 0 <= i < |ns| ==> !Offends(mode, ns[i])
  }

  /** `ns[i]` is the first offending node of `ns`, and its value is `v`. */
  predicate FirstAt(mode: Option<SpaceMode>, ns: seq<Node>, i: int, v: string)
  {
    0 <= i < |ns| && Offends(mode, ns[i]) && ns[i].value == v && Clean(mode, ns[..i])
  }

  lemma CleanConcat(mode: Option<SpaceMode>, a: seq<Node>, b: seq<Node>)
    ensures Clean(mode, a + b) <==> Clean(mode, a) && Clean(mode, b)
  {
    if Clean(mode, a) && Clean(mode, b) {
      forall k | 0 <= k < |a + b| ensures !Offends(mode, (a + b)[k]) {
        if k >= |a| { assert (a + b)[k] == b[k - |a|]; } else { assert (a + b)[k] == a[k]; }
      }
    }
    if Clean(mode, a + b) {
      forall k | 0 <= k < |b| ensures !Offends(mode, b[k]) {
        assert (a + b)[|a| + k] == b[k];
      }
      forall k | 0 <= k < |a| ensures !Offends(mode, a[k]) {
        assert (a + b)[k] == a[k];
      }
    }
  }

  lemma FirstAtConcat(mode: Option<SpaceMode>, a: seq<Node>, b: seq<Node>, i: int, v: string)
    ensures FirstAt(mode, a, i, v) ==> FirstAt(mode, a + b, i, v)
    ensures Clean(mode, a) && FirstAt(mode, b, i, v) ==> FirstAt(mode, a + b, |a| + i, v)
  {
    if FirstAt(mode, a, i, v) {
      assert (a + b)[..i] == a[..i];
    }
    if Clean(mode, a) && FirstAt(mode, b, i, v) {
      assert (a + b)[..|a| + i] == a + b[..i];
      CleanConcat(mode, a, b[..i]);
    }
  }

  /** `throw` fails exactly when some node the walk visits holds an unusual space in its value. */
  lemma {:induction false} FirstOffenderIff(mode: Option<SpaceMode>, s: seq<Node>)
    ensures FirstOffenderIn(mode, s).None? <==> Clean(mode, NodesIn(s))
    ensures FirstOffenderIn(mode, s).Some? ==>
              exists i :: FirstAt(mode, NodesIn(s), i, FirstOffenderIn(mode, s).value)
    decreases s, 0
  {
    if s != [] {
      FirstOffenderNodeIff(mode, s[0]);
      FirstOffenderIff(mode, s[1..]);
      var a, b := NodesOf(s[0]), NodesIn(s[1..]);
      assert NodesIn(s) == a + b;
      CleanConcat(mode, a, b);
      if FirstOffender(mode, s[0]).None? {
        if FirstOffenderIn(mode, s[1..]).Some? {
          var v := FirstOffenderIn(mode, s[1..]).value;
          var i :| FirstAt(mode, b, i, v);
          FirstAtConcat(mode, a, b, i, v);
        }
      } else {
        var v := FirstOffender(mode, s[0]).value;
        var i :| FirstAt(mode, a, i, v);
        FirstAtConcat(mode, a, b, i, v);
      }
    }
  }

  lemma {:induction false} FirstOffenderNodeIff(mode: Option<SpaceMode>, n: Node)
    ensures FirstOffender(mode, n).None? <==> Clean(mode, NodesOf(n))
    ensures FirstOffender(mode, n).Some? ==>
              exists i :: FirstAt(mode, NodesOf(n), i, FirstOffender(mode, n).value)
    decreases n, 1
  {
    if Offends(mode, n) {
      assert FirstAt(mode, NodesOf(n), 0, n.value);
    } else if HasChildren(n) {
      FirstOffenderIff(mode, n.children);
      var b := NodesIn(n.children);
      assert NodesOf(n) == [n] + b;
      CleanConcat(mode, [n], b);
      if FirstOffenderIn(mode, n.children).Some? {
        var v := FirstOffenderIn(mode, n.children).value;
        var i :| FirstAt(mode, b, i, v);
        FirstAtConcat(mode, [n], b, i, v);
      }
    } else {
      assert NodesOf(n) == [n];
    }
  }

  /**
   * `throw` fails exactly when a visited node holds an unusual space, and then
   * names the first such value in visiting order; otherwise it changes nothing.
   */
  lemma ThrowModeIff(cs: seq<Node>)
    ensures var r := NormalizeSpaceChars(Some(ModeThrow), cs);
      && (r.Err? <==> !Clean(Some(ModeThrow), NodesIn(cs)))
      && (r.Ok? ==> r.value == cs)
      && (r.Err? ==> exists i, v :: FirstAt(Some(ModeThrow), NodesIn(cs), i, v) && r.message == UnusualSpaceError + v)
  {
    FirstOffenderIff(Some(ModeThrow), cs);
  }

  /**
   * After `normalize` or `normalizeInCodeBlock` the tree has the same shape, each
   * value keeps its length, and no node the mode visits holds an unusual space any
   * more: the same tree would pass `throw` (for `normalize`, which visits the same nodes).
   */
  lemma NormalizeModeClears(mode: Option<SpaceMode>, cs: seq<Node>)
    requires Normalizing(mode)
    ensures var r := NormalizeSpaceChars(mode, cs);
      && r.Ok?
      && CorrespondAll(mode, NodesIn(cs), NodesIn(r.value))
      && (forall i :: 0 <= i < |NodesIn(cs)| && HasValue(NodesIn(cs)[i]) ==>
            |NodesIn(r.value)[i].value| == |NodesIn(cs)[i].value|)
      && Clean(mode, NodesIn(r.value))
      && (mode == Some(ModeNormalize) ==> NormalizeSpaceChars(Some(ModeThrow), r.value) == Ok(r.value))
  {
    var r := NormalizeIn(mode, cs);
    NormalizeInCorresponds(mode, cs);
    forall i | 0 <= i < |NodesIn(r)| ensures !Offends(mode, NodesIn(r)[i]) {
      var a, b := NodesIn(cs)[i], NodesIn(r)[i];
      assert Corresponds(mode, a, b);
      if Visited(mode, b) && HasValue(b) {
        assert Visited(mode, a) && HasValue(a);
        NormalizeSpacesClears(a.value);
      }
    }
    if mode == Some(ModeNormalize) {
      FirstOffenderIff(Some(ModeThrow), r);
    }
  }

  /** Running a normalizing pass twice gives what running it once gives. */
  lemma {:induction false} NormalizeNodeIdempotent(mode: Option<SpaceMode>, n: Node)
    ensures NormalizeNode(mode, NormalizeNode(mode, n)) == NormalizeNode(mode, n)
    decreases n, 1
  {
    var m := NormalizeNode(mode, n);
    if HasChildren(n) {
      NormalizeInIdempotent(mode, n.children);
    } else if Visited(mode, n) && HasValue(n) {
      NormalizeSpacesClears(n.value);
      NormalizeSpacesClears(m.value);
      assert Visited(mode, m);
    }
  }

  lemma {:induction false} NormalizeInIdempotent(mode: Option<SpaceMode>, s: seq<Node>)
    ensures NormalizeIn(mode, NormalizeIn(mode, s)) == NormalizeIn(mode, s)
    decreases s, 0
  {
    if s != [] {
      var r := NormalizeIn(mode, s);
      assert r[0] == NormalizeNode(mode, s[0]) && r[1..] == NormalizeIn(mode, s[1..]);
      NormalizeNodeIdempotent(mode, s[0]);
      NormalizeInIdempotent(mode, s[1..]);
    }
  }

  /** With the mode absent or `none` the pass changes nothing. */
  lemma NoneModeIsIdentity(cs: seq<Node>)
    ensures NormalizeSpaceChars(None, cs) == Ok(cs)
    ensures NormalizeSpaceChars(Some(ModeNone), cs) == Ok(cs)
  {
  }
}
