/**
 * Front matter written as the first paragraph of a rich-text document:
 * `<p>---<br>key: value<br>---<br>...</p>`. `ExtractFrontMatter` scans the
 * paragraph's children for the block between the two `---` text nodes, and
 * `FirstParagraphAsCodeDockTransformer` replaces the paragraph by the block (as a
 * text node, or as a `pre > code` "code dock" marked `===md`) followed by what is
 * left of the paragraph.
 */
module FrontMatter {
  import opened Wrappers
  import opened Json
  import opened HtmlTree

  const Fence: string := "---"

  predicate IsFence(n: Node)
  {
    n.Text? && n.value == Fence
  }

  predicate IsBr(n: Node)
  {
    n.Element? && n.tag == "br"
  }

  /** A child the scan passes over between the fences: text other than a fence, or a `br`. */
  predicate Transparent(n: Node)
  {
    (n.Text? && n.value != Fence) || IsBr(n)
  }

  // ---------------------------------------------------------------------------
  // Specification of the scan

  /** Where the scan started at `from` meets the closing fence; None when another node or the end comes first. */
  function ClosingFence(cs: seq<Node>, from: nat): (r: Option<nat>)
    ensures r.Some? ==> from <= r.value < |cs| && IsFence(cs[r.value])
    decreases |cs| - from
  {
    if from >= |cs| then None
    else if IsFence(cs[from]) then Some(from)
    else if Transparent(cs[from]) then ClosingFence(cs, from + 1)
    else None
  }

  /** Each text value followed by a line feed; other children contribute nothing. */
  function MatterText(cs: seq<Node>): string
  {
    if cs == [] then ""
    else
      var last := cs[|cs| - 1];
      MatterText(cs[..|cs| - 1]) + (if last.Text? then last.value + "\n" else "")
  }

  /** The index `j` extended over the `br` children that follow it. */
  function BrRunEnd(cs: seq<Node>, j: nat): (e: nat)
    requires j < |cs|
    ensures j <= e < |cs|
    decreases |cs| - j
  {
    if j + 1 < |cs| && IsBr(cs[j + 1]) then BrRunEnd(cs, j + 1) else j
  }

  /** The pair `[matter, matterRange]` the scan of a paragraph's children returns. */
  function FrontMatterOf(cs: seq<Node>): (r: (string, nat))
    ensures r.0 != "" ==> r.1 < |cs|
  {
    if |cs| > 0 && IsFence(cs[0]) then
      match ClosingFence(cs, 1)
      case None => ("", 0)
      case Some(j) =>
        var matter := MatterText(cs[1..j]);
        if matter == "" then ("", j) else (matter, BrRunEnd(cs, j))
    else ("", 0)
  }

  // ---------------------------------------------------------------------------
  // The scan, as the source runs it

  method ExtractFrontMatter(p: Node) returns (matter: string, matterRange: nat)
    requires p.Element?
    ensures (matter, matterRange) == FrontMatterOf(p.children)
  {
    var cs := p.children;
    matter := "";
    matterRange := 0;
    if |cs| > 0 && cs[0].Text? && cs[0].value == Fence {
      matter := "";
      var clen := |cs|;
      var closed := false;
      var idx := 1;
      while idx < clen
        invariant 1 <= idx <= clen
        invariant !closed && matterRange == 0
        invariant ClosingFence(cs, 1) == ClosingFence(cs, idx)
        invariant matter == MatterText(cs[1..idx])
      {
        var c := cs[idx];
        if c.Text? {
          if c.value == Fence {
            closed := true;
            matterRange := idx;
            break;
          }
          assert cs[1..idx + 1][..idx - 1] == cs[1..idx];
          matter := matter + c.value + "\n";
        } else if !(c.Element? && c.tag == "br") {
          matter := "";
          break;
        } else {
          assert cs[1..idx + 1][..idx - 1] == cs[1..idx];
        }
        idx := idx + 1;
      }
      if !closed {
        matter := "";
      }
      if matter != "" {
        ghost var closing := matterRange;
        idx := matterRange + 1;
        while idx < clen
          invariant closing < idx <= clen
          invariant idx == matterRange + 1
          invariant BrRunEnd(cs, closing) == BrRunEnd(cs, matterRange)
        {
          var c := cs[idx];
          if c.Element? && c.tag == "br" {
            matterRange := idx;
          } else {
            break;
          }
          idx := idx + 1;
        }
      }
    }
  }

  // ---------------------------------------------------------------------------
  // Properties of the scan

  lemma {:induction false} ClosingFenceIff(cs: seq<Node>, from: nat, j: nat)
    ensures ClosingFence(cs, from) == Some(j) <==>
              from <= j < |cs| && IsFence(cs[j]) && forall i :: from <= i < j ==> Transparent(cs[i])
    decreases |cs| - from
  {
    if from < |cs| && !IsFence(cs[from]) && Transparent(cs[from]) {
      ClosingFenceIff(cs, from + 1, j);
    }
  }

  lemma {:induction false} MatterTextNonEmpty(cs: seq<Node>)
    ensures MatterText(cs) != "" <==> exists i :: 0 <= i < |cs| && cs[i].Text?
    ensures MatterText(cs) != "" ==> MatterText(cs)[|MatterText(cs)| - 1] == '\n'
  {
    if cs != [] {
      var init := cs[..|cs| - 1];
      MatterTextNonEmpty(init);
      if exists i :: 0 <= i < |init| && init[i].Text? {
        var i :| 0 <= i < |init| && init[i].Text?;
        assert cs[i].Text?;
      }
      if exists i :: 0 <= i < |cs| && cs[i].Text? {
        var i :| 0 <= i < |cs| && cs[i].Text?;
        if i < |cs| - 1 {
          assert init[i].Text?;
        }
      }
    }
  }

  /**
   * The paragraph holds front matter exactly when it opens with a `---` text node,
   * a later `---` text node closes it, only text and `br` children come between,
   * and at least one of them is text; the matter is then the text between.
   */
  lemma FrontMatterIff(cs: seq<Node>, j: nat)
    requires 1 <= j < |cs| && IsFence(cs[j]) && forall i :: 1 <= i < j ==> Transparent(cs[i])
    ensures FrontMatterOf(cs).0 != "" <==>
              IsFence(cs[0]) && exists i :: 1 <= i < j && cs[i].Text?
    ensures FrontMatterOf(cs).0 != "" ==> FrontMatterOf(cs).0 == MatterText(cs[1..j])
  {
    ClosingFenceIff(cs, 1, j);
    MatterTextNonEmpty(cs[1..j]);
    if exists i :: 1 <= i < j && cs[i].Text? {
      var i :| 1 <= i < j && cs[i].Text?;
      assert cs[1..j][i - 1].Text?;
    }
    if exists i :: 0 <= i < |cs[1..j]| && cs[1..j][i].Text? {
      var i :| 0 <= i < |cs[1..j]| && cs[1..j][i].Text?;
      assert cs[i + 1].Text?;
    }
  }

  /** Without an opening fence, or without a closing fence after only text and `br`, there is no matter. */
  lemma FrontMatterAbsent(cs: seq<Node>)
    requires |cs| == 0 || !IsFence(cs[0]) ||
             forall j :: 1 <= j < |cs| && IsFence(cs[j]) ==> exists i :: 1 <= i < j && !Transparent(cs[i])
    ensures FrontMatterOf(cs).0 == ""
    ensures |cs| == 0 || !IsFence(cs[0]) ==> FrontMatterOf(cs) == ("", 0)
  {
    if |cs| > 0 && IsFence(cs[0]) {
      match ClosingFence(cs, 1)
      case None =>
      case Some(j) =>
        ClosingFenceIff(cs, 1, j);
    }
  }

  lemma {:induction false} BrRunEndIsRun(cs: seq<Node>, j: nat)
    requires j < |cs|
    ensures forall i :: j < i <= BrRunEnd(cs, j) ==> IsBr(cs[i])
    ensures BrRunEnd(cs, j) + 1 == |cs| || !IsBr(cs[BrRunEnd(cs, j) + 1])
    decreases |cs| - j
  {
    if j + 1 < |cs| && IsBr(cs[j + 1]) {
      BrRunEndIsRun(cs, j + 1);
    }
  }

  /**
   * When matter is found, `matterRange` is the closing fence's index extended over
   * the `br` children right after it, and it stays inside the paragraph.
   */
  lemma MatterRangeIsFenceAndBreaks(cs: seq<Node>)
    requires FrontMatterOf(cs).0 != ""
    ensures var range := FrontMatterOf(cs).1;
      exists j :: 1 <= j <= range < |cs| && IsFence(cs[j]) &&
        (forall i :: 1 <= i < j ==> Transparent(cs[i])) &&
        (forall i :: j < i <= range ==> IsBr(cs[i])) &&
        (range + 1 == |cs| || !IsBr(cs[range + 1]))
  {
    var j := ClosingFence(cs, 1).value;
    ClosingFenceIff(cs, 1, j);
    BrRunEndIsRun(cs, j);
  }

  /** `matterRange` indexes a child whenever the paragraph has children. */
  lemma MatterRangeInBounds(cs: seq<Node>)
    requires |cs| > 0
    ensures FrontMatterOf(cs).1 < |cs|
  {
  }

  // ---------------------------------------------------------------------------
  // The transformer on the root of the tree

  /** The node that takes the paragraph's place. */
  function MatterNode(matter: string, textNode: bool): (n: Node)
  {
    if textNode then Text("---\n" + matter + "\n---\n\n")
    else Element("pre", [], [Element("code", [], [Text("===md\n---\n\n" + matter + "\n---\n")])])
  }

  /** `elm.children[0].type` on a root without children. */
  const NoFirstChildError: string := "TypeError: Cannot read properties of undefined (reading 'type')"

  /** The root's children after the transformer, or the error it throws. */
  function AsCodeDock(cs: seq<Node>, textNode: bool): (r: Result<seq<Node>>)
  {
    if |cs| == 0 then Err(NoFirstChildError)
    else if cs[0].Element? && cs[0].tag == "p" then
      var (matter, range) := FrontMatterOf(cs[0].children);
      if matter == "" then Ok(cs)
      else
        var rest := cs[0].children[range + 1..];
        if rest == [] then Ok([MatterNode(matter, textNode)] + cs[1..])
        else Ok([MatterNode(matter, textNode), Element("p", cs[0].props, rest)] + cs[1..])
    else Ok(cs)
  }

  method FirstParagraphAsCodeDockTransformer(tree: Tree, textNode: bool) returns (err: Option<string>)
    modifies tree
    ensures AsCodeDock(old(tree.children), textNode).Ok? ==>
              err == None && tree.children == AsCodeDock(old(tree.children), textNode).value
    ensures AsCodeDock(old(tree.children), textNode).Err? ==>
              err == Some(NoFirstChildError) && tree.children == old(tree.children)
  {
    if |tree.children| == 0 {
      return Some(NoFirstChildError);
    }
    var first := tree.children[0];
    if first.Element? && first.tag == "p" {
      var matter, matterRange := ExtractFrontMatter(first);
      if matter != "" {
        var matterElm := MatterNode(matter, textNode);
        var pElm := Element(first.tag, first.props, first.children[matterRange + 1..]);
        if |pElm.children| == 0 {
          tree.children := tree.children[0 := matterElm];
        } else {
          tree.children := [matterElm, pElm] + tree.children[1..];
        }
      }
    }
    return None;
  }

  // ---------------------------------------------------------------------------
  // Properties of the transformer

  /**
   * When the first paragraph opens with a `---` text node, reaches a closing `---`
   * at `j` through text and `br` children only (at least one of them text), and the
   * `br`s after the closing fence run up to `k`: the paragraph gives way to the
   * block — `---`, each text value between the fences followed by a line feed, and
   * the closing `---`, either as one text node or inside `pre > code` marked
   * `===md` — followed by a paragraph with the same properties holding the
   * children after `k` (absent when there are none). Every later root child is
   * kept as it was.
   */
  lemma AsCodeDockKeepsEverythingElse(cs: seq<Node>, textNode: bool, j: nat, k: nat)
    requires |cs| > 0 && cs[0].Element? && cs[0].tag == "p"
    requires var ch := cs[0].children;
      && 1 <= j <= k < |ch| && IsFence(ch[0]) && IsFence(ch[j])
      && (forall i :: 1 <= i < j ==> Transparent(ch[i]))
      && (exists i :: 1 <= i < j && ch[i].Text?)
      && (forall i :: j < i <= k ==> IsBr(ch[i]))
      && (k + 1 == |ch| || !IsBr(ch[k + 1]))
    ensures AsCodeDock(cs, textNode).Ok?
    ensures var ch := cs[0].children;
      var r := AsCodeDock(cs, textNode).value;
      var matter := MatterText(ch[1..j]);
      && |r| >= 1
      && (textNode ==> r[0] == Text("---\n" + matter + "\n---\n\n"))
      && (!textNode ==> r[0] == Element("pre", [], [Element("code", [], [Text("===md\n---\n\n" + matter + "\n---\n")])]))
      && r[1..] == (if k + 1 == |ch| then [] else [Element("p", cs[0].props, ch[k + 1..])]) + cs[1..]
  {
    var ch := cs[0].children;
    ClosingFenceIff(ch, 1, j);
    FrontMatterIff(ch, j);
    BrRunEndIsRun(ch, j);
    var e := BrRunEnd(ch, j);
    assert FrontMatterOf(ch) == (MatterText(ch[1..j]), k);
  }

  /** The matter node is never a paragraph, so a second run changes nothing. */
  lemma {:induction false} AsCodeDockIdempotent(cs: seq<Node>, textNode: bool)
    requires AsCodeDock(cs, textNode).Ok?
    ensures AsCodeDock(AsCodeDock(cs, textNode).value, textNode) == AsCodeDock(cs, textNode)
  {
    var r := AsCodeDock(cs, textNode).value;
    if r != cs {
      assert |r| > 0 && r[0] == MatterNode(FrontMatterOf(cs[0].children).0, textNode);
      assert !(r[0].Element? && r[0].tag == "p");
    }
  }
}
