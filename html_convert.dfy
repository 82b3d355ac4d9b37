/**
 * The conversion of a field's HTML: `htmlTo` picks none, HTML or Markdown output,
 * and `htmlToHtml` runs the HTML pipeline and then rewrites the line feeds of the
 * serialized result, leaving a leading front matter block alone.
 */
module HtmlConvert {
  import opened Wrappers
  import opened HtmlTree
  import FrontMatter

  // ---------------------------------------------------------------------------
  // The front matter block of the serialized HTML:
  // `/^\s*(---\n.+\n---\n+){0,1}.*$/ms` replaced by `$1`

  /** The characters `\s` matches in a JavaScript regular expression. */
  predicate IsJsSpace(c: char)
  {
    || c == '\t' || c == '\n' || c == '\U{000B}' || c == '\U{000C}' || c == '\r' || c == ' '
    || c == '\U{00A0}' || c == '\U{1680}' || ('\U{2000}' <= c <= '\U{200A}')
    || c == '\U{2028}' || c == '\U{2029}' || c == '\U{202F}' || c == '\U{205F}'
    || c == '\U{3000}' || c == '\U{FEFF}'
  }

  /** How many whitespace characters `^\s*` consumes. */
  function LeadingSpace(s: string): (w: nat)
    ensures w <= |s|
    ensures forall i :: 0 <= i < w ==> IsJsSpace(s[i])
    ensures w == |s| || !IsJsSpace(s[w])
  {
    if s == [] || !IsJsSpace(s[0]) then 0 else 1 + LeadingSpace(s[1..])
  }

  /** `\n---\n` starts at position `p` of `s`. */
  predicate FenceAt(s: string, p: int)
  {
    0 <= p && p + 5 <= |s| && s[p..p + 5] == "\n---\n"
  }

  /** The last `p` with `lo <= p < hi` where a closing fence starts: where the greedy `.+` stops. */
  function LastFence(s: string, lo: nat, hi: nat): (r: Option<nat>)
    ensures r.Some? ==> lo <= r.value < hi && FenceAt(s, r.value)
    ensures r.Some? ==> forall q :: r.value < q < hi ==> !FenceAt(s, q)
    ensures r.None? ==> forall q :: lo <= q < hi ==> !FenceAt(s, q)
    decreases hi
  {
    if hi <= lo then None
    else if FenceAt(s, hi - 1) then Some(hi - 1)
    else LastFence(s, lo, hi - 1)
  }

  /** Where the run of line feeds `\n+` that starts at `j` ends. */
  function NewlineRunEnd(s: string, j: nat): (e: nat)
    requires j <= |s|
    ensures j <= e <= |s|
    ensures forall i :: j <= i < e ==> s[i] == '\n'
    ensures e == |s| || s[e] != '\n'
    decreases |s| - j
  {
    if j == |s| || s[j] != '\n' then j else NewlineRunEnd(s, j + 1)
  }

  /**
   * Where the captured group lies in `s`, as `(start, end)`: after the leading
   * whitespace an opening `---\n`, at least one character, the last `\n---` that
   * is followed by a line feed, and all the line feeds that follow it.
   */
  function FrontMatterSpan(s: string): (r: Option<(nat, nat)>)
    ensures r.Some? ==> r.value.0 == LeadingSpace(s) && r.value.0 + 10 <= r.value.1 <= |s|
  {
    var w := LeadingSpace(s);
    if w + 4 <= |s| && s[w..w + 4] == "---\n" then
      match LastFence(s, w + 5, |s|)
      case None => None
      case Some(p) => Some((w, NewlineRunEnd(s, p + 5)))
    else None
  }

  /** The text the regex puts in `$1`: the group, or nothing when it did not take part. */
  function MatterOf(s: string): string
  {
    match FrontMatterSpan(s)
    case None => ""
    case Some(span) => s[span.0..span.1]
  }

  /**
   * The text that replaces the line feed at `s[i]`: `lfTo` with the replacement
   * patterns of `String.prototype.replace` expanded — `$$` is `$`, `$&` the line
   * feed itself, `` $` `` the text before it and `$'` the text after it. The regular
   * expression has no groups, so `$1` or `$<` stays as it is.
   */
  function Expand(lfTo: string, s: string, i: nat): (r: string)
    requires i < |s|
    ensures '$' !in lfTo ==> r == lfTo
    decreases |lfTo|
  {
    if lfTo == [] then ""
    else if lfTo[0] == '$' && |lfTo| >= 2 && lfTo[1] == '$' then "$" + Expand(lfTo[2..], s, i)
    else if lfTo[0] == '$' && |lfTo| >= 2 && lfTo[1] == '&' then [s[i]] + Expand(lfTo[2..], s, i)
    else if lfTo[0] == '$' && |lfTo| >= 2 && lfTo[1] == '`' then s[..i] + Expand(lfTo[2..], s, i)
    else if lfTo[0] == '$' && |lfTo| >= 2 && lfTo[1] == '\'' then s[i + 1..] + Expand(lfTo[2..], s, i)
    else [lfTo[0]] + Expand(lfTo[1..], s, i)
  }

  /**
   * A replacement that brings no line feed back: it holds none itself and no
   * `$&`, `` $` `` or `$'` pattern, which would copy the text around a match.
   */
  predicate InsertsNoLf(lfTo: string)
    decreases |lfTo|
  {
    if lfTo == [] then true
    else if lfTo[0] == '$' && |lfTo| >= 2 && lfTo[1] == '$' then InsertsNoLf(lfTo[2..])
    else if lfTo[0] == '$' && |lfTo| >= 2 && lfTo[1] in "&`'" then false
    else lfTo[0] != '\n' && InsertsNoLf(lfTo[1..])
  }

  /** An expanded replacement brings no line feed back when the replacement says so. */
  lemma {:induction false} ExpandInsertsNoLf(lfTo: string, s: string, i: nat)
    requires i < |s|
    ensures InsertsNoLf(lfTo) ==> '\n' !in Expand(lfTo, s, i)
    decreases |lfTo|
  {
    if lfTo == [] || !InsertsNoLf(lfTo) {
    } else if lfTo[0] == '$' && |lfTo| >= 2 && lfTo[1] == '$' {
      ExpandInsertsNoLf(lfTo[2..], s, i);
    } else {
      ExpandInsertsNoLf(lfTo[1..], s, i);
    }
  }

  /** A replacement without `$` and without line feeds brings none back. */
  lemma {:induction false} PlainInsertsNoLf(lfTo: string)
    requires '$' !in lfTo && '\n' !in lfTo
    ensures InsertsNoLf(lfTo)
    decreases |lfTo|
  {
    if lfTo != [] {
      assert lfTo[0] in lfTo;
      assert forall c :: c in lfTo[1..] ==> c in lfTo;
      PlainInsertsNoLf(lfTo[1..]);
    }
  }

  /** `s.replace(/\n/g, lfTo)`, from index `i` on. */
  function ReplaceLfFrom(s: string, i: nat, lfTo: string): (r: string)
    requires i <= |s|
    ensures '\n' !in s[i..] ==> r == s[i..]
    ensures InsertsNoLf(lfTo) ==> '\n' !in r
    decreases |s| - i
  {
    if i == |s| then ""
    else
      assert s[i..] == [s[i]] + s[i + 1..];
      ExpandInsertsNoLf(lfTo, s, i);
      (if s[i] == '\n' then Expand(lfTo, s, i) else [s[i]]) + ReplaceLfFrom(s, i + 1, lfTo)
  }

  /** `s.replace(/\n/g, lfTo)` */
  function ReplaceLf(s: string, lfTo: string): (r: string)
    ensures '\n' !in s ==> r == s
    ensures InsertsNoLf(lfTo) ==> '\n' !in r
  {
    assert s[0..] == s;
    ReplaceLfFrom(s, 0, lfTo)
  }

  /** Replacing line feeds by line feeds changes nothing. */
  lemma ReplaceLfIdentity(s: string)
    ensures ReplaceLf(s, "\n") == s
  {
    ReplaceLfFromIdentity(s, 0, "\n");
  }

  /** `$&` puts each line feed back, so it too changes nothing. */
  lemma ReplaceLfMatchIdentity(s: string)
    ensures ReplaceLf(s, "$&") == s
  {
    ReplaceLfFromIdentity(s, 0, "$&");
  }

  /** A replacement that expands to the matched line feed leaves the text as it was. */
  lemma {:induction false} ReplaceLfFromIdentity(s: string, i: nat, lfTo: string)
    requires i <= |s| && (lfTo == "\n" || lfTo == "$&")
    ensures ReplaceLfFrom(s, i, lfTo) == s[i..]
    decreases |s| - i
  {
    if i < |s| {
      ReplaceLfFromIdentity(s, i + 1, lfTo);
      if s[i] == '\n' {
        if lfTo == "$&" {
          assert lfTo[2..] == [];
        } else {
          assert lfTo[1..] == [];
        }
        assert Expand(lfTo, s, i) == "\n";
      }
      assert s[i..] == [s[i]] + s[i + 1..];
    }
  }

  /**
   * The post-processing as written: the rest of the text is taken from the length
   * of the matter, which is its position only when no whitespace precedes it.
   */
  function PostProcessAsWritten(s: string, lfTo: string): string
  {
    var matter := MatterOf(s);
    var rest := if |matter| <= |s| then s[|matter|..] else "";
    matter + ReplaceLf(rest, lfTo)
  }

  /** The post-processing as intended: everything after the front matter block has its line feeds replaced. */
  function PostProcess(s: string, lfTo: string): string
  {
    match FrontMatterSpan(s)
    case None => ReplaceLf(s, lfTo)
    case Some(span) => s[..span.1] + ReplaceLf(s[span.1..], lfTo)
  }

  /**
   * The block is kept as it is and every line feed after it is replaced; with no
   * block, every line feed is. When the replacement holds no line feed, the line
   * feeds left are those of the block.
   */
  lemma PostProcessKeepsBlock(s: string, lfTo: string)
    ensures var r := PostProcess(s, lfTo);
      && (FrontMatterSpan(s).Some? ==>
            var e := FrontMatterSpan(s).value.1;
            && s[..e] <= r
            && (InsertsNoLf(lfTo) ==> '\n' !in r[e..])
            && s[LeadingSpace(s)..e] == MatterOf(s))
      && (FrontMatterSpan(s).None? && InsertsNoLf(lfTo) ==> '\n' !in r)
  {
    match FrontMatterSpan(s)
    case None =>
    case Some(span) =>
      var e := span.1;
      var r := PostProcess(s, lfTo);
      assert r == s[..e] + ReplaceLf(s[e..], lfTo);
      assert r[e..] == ReplaceLf(s[e..], lfTo);
  }

  /** Replacing line feeds by line feeds leaves the whole text as it was. */
  lemma PostProcessLfIdentity(s: string)
    ensures PostProcess(s, "\n") == s
  {
    if FrontMatterSpan(s).Some? {
      var e := FrontMatterSpan(s).value.1;
      ReplaceLfIdentity(s[e..]);
      assert PostProcess(s, "\n") == s[..e] + s[e..];
      assert s[..e] + s[e..] == s;
    } else {
      ReplaceLfIdentity(s);
    }
  }

  /** Without leading whitespace the code as written does what was intended. */
  lemma AsWrittenAgreesWithoutLeadingSpace(s: string, lfTo: string)
    requires LeadingSpace(s) == 0
    ensures PostProcessAsWritten(s, lfTo) == PostProcess(s, lfTo)
  {
    match FrontMatterSpan(s)
    case None =>
      assert s[0..] == s;
    case Some(span) =>
      assert s[0..span.1] == s[..span.1];
  }

  /**
   * The code as written keeps the captured matter at the front and replaces every
   * line feed of the text that follows it; with no block that is the whole text.
   */
  lemma PostProcessAsWrittenShape(s: string, lfTo: string)
    ensures var r := PostProcessAsWritten(s, lfTo);
      var m := MatterOf(s);
      && m <= r
      && (InsertsNoLf(lfTo) ==> '\n' !in r[|m|..])
      && (FrontMatterSpan(s).None? ==> r == ReplaceLf(s, lfTo))
  {
    var m := MatterOf(s);
    var rest := if |m| <= |s| then s[|m|..] else "";
    var r := PostProcessAsWritten(s, lfTo);
    assert r == m + ReplaceLf(rest, lfTo);
    assert r[|m|..] == ReplaceLf(rest, lfTo);
    if FrontMatterSpan(s).None? {
      assert s[0..] == s;
    }
  }

  /**
   * With a space in front of the block the code as written drops that space and
   * replaces the last line feed of the block a second time.
   */
  lemma AsWrittenMisplacesLeadingSpace()
    ensures PostProcessAsWritten(" ---\na\n---\nb", "&#x000a;") == "---\na\n---\n&#x000a;b"
    ensures PostProcess(" ---\na\n---\nb", "&#x000a;") == " ---\na\n---\nb"
  {
    SpacedBlockAsWritten();
    SpacedBlockCorrected();
  }

  lemma SpacedBlockAsWritten()
    ensures PostProcessAsWritten(" ---\na\n---\nb", "&#x000a;") == "---\na\n---\n&#x000a;b"
  {
    var s := " ---\na\n---\nb";
    SpacedBlockMatter();
    ReplaceLfTail("&#x000a;");
    assert s[10..] == "\nb";
    SpacedBlockText();
  }

  /** The captured matter of the counterexample: the block without the leading space. */
  lemma SpacedBlockMatter()
    ensures MatterOf(" ---\na\n---\nb") == "---\na\n---\n"
  {
    var s := " ---\na\n---\nb";
    SpacedBlockSpan();
    assert s[1..11] == "---\na\n---\n";
  }

  lemma SpacedBlockText()
    ensures "---\na\n---\n" + ("&#x000a;" + "b") == "---\na\n---\n&#x000a;b"
  {
  }

  lemma SpacedBlockCorrected()
    ensures PostProcess(" ---\na\n---\nb", "&#x000a;") == " ---\na\n---\nb"
  {
    var s := " ---\na\n---\nb";
    var lfTo := "&#x000a;";
    SpacedBlockSpan();
    ReplaceLfTail(lfTo);
    assert s[11..] == "b";
    assert PostProcess(s, lfTo) == s[..11] + "b";
  }

  /** The replacements the counterexample needs. */
  lemma ReplaceLfTail(lfTo: string)
    requires '$' !in lfTo
    ensures ReplaceLf("b", lfTo) == "b"
    ensures ReplaceLf("\nb", lfTo) == lfTo + "b"
  {
    var t := "\nb";
    assert Expand(lfTo, t, 0) == lfTo;
    assert ReplaceLfFrom(t, 2, lfTo) == "";
    assert ReplaceLfFrom(t, 1, lfTo) == "b";
  }

  /** Where the block of the counterexample lies: after one space, up to the end of its closing line feed. */
  lemma SpacedBlockSpan()
    ensures FrontMatterSpan(" ---\na\n---\nb") == Some((1, 11))
  {
    var s := " ---\na\n---\nb";
    assert LeadingSpace(s[1..]) == 0;
    assert LeadingSpace(s) == 1;
    assert s[1..5] == "---\n";
    assert FenceAt(s, 6) by { assert s[6..11] == "\n---\n"; }
    assert !FenceAt(s, 7) && !FenceAt(s, 8) && !FenceAt(s, 9) && !FenceAt(s, 10) && !FenceAt(s, 11);
    assert LastFence(s, 6, 12) == Some(6);
    assert NewlineRunEnd(s, 11) == 11;
  }

  // ---------------------------------------------------------------------------
  // htmlToHtml and htmlTo

  /** The HTML options; an absent flag is false, an absent `lfTo` means `&#x000a;`. */
  datatype HtmlToHtmlOpts = HtmlToHtmlOpts(frontMatter: bool, splitParagraph: bool, lfTo: Option<string>)

  /**
   * The libraries the pipelines are built from: the HTML parser (a fragment), the
   * paragraph splitter, the HTML serializer and the whole Markdown conversion.
   */
  datatype Processors = Processors(
    parse: string -> seq<Node>,
    splitParagraph: seq<Node> -> seq<Node>,
    stringify: seq<Node> -> string,
    toMarkdown: string -> Result<string>)

  const DefaultLfTo: string := "&#x000a;"

  /** The serialized HTML with a line feed at its end, added when missing. */
  function WithFinalLf(s: string): (r: string)
    ensures r != "" && r[|r| - 1] == '\n'
    ensures r == s || r == s + "\n"
    ensures s != "" && s[|s| - 1] == '\n' ==> r == s
  {
    if s != "" && s[|s| - 1] == '\n' then s else s + "\n"
  }

  /** What the serializer returns before the line feeds are dealt with. */
  function HtmlPipeline(html: string, opts: HtmlToHtmlOpts, p: Processors): Result<string>
  {
    var tree := p.parse(html);
    var marked := if opts.frontMatter then FrontMatter.AsCodeDock(tree, true) else Ok(tree);
    match marked
    case Err(e) => Err(e)
    case Ok(cs) =>
      var split := if opts.splitParagraph then p.splitParagraph(cs) else cs;
      Ok(p.stringify(split))
  }

  function LfTo(opts: HtmlToHtmlOpts): string
  {
    if opts.lfTo.None? then DefaultLfTo else opts.lfTo.value
  }

  /**
   * What follows the serializer: the line feeds after the front matter block
   * replaced by `lfTo` unless it is empty — as intended (`corrected`) or as the
   * code is written — and a final line feed added when missing.
   */
  function Finish(converted: string, lfTo: string, corrected: bool): string
  {
    var post := if corrected then PostProcess(converted, lfTo) else PostProcessAsWritten(converted, lfTo);
    WithFinalLf(if lfTo != "" then post else converted)
  }

  /** `htmlToHtml`: empty HTML is returned as it is; anything else goes through the pipeline. */
  function HtmlToHtml(html: string, opts: HtmlToHtmlOpts, p: Processors, corrected: bool): Result<string>
  {
    if html == "" then Ok("")
    else
      match HtmlPipeline(html, opts, p)
      case Err(e) => Err(e)
      case Ok(converted) => Ok(Finish(converted, LfTo(opts), corrected))
  }

  /**
   * The finished text ends with a line feed. An empty replacement keeps the
   * serialized text. A replacement without line feeds leaves none but the last one
   * outside the front matter block: the corrected version keeps the text up to the
   * end of the block (leading whitespace included) as it was, the version as
   * written puts the captured matter first; without leading whitespace the two
   * agree.
   */
  lemma FinishShape(converted: string, lfTo: string, corrected: bool)
    ensures var r := Finish(converted, lfTo, corrected);
      && r != "" && r[|r| - 1] == '\n'
      && (lfTo == "" ==> r == WithFinalLf(converted))
      && (lfTo != "" && InsertsNoLf(lfTo) && FrontMatterSpan(converted).None? ==> '\n' !in r[..|r| - 1])
      && (lfTo != "" && InsertsNoLf(lfTo) && corrected && FrontMatterSpan(converted).Some? ==>
            var e := FrontMatterSpan(converted).value.1;
            && e <= |r| && r[..e] == converted[..e]
            && forall i :: e <= i < |r| - 1 ==> r[i] != '\n')
      && (lfTo != "" && InsertsNoLf(lfTo) && !corrected ==>
            var m := MatterOf(converted);
            && |m| <= |r| && r[..|m|] == m
            && forall i :: |m| <= i < |r| - 1 ==> r[i] != '\n')
      && (LeadingSpace(converted) == 0 ==> r == Finish(converted, lfTo, !corrected))
  {
    if lfTo != "" && InsertsNoLf(lfTo) {
      var r := Finish(converted, lfTo, corrected);
      if corrected {
        PostProcessCorrectedTail(converted, lfTo, r);
      } else {
        PostProcessAsWrittenTail(converted, lfTo, r);
      }
    }
    if LeadingSpace(converted) == 0 {
      AsWrittenAgreesWithoutLeadingSpace(converted, lfTo);
    }
  }

  /**
   * Empty HTML gives empty output; a failing pipeline gives its error; otherwise the
   * output is the serialized text finished as `FinishShape` describes.
   */
  lemma HtmlToHtmlShape(html: string, opts: HtmlToHtmlOpts, p: Processors, corrected: bool)
    ensures html == "" ==> HtmlToHtml(html, opts, p, corrected) == Ok("")
    ensures html != "" && HtmlPipeline(html, opts, p).Err? ==>
              HtmlToHtml(html, opts, p, corrected) == Err(HtmlPipeline(html, opts, p).message)
    ensures html != "" && HtmlPipeline(html, opts, p).Ok? ==>
              var r := HtmlToHtml(html, opts, p, corrected).value;
              var converted := HtmlPipeline(html, opts, p).value;
              var lfTo := LfTo(opts);
              && r != "" && r[|r| - 1] == '\n'
              && (lfTo == "" ==> r == WithFinalLf(converted))
              && (lfTo != "" && InsertsNoLf(lfTo) && FrontMatterSpan(converted).None? ==>
                    '\n' !in r[..|r| - 1])
              && (lfTo != "" && InsertsNoLf(lfTo) && corrected && FrontMatterSpan(converted).Some? ==>
                    var e := FrontMatterSpan(converted).value.1;
                    && e <= |r| && r[..e] == converted[..e]
                    && forall i :: e <= i < |r| - 1 ==> r[i] != '\n')
              && (lfTo != "" && InsertsNoLf(lfTo) && !corrected ==>
                    var m := MatterOf(converted);
                    && |m| <= |r| && r[..|m|] == m
                    && forall i :: |m| <= i < |r| - 1 ==> r[i] != '\n')
              && (LeadingSpace(converted) == 0 ==>
                    HtmlToHtml(html, opts, p, corrected) == HtmlToHtml(html, opts, p, !corrected))
  {
    if html != "" && HtmlPipeline(html, opts, p).Ok? {
      var converted := HtmlPipeline(html, opts, p).value;
      assert HtmlToHtml(html, opts, p, corrected) == Ok(Finish(converted, LfTo(opts), corrected));
      assert HtmlToHtml(html, opts, p, !corrected) == Ok(Finish(converted, LfTo(opts), !corrected));
      FinishShape(converted, LfTo(opts), corrected);
    }
  }

  /**
   * When the serializer puts a space before the block, the conversion as written
   * returns the block without the space and its last line feed twice, the second
   * time replaced; the corrected conversion returns the serialized text with a line
   * feed added.
   */
  lemma HtmlToHtmlAsWrittenDiffers(html: string, opts: HtmlToHtmlOpts, p: Processors)
    requires html != "" && opts.lfTo.None? && HtmlPipeline(html, opts, p) == Ok(" ---\na\n---\nb")
    ensures HtmlToHtml(html, opts, p, false) == Ok("---\na\n---\n&#x000a;b\n")
    ensures HtmlToHtml(html, opts, p, true) == Ok(" ---\na\n---\nb\n")
  {
    FinishSpacedBlock();
  }

  /** The counterexample finished with the default replacement, in both versions. */
  lemma FinishSpacedBlock()
    ensures Finish(" ---\na\n---\nb", DefaultLfTo, false) == "---\na\n---\n&#x000a;b\n"
    ensures Finish(" ---\na\n---\nb", DefaultLfTo, true) == " ---\na\n---\nb\n"
  {
    AsWrittenMisplacesLeadingSpace();
    FinalLfAppended("---\na\n---\n&#x000a;b");
    FinalLfAppended(" ---\na\n---\nb");
  }

  /** A text ending in `b` gets a line feed appended. */
  lemma FinalLfAppended(s: string)
    requires s != "" && s[|s| - 1] == 'b'
    ensures WithFinalLf(s) == s + "\n"
  {
  }

  /** A text with no line feed after its first part keeps none but the final one. */
  lemma FinalLfAfter(a: string, b: string)
    requires '\n' !in b
    ensures var r := WithFinalLf(a + b);
      && |a| <= |r| && r[..|a|] == a
      && forall i :: |a| <= i < |r| - 1 ==> r[i] != '\n'
  {
    var r := WithFinalLf(a + b);
    assert r[..|a|] == a;
    forall i | |a| <= i < |r| - 1 ensures r[i] != '\n' {
      assert r[i] == b[i - |a|];
    }
  }

  /** The corrected post-processing followed by the final line feed. */
  lemma PostProcessCorrectedTail(s: string, lfTo: string, r: string)
    requires lfTo != "" && InsertsNoLf(lfTo) && r == WithFinalLf(PostProcess(s, lfTo))
    ensures FrontMatterSpan(s).None? ==> '\n' !in r[..|r| - 1]
    ensures FrontMatterSpan(s).Some? ==>
              var e := FrontMatterSpan(s).value.1;
              && e <= |r| && r[..e] == s[..e]
              && forall i :: e <= i < |r| - 1 ==> r[i] != '\n'
  {
    PostProcessKeepsBlock(s, lfTo);
    var post := PostProcess(s, lfTo);
    if FrontMatterSpan(s).Some? {
      var e := FrontMatterSpan(s).value.1;
      assert post == s[..e] + post[e..];
      FinalLfAfter(s[..e], post[e..]);
    } else {
      assert post == "" + post;
      FinalLfAfter("", post);
      var t := r[..|r| - 1];
      assert forall i :: 0 <= i < |t| ==> t[i] != '\n';
    }
  }

  /** The post-processing as written followed by the final line feed. */
  lemma PostProcessAsWrittenTail(s: string, lfTo: string, r: string)
    requires lfTo != "" && InsertsNoLf(lfTo) && r == WithFinalLf(PostProcessAsWritten(s, lfTo))
    ensures FrontMatterSpan(s).None? ==> '\n' !in r[..|r| - 1]
    ensures var m := MatterOf(s);
              && |m| <= |r| && r[..|m|] == m
              && forall i :: |m| <= i < |r| - 1 ==> r[i] != '\n'
  {
    PostProcessAsWrittenShape(s, lfTo);
    var post := PostProcessAsWritten(s, lfTo);
    var m := MatterOf(s);
    assert post == m + post[|m|..];
    FinalLfAfter(m, post[|m|..]);
    if FrontMatterSpan(s).None? {
      assert m == "";
      var t := r[..|r| - 1];
      assert forall i :: 0 <= i < |t| ==> t[i] != '\n';
    }
  }

  /** With the front matter option a first paragraph without children makes the conversion fail. */
  lemma HtmlToHtmlNeedsFirstChild(html: string, opts: HtmlToHtmlOpts, p: Processors, corrected: bool)
    requires html != "" && opts.frontMatter && p.parse(html) == []
    ensures HtmlToHtml(html, opts, p, corrected) == Err(FrontMatter.NoFirstChildError)
  {
  }

  /** `htmlToMarkdown` keeps the empty string and hands anything else to the Markdown pipeline. */
  function HtmlToMarkdown(html: string, p: Processors): Result<string>
  {
    if html == "" then Ok("") else p.toMarkdown(html)
  }

  /** The `convert` option: absent, `none`, `html`, `markdown`, or any other text. */
  function HtmlTo(html: string, convert: Option<string>, toHtmlOpts: HtmlToHtmlOpts, p: Processors, corrected: bool): Result<string>
  {
    if convert.None? || convert.value == "none" then Ok(html)
    else if convert.value == "html" then HtmlToHtml(html, toHtmlOpts, p, corrected)
    else if convert.value == "markdown" then HtmlToMarkdown(html, p)
    else Ok("")
  }

  /**
   * Which conversion runs: none returns the HTML as it is, an unknown kind returns
   * the empty string, and every kind maps the empty string to itself.
   */
  lemma HtmlToDispatch(html: string, convert: Option<string>, toHtmlOpts: HtmlToHtmlOpts, p: Processors, corrected: bool)
    ensures convert == None || convert == Some("none") ==> HtmlTo(html, convert, toHtmlOpts, p, corrected) == Ok(html)
    ensures convert.Some? && convert.value !in {"none", "html", "markdown"} ==>
              HtmlTo(html, convert, toHtmlOpts, p, corrected) == Ok("")
    ensures html == "" ==> HtmlTo(html, convert, toHtmlOpts, p, corrected) == Ok("")
    ensures convert == Some("html") && html != "" && HtmlTo(html, convert, toHtmlOpts, p, corrected).Ok? ==>
              var r := HtmlTo(html, convert, toHtmlOpts, p, corrected).value;
              r != "" && r[|r| - 1] == '\n'
  {
    if html != "" && HtmlPipeline(html, toHtmlOpts, p).Ok? {
      FinishShape(HtmlPipeline(html, toHtmlOpts, p).value, LfTo(toHtmlOpts), corrected);
    }
  }
}
