# remote-cms-contents: the content pipeline, modelled in Dafny

remote-cms-contents fetches records from a headless CMS and saves each record as a
Markdown file with a YAML front matter block. A mapping configuration says how the
record's fields become the file's fields. HTML fields are converted along the way,
and the images they point to are downloaded. This project models three parts of it.

- **The HTML conversion** (`src/lib/html.ts`):
  - The first-paragraph front matter transformer, as a method over the tree's children, plus its scan `extractFrontMatter`.
  - The unusual-space-character transformer in its four modes.
  - The bracket unescaping transformer, including the visitor's "continue at index `slen`" walk.
  - The post-processing of `htmlToHtml`, both as written and as corrected: the line feeds after a leading front matter block are replaced, and a final line feed is kept. A `corrected` switch picks the version.
  - The `htmlTo` dispatch.
- **The Contentful client** (`src/lib/clients/contentful.ts`):
  - The embedded-asset and embedded-entry renderers, as the hast nodes they serialize.
  - `queryEquality`.
  - `CtfRecord.has`, `_getValue`, `isAsyncFld` and `getAsync`.
  - The shaping of fetched items in `_fetch`, both as written and as corrected, chosen by a `corrected` switch.
- **Saving content** (`src/lib/content.ts`):
  - `saveContentFile`: the metadata it builds, the file path, and its error message.
  - The `transformContent` hook.
  - The `saveRemoteContent` batch: it maps each page, rewrites image fields in place, writes the entries back, and saves with increasing positions.

JavaScript objects are ordered lists of `Field(key, val)` with distinct keys (module
`Json`), because key order is visible in the saved front matter. `undefined`, `null`,
`typeof`, truthiness and `String()` follow JavaScript. An exception becomes a `Result`
error whose text is the message the source builds. Libraries and I/O are function-typed
parameters ("oracles"). This covers the HTML parser and serializer, Markdown conversion,
the rich-text renderer, JSONata, `path.resolve`, `matter.stringify`, `writeFile`,
`mappingFlds`, the image helpers and the pages the client fetches. Async code is modelled
as the sequence of its awaited steps.

Modules: `Wrappers`, `Json`, `MapTypes`, `HtmlTree`, `FrontMatter`, `SpaceChars`,
`Brackets`, `HtmlConvert`, `Contentful`, `Content`, one file each.

## Model

| member | source | states |
|---|---|---|
| FrontMatter.ExtractFrontMatter | src/lib/html.ts:26-68 | The scan loops compute exactly `FrontMatterOf(children)`: the matter text and the index of the last node it consumes |
| FrontMatter.ClosingFenceIff | src/lib/html.ts:39-52 | The scan stops at index j iff j holds a `---` text node and every node before it, from the start index, is text or `<br>` |
| FrontMatter.MatterTextNonEmpty | src/lib/html.ts:41-47 | The collected matter is non-empty iff some scanned node is text; when non-empty it ends with a line feed |
| FrontMatter.FrontMatterIff | src/lib/html.ts:31-56 | With a closing fence at j, there is matter iff the first child is `---` and a text node lies between the fences; the matter is the text of those nodes, each followed by a line feed |
| FrontMatter.FrontMatterAbsent | src/lib/html.ts:31-55 | No opening fence, or no closing fence reachable through text and `<br>` only: the matter is empty, and the range is 0 when there is no opening fence |
| FrontMatter.BrRunEndIsRun | src/lib/html.ts:57-64 | The range extends over the whole run of `<br>` elements after the closing fence, and no further |
| FrontMatter.MatterRangeIsFenceAndBreaks | src/lib/html.ts:39-65 | When there is matter, its range ends after a closing fence and the run of `<br>`s that follows it |
| FrontMatter.MatterRangeInBounds | src/lib/html.ts:26-68 | On a non-empty child list the range is a valid child index |
| FrontMatter.FirstParagraphAsCodeDockTransformer | src/lib/html.ts:72-130 | The tree's children become `AsCodeDock` of the old children; an empty root makes the transformer fail and leaves the tree unchanged |
| FrontMatter.AsCodeDockKeepsEverythingElse | src/lib/html.ts:88-125 | Take a first paragraph that opens with `---`, reaches a closing `---` at j through text and `<br>` only (at least one text), and is followed by `<br>`s up to k. It becomes one node. In text-node mode that node is the text `---\n`, each text value between the fences followed by `\n`, then `\n---\n\n`. Otherwise it is `pre > code` holding `===md\n---\n\n`, the same values, then `\n---\n`. A paragraph with the same properties holding the children after k follows when there are any. Every later root child is kept |
| FrontMatter.AsCodeDockIdempotent | src/lib/html.ts:80-129 | Running the transformer twice gives the same children as running it once |
| SpaceChars.NormalizeSpaces | src/lib/html.ts:137 | Same length; each U+00A0, U+2002 and U+2003 becomes a space and every other character is kept |
| SpaceChars.NormalizeSpacesClears | src/lib/html.ts:177-182 | The normalized text has no unusual space, and normalizing leaves a text unchanged iff it had none |
| SpaceChars.NormalizeSpaceCharsTransformer | src/lib/html.ts:138-187 | The children become the mode's result; in `throw` mode an offending node makes the transformer fail with the error message and leaves the tree unchanged |
| SpaceChars.NormalizeNodeCorresponds | src/lib/html.ts:145-185 | Node by node in document order, normalizing changes only the value of a visited node with a string value, and keeps every node's kind |
| SpaceChars.NormalizeInCorresponds | src/lib/html.ts:145-185 | The same correspondence for a list of siblings and all their descendants |
| SpaceChars.FirstOffenderIff | src/lib/html.ts:167-185 | No offender is reported iff no visited node holds an unusual space; a reported offender is the first such node in document order |
| SpaceChars.FirstOffenderNodeIff | src/lib/html.ts:167-185 | The same for one node and its descendants |
| SpaceChars.ThrowModeIff | src/lib/html.ts:148-176 | `throw` mode fails iff a text, emphasis, strong, inline-code or code node holds an unusual space; the message names the first one; otherwise the tree is unchanged |
| SpaceChars.NormalizeModeClears | src/lib/html.ts:148-182 | `normalize` and `normalizeInCodeBlock` never fail, keep value lengths, and leave no unusual space in visited nodes; after `normalize`, `throw` mode accepts the result |
| SpaceChars.NormalizeNodeIdempotent | src/lib/html.ts:177-182 | Normalizing a node twice equals normalizing it once |
| SpaceChars.NormalizeInIdempotent | src/lib/html.ts:177-182 | Normalizing siblings twice equals normalizing them once |
| SpaceChars.NoneModeIsIdentity | src/lib/html.ts:145-147 | With no mode, or mode `none`, the tree is unchanged |
| Brackets.SplitJoin | src/lib/html.ts:189-204 | Joining the pieces of the split gives back the text |
| Brackets.SplitShape | src/lib/html.ts:189-204 | Even pieces hold no `[`; odd pieces are the separators `[` or `\[` |
| Brackets.SplitNoBracket | src/lib/html.ts:204-206 | A text without `[` splits into itself alone |
| Brackets.SplitAtBracket | src/lib/html.ts:204-206 | A text with `[` splits into more than one piece |
| Brackets.SplitFacts | src/lib/html.ts:189-206 | The split is a partition of the text into bracket-free pieces and separators; it has one piece iff the text has no `[` |
| Brackets.PieceNodes | src/lib/html.ts:211-219 | Even pieces become text nodes and odd pieces become html nodes, one node per piece |
| Brackets.UnescapeIsBracketFree | src/lib/html.ts:195-222 | After the rewrite no text node anywhere holds `[` |
| Brackets.UnescapeFixedIff | src/lib/html.ts:195-222 | The rewrite leaves a tree unchanged iff no text node holds `[`, so it is idempotent |
| Brackets.UnescapeKeepsChars | src/lib/html.ts:204-220 | The text and html values, read in document order, are the same before and after the rewrite |
| Brackets.UnescapeHeight | src/lib/html.ts:211-220 | The rewrite adds no depth to the tree |
| Brackets.UnescapeBracketChildren | src/lib/html.ts:201-224 | The visitor walk computes `UnescapeSeq`. The walk splices a node and continues at the absolute index `slen`, which revisits siblings already rewritten |
| Brackets.UnescapeBracketTransformer | src/lib/html.ts:190-226 | The tree's children become `UnescapeSeq` of the old children |
| HtmlConvert.LeadingSpace | src/lib/html.ts:281 | The length of the `^\s*` prefix under JavaScript's `\s` |
| HtmlConvert.LastFence | src/lib/html.ts:281 | The greedy `.+` ends at the last `\n---\n` inside the bounds, and no later one exists |
| HtmlConvert.NewlineRunEnd | src/lib/html.ts:281 | `\n+` takes the whole run of line feeds |
| HtmlConvert.FrontMatterSpan | src/lib/html.ts:281 | A front matter block starts after the leading whitespace, is at least 10 characters long, and lies in the text |
| HtmlConvert.Expand | src/lib/html.ts:299-301 | A replacement without `$` is inserted as it is. Otherwise `$$`, `$&`, `` $` `` and `$'` expand as in `String.prototype.replace` |
| HtmlConvert.ExpandInsertsNoLf | src/lib/html.ts:299-301 | The expansion of a replacement that `InsertsNoLf` (no line feed of its own, no `$&`, `` $` `` or `$'`) holds no line feed |
| HtmlConvert.PlainInsertsNoLf | src/lib/html.ts:299-301 | A replacement with neither `$` nor a line feed `InsertsNoLf` |
| HtmlConvert.ReplaceLfFrom | src/lib/html.ts:299-301 | From index i on, text without line feeds is unchanged, and a replacement that `InsertsNoLf` leaves no line feed |
| HtmlConvert.ReplaceLf | src/lib/html.ts:299-301 | Text without line feeds is unchanged; a replacement that `InsertsNoLf` leaves none |
| HtmlConvert.ReplaceLfIdentity | src/lib/html.ts:299-301 | Replacing line feeds by a line feed is the identity |
| HtmlConvert.ReplaceLfMatchIdentity | src/lib/html.ts:299-301 | Replacing line feeds by `$&`, the match itself, is the identity too |
| HtmlConvert.PostProcessKeepsBlock | src/lib/html.ts:294-303 | The text up to the end of the front matter block is kept verbatim, and no line feed remains after it when the replacement `InsertsNoLf`; without a block and with such a replacement, no line feed remains anywhere |
| HtmlConvert.PostProcessLfIdentity | src/lib/html.ts:294-303 | With `lfTo` a line feed, post-processing is the identity |
| HtmlConvert.AsWrittenAgreesWithoutLeadingSpace | src/lib/html.ts:298-302 | Without leading whitespace, the code as written and the corrected post-processing agree |
| HtmlConvert.AsWrittenMisplacesLeadingSpace | src/lib/html.ts:298-302 | On `" ---\na\n---\nb"` the code as written drops the leading space. It keeps the block's last line feed in the matter and emits it a second time, replaced, as `&#x000a;`. The corrected version keeps the text |
| HtmlConvert.PostProcessAsWrittenShape | src/lib/html.ts:298-302 | As written, the output starts with the captured matter and no line feed follows it when the replacement `InsertsNoLf`; without a block, every line feed is replaced |
| HtmlConvert.SpacedBlockSpan | src/lib/html.ts:281 | On that input the block spans characters 1 to 11 |
| HtmlConvert.WithFinalLf | src/lib/html.ts:304-307 | The result ends with a line feed and adds one only when missing |
| HtmlConvert.FinishShape | src/lib/html.ts:294-307 | The output ends with a line feed, and an empty `lfTo` keeps the serialized text. When `lfTo` is non-empty and `InsertsNoLf`, the only line feed after the block is the last one. Corrected, the text up to the end of the block, leading whitespace included, is kept verbatim. As written, the captured matter comes first. Without leading whitespace the two versions agree |
| HtmlConvert.HtmlToHtmlShape | src/lib/html.ts:283-310 | Empty HTML gives `""` and pipeline errors propagate, in both versions. Otherwise the serialized text is finished as `FinishShape` states: final line feed, verbatim block (corrected) or matter first (as written), no other line feed after the block when `lfTo` `InsertsNoLf`, both versions equal without leading whitespace |
| HtmlConvert.HtmlToHtmlAsWrittenDiffers | src/lib/html.ts:283-310 | When the serializer returns `" ---\na\n---\nb"` and `lfTo` is the default, the conversion as written returns `---\na\n---\n&#x000a;b\n`; the corrected one returns `" ---\na\n---\nb\n"` |
| HtmlConvert.HtmlToHtmlNeedsFirstChild | src/lib/html.ts:82-86 | With front matter on, an HTML fragment that parses to no nodes makes the conversion fail, because `children[0]` is read |
| HtmlConvert.HtmlToDispatch | src/lib/html.ts:334-347 | No convert option or `none` returns the HTML; an unknown option returns `""`; empty HTML gives `""`; `html` output ends with a line feed, in both versions |
| Contentful.BraceBlockIff | src/lib/clients/contentful.ts:38-42 | `/.*({.+}).*/ms` fails iff no `{` is followed later by a `}` with a character between; a match runs from the last `}` back to the last `{` that leaves at least one character between them |
| Contentful.AssetRendererIff | src/lib/clients/contentful.ts:25-67 | The renderer throws iff fields exist and either `file` is null, or the file is an image with a truthy non-string description; it renders an image iff the file is an image with a string `contentType` starting with `image` and a truthy url |
| Contentful.AssetRendererImage | src/lib/clients/contentful.ts:37-63 | The rendered paragraph holds one `img`: alt is the title followed by the description's brace block with line feeds replaced by spaces; src is `https:` plus the url; width and height come from the image details |
| Contentful.EntryRendererIff | src/lib/clients/contentful.ts:69-91 | A node renders iff its content type id is `fragmentCodeblock` and its content is truthy; it renders as `pre > code` holding the content as text |
| Contentful.QueryEquality | src/lib/clients/contentful.ts:103-111 | The loop builds `EqualityQuery(filter)` |
| Contentful.EqualityQueryLastWins | src/lib/clients/contentful.ts:103-111 | A key is in the query iff some `eq` triple names it; its value is that of the last such triple |
| Contentful.FirstDot | src/lib/clients/contentful.ts:115 | The first `.` in the name, or none |
| Contentful.DotPath | src/lib/clients/contentful.ts:115-116 | `split('.', 2)` has two parts iff the name holds a dot; they are the texts before the first dot and between it and the next dot |
| Contentful.HasAgreesWithGetValue | src/lib/clients/contentful.ts:114-140 | `has` throws iff `_getValue` throws; `has` false means the value is undefined; `has` true means the value is the property `has` found. Own properties only, see "## Left out" |
| Contentful.FieldsKeyIff | src/lib/clients/contentful.ts:115-123 | A name is looked up in `fields` iff it starts with `fields.` and `typeof record.fields` is `object`; the key is the second dot-separated part |
| Contentful.GetAsyncRendersOnlyDocuments | src/lib/clients/contentful.ts:141-154 | Every `getSync` error is `getAsync`'s. `getAsync` also fails, with the renderer's error, exactly when an html field holds a rich-text document (truthy object, `nodeType` `document`) whose rendering throws. A document that renders becomes its HTML. Everything else equals `getSync` |
| Contentful.ShapeItemShape | src/lib/clients/contentful.ts:186-199 | An item fails iff it is null or undefined. Otherwise the record has keys id, createdAt, updatedAt, sys and fields in that order; sys and fields are objects taken from the item when they are objects there; the ids and dates come from sys |
| Contentful.ShapeItemAsWrittenAgrees | src/lib/clients/contentful.ts:186-197 | Where neither sys nor fields is null, the code as written and the corrected shaping agree |
| Contentful.ShapeItemAsWrittenNullSys | src/lib/clients/contentful.ts:187-193 | An item whose sys is null makes the code as written throw a TypeError; the corrected shaping accepts it |
| Contentful.ShapeItemAsWrittenShape | src/lib/clients/contentful.ts:186-197 | As written, an item fails iff it is null or undefined or its sys is null. Otherwise the record has the same five keys in order. sys is the item's when it is an object. fields is the item's whenever its `typeof` is `object`, null included, and `{}` otherwise. The ids and dates come from sys |
| Contentful.ShapeEntryFails | src/lib/clients/contentful.ts:186-197 | In either version, an entry's shaping fails iff `EntryFails`: null or undefined, or, as written, a null sys |
| Contentful.ShapeAll | src/lib/clients/contentful.ts:186-199 | All items are shaped in order with the given shaping, one record per item, or the map fails iff some item fails |
| Contentful.ShapeAllFirstFailure | src/lib/clients/contentful.ts:186-199 | A failed map returns the error of the first failing item, and every item before it shapes successfully |
| Contentful.FetchPageCounts | src/lib/clients/contentful.ts:183-206 | In both versions the page fails iff the transform fails or yields an entry that `EntryFails`: null or undefined, or, as written, one whose sys is null. A transform error is returned as is. Otherwise the error is that of the first failing entry. On success, count is the number of fetched items, total is the response's total, and content is the transformed items, shaped one to one by the chosen version |
| MapTypes.ImageFldIndex | src/lib/content.ts:123-131 | The index of the first image mapping whose `dstName` is the key, or -1 when none exists |
| Content.DefinedLookup | src/lib/content.ts:20-27 | After the deletion, a key is present iff it was present with a defined value; every lookup gives the same value as before |
| Content.DeleteUndefined | src/lib/content.ts:20-27 | The `forEach`/`delete` loop leaves exactly the defined entries, in their order |
| Content.SaveContentFile | src/lib/content.ts:10-39 | The result and the file written are `SaveOutcome` and `WrittenFile` of the record, directory and position |
| Content.MetadataKeys | src/lib/content.ts:20-32 | The front matter has `position` set to the given position, lacks `content` and undefined fields, and holds every other field with its value |
| Content.MetadataOrder | src/lib/content.ts:29-32 | Fields keep their order; `position` comes last unless the record has its own, which keeps its place |
| Content.BodyIsContent | src/lib/content.ts:29 | The body is the content string, or `""` when the record has no content |
| Content.SaveOutcomeCases | src/lib/content.ts:15-38 | The call throws iff `path.resolve` throws. It returns a `saveFile error: ` message or null. It returns null iff a file was written: to the resolved path plus `.md`, with the stringified body and metadata, and the write succeeded |
| Content.TransformContentCases | src/lib/content.ts:59-87 | Without a transform, or for a value whose `typeof` is not number, string or object, the content is returned. Otherwise the result is the evaluation iff it is an array. Any failure is `transformFldValue: transform=… message=… value=<JSON of the content>` |
| Content.MapResultOk | src/lib/content.ts:113-115 | Mapping succeeds iff every item maps, and the results line up one to one |
| Content.MapResultFirstFailure | src/lib/content.ts:113-115 | Mapping fails with the error of the first item that fails |
| Content.MapContent | src/lib/content.ts:110-115 | The array loop fills the content in order, or reports the first mapping error |
| Content.RewriteImagesOk | src/lib/content.ts:118-148 | The image pass succeeds iff every field's rewrite succeeds, and the results line up with the fields |
| Content.RewriteImagesFirstFailure | src/lib/content.ts:118-148 | The image pass fails with the first field's error |
| Content.RewriteImageFlds | src/lib/content.ts:119-148 | The in-place loop over the entries array leaves the array equal to the rewritten entries, or reports the pass's error |
| Content.RewriteImagesKeepsOthers | src/lib/content.ts:121-147 | The keys are kept. A field with no image mapping is unchanged. A mapped field's value becomes the image info, saved first when the configuration asks for a download |
| Content.RewriteKeepsNames | src/lib/content.ts:119-147 | The rewritten entries have the record's keys, position by position |
| Content.PutAllAligned | src/lib/content.ts:149-150 | Assigning the first n entries in order to a copy of the record replaces exactly the first n fields |
| Content.AssignEntries | src/lib/content.ts:149-150 | The `forEach` assignment loop computes the copy with the entries assigned |
| Content.WriteBackIsEntries | src/lib/content.ts:149-150 | After the image pass, writing the entries back gives exactly the rewritten entries, with distinct keys |
| Content.SaveRecordCases | src/lib/content.ts:118-154 | A failed image pass ends the run with `saveRemoteContent error: `. Otherwise the record is saved at the current position, and the position advances |
| Content.SaveOne | src/lib/content.ts:118-154 | The record step computes `SaveRecord` |
| Content.SavePage | src/lib/content.ts:118-155 | The record loop with its `break` computes `SaveRecords` |
| Content.SaveRemoteContent | src/lib/content.ts:89-162 | `ret` and the list of saves are those of `RunPages` from the empty state, for the code as written and for the halting variant |
| Content.RunPagesConsistent | src/lib/content.ts:108-160 | The batch keeps its invariant: gapless positions; `ret` is the last save's result while running; an abort message starts with `saveRemoteContent error: ` |
| Content.BatchNumbersSaves | src/lib/content.ts:108-160 | The saves are numbered 0, 1, 2, … in order. A batch that ends normally returns the last save's result. An exception gives a `saveRemoteContent error: ` message |
| Content.PageStopsAtFirstFailure | src/lib/content.ts:118-155 | A page saves a prefix of its records in order; all saves but the last return null; the loop stops only at a non-null result, an exception, or the end of the page |
| Content.HaltingBatchKeepsFailure | src/lib/content.ts:151-154 | With the corrected `break`, every save but the last returns null, and a failing last save is the batch's result |
| Content.OneRecordPage | src/lib/content.ts:109-155 | A page of one record that maps and rewrites saves it once, at the current position |
| Content.AsWrittenLaterPageHidesFailure | src/lib/content.ts:109-156 | As written, a failed save on page one followed by a successful save on page two returns null, though the log holds the failure; the halting variant returns the failure |

## Left out

- I/O, libraries and time are parameters and are not modelled. This covers the HTML parser and serializer, `splitParagraph`, `imageSalt`, the Markdown pipelines, the rich-text renderer `documentToHtmlString`, `toHtml`, JSONata, `path.resolve`, `matter.stringify`, `writeFile`, `imageInfoFromSrc`, `isImageDownload`, `saveImageFile`, `fileNameFromURL`, `mappingFlds` and the Contentful API.
- `src/lib/map.ts`, `src/lib/media.ts` and the client base classes are not part of this model. Their functions appear as parameters.
- `saveRemoteContent` reads `skip`, `limit` and `pageSize`, which no enclosing scope defines. As written, `.skip(skip)` at src/lib/content.ts:103 throws a ReferenceError inside the `try`, so every call returns `saveRemoteContent error: ReferenceError: skip is not defined` before any page is fetched. The batch model describes the code with those names bound, starting from the pages the client yields.
- The client's paging, its `getEntries` error text and the GraphQL client (`ClientCtfGql`) are left out. A page that fails to arrive is an error with its message.
- Async code is modelled as sequential steps. The ordering of promises and concurrent access are not captured.
- HtmlConvert.HtmlToMarkdown: the Markdown pipeline and `gray-matter` round trip are a parameter. Only the empty-input case is modelled.
- The asset and entry renderers return hast nodes rather than the HTML text `toHtml` produces. Contentful.NodeRendererEntry puts a non-string `content` into its text node through `String()`, where the source puts the raw value.
- Contentful.GetAsync: the rich-text renderer `documentToHtmlString` is a parameter that may fail; how it calls the node renderers is not modelled.
- `typeof` on functions, symbols and bigints is not modelled, and numbers are integers. JSON text follows `JSON.stringify` for these values only.
- Object key order ignores JavaScript's rule that integer-like keys come first.
- A TypeError message follows the V8 engine's wording (`Cannot read properties of null (reading 'id')`, `… is not a function`). Other engines word it differently.
- Content.SaveContentFile: `${content}` for a non-string content uses the model's `String()`. Objects become `[object Object]` and arrays are joined with commas.
- Json.OwnFields: arrays have no own properties in the model. `has` and `_getValue` on names such as `fields.0` or `fields.length` find nothing when `fields` is an array, where JavaScript finds the element or the length.
- HtmlConvert.ReplaceLf: `lfTo` is expanded as `String.prototype.replace` does, so `$&`, `` $` `` and `$'` can put line feeds back. The no-line-feed clauses of HtmlConvert.ReplaceLf, PostProcessKeepsBlock, PostProcessAsWrittenShape, FinishShape and HtmlToHtmlShape therefore hold only for a replacement that `InsertsNoLf`, which the default `&#x000a;` does.
- Json.Get: there is no prototype chain. Contentful.HasAgreesWithGetValue: `_getValue` of a name inherited from `Object.prototype`, such as `constructor` or `fields.toString`, is a function in JavaScript while `has` is false; the model reads it as undefined.
- HtmlConvert.FrontMatterSpan models the regular expression on the serialized text. It does not model regular-expression backtracking limits.

## Findings

| source | as written | input that shows it | evidently intended | confidence | as-written member | corrected member |
|---|---|---|---|---|---|---|
| src/lib/html.ts:298-302 | The block is matched after `^\s*`, but the text is sliced at the block's length from index 0 | `" ---\na\n---\nb"` with the default `lfTo` gives `---\na\n---\n&#x000a;b`: the leading space is dropped, and the block's last line feed stays in the matter and appears a second time as `&#x000a;` | Slice after the leading whitespace plus the block, so the text keeps every character | high, not executed | HtmlConvert.HtmlToHtmlAsWrittenDiffers | HtmlConvert.FinishShape |
| src/lib/clients/contentful.ts:187-193 | `typeof item.sys === 'object'` is true for `null`, so `sys.id` throws | an item `{ sys: null }` | Treat a null `sys` (and `fields`) like a missing one | high, not executed | Contentful.ShapeItemAsWrittenNullSys | Contentful.FetchPageCounts |
| src/lib/content.ts:151-154 | `break` leaves only the record loop, so the next page's save overwrites `ret` | page one's only save fails, page two's only save succeeds: the batch returns null | Stop the whole batch at the first failed save and return its error | medium, not executed | Content.AsWrittenLaterPageHidesFailure | Content.HaltingBatchKeepsFailure |
