/**
 * The Contentful client: how embedded assets and entries of a rich-text field are
 * rendered, how a query filter becomes request parameters, how a field is looked up
 * in a fetched entry, and how each fetched entry is reshaped into a record.
 */
module Contentful {
  import opened Wrappers
  import opened Json
  import opened HtmlTree
  import opened MapTypes
  import HtmlConvert

  // ---------------------------------------------------------------------------
  // The `{...}` block of an asset description: `/.*({.+}).*/ms`

  /** The last position below `hi` that holds `c`. */
  function LastIndexOf(s: string, c: char, hi: nat): (r: Option<nat>)
    requires hi <= |s|
    ensures r.Some? ==> r.value < hi && s[r.value] == c
    ensures r.Some? ==> forall k :: r.value < k < hi ==> s[k] != c
    ensures r.None? ==> forall k :: 0 <= k < hi ==> s[k] != c
  {
    if hi == 0 then None
    else if s[hi - 1] == c then Some(hi - 1)
    else LastIndexOf(s, c, hi - 1)
  }

  /**
   * The captured group: the greedy leading `.*` leaves the last `{` that still has
   * a `}` at least two places further on, and the greedy `.+` runs to the last `}`.
   */
  function BraceBlock(s: string): Option<string>
  {
    match LastIndexOf(s, '}', |s|)
    case None => None
    case Some(j) =>
      if j < 2 then None
      else
        match LastIndexOf(s, '{', j - 1)
        case None => None
        case Some(i) => Some(s[i..j + 1])
  }

  /** `{` at `i` and `}` at `j` with at least one character between them. */
  predicate BracePair(s: string, i: int, j: int)
  {
    0 <= i && i + 2 <= j < |s| && s[i] == '{' && s[j] == '}'
  }

  /**
   * The description has a block exactly when some `{` is followed, at least two
   * places on, by a `}`; the block then runs from the last such `{` to the last `}`.
   */
  lemma BraceBlockIff(s: string)
    ensures BraceBlock(s).None? <==> forall i, j :: 0 <= i < j < |s| ==> !BracePair(s, i, j)
    ensures BraceBlock(s).Some? ==>
              exists i, j :: BracePair(s, i, j) && BraceBlock(s).value == s[i..j + 1] &&
                (forall k :: j < k < |s| ==> s[k] != '}') &&
                (forall k :: i < k < j - 1 ==> s[k] != '{')
  {
    match LastIndexOf(s, '}', |s|)
    case None =>
    case Some(j) =>
      if j >= 2 {
        match LastIndexOf(s, '{', j - 1)
        case None =>
        case Some(i) =>
          assert BracePair(s, i, j);
      } else {
      }
  }

  // ---------------------------------------------------------------------------
  // Renderers for embedded nodes of a rich-text document

  const MatchNotAFunction: string := "TypeError: (description || '').match is not a function"

  /** `description` as the alt text sees it: its block, or nothing, or the TypeError of `.match`. */
  function DescriptionBlock(description: Value): Result<Option<string>>
  {
    if !Truthy(description) then Ok(BraceBlock(""))
    else if description.Str? then Ok(BraceBlock(description.s))
    else Err(MatchNotAFunction)
  }

  /** `title || ''`, followed by the block with its line feeds turned into spaces. */
  function AltText(title: Value, block: Option<string>): Value
  {
    var alt := if Truthy(title) then title else Str("");
    match block
    case None => alt
    case Some(b) => Str(JsString(alt) + HtmlConvert.ReplaceLf(b, " "))
  }

  /** The asset fields that make an image: a defined `file` whose string `contentType` starts with `image` and whose `url` is truthy. */
  predicate IsImageFile(file: Value)
  {
    && !file.Undefined? && !file.Null?
    && Get(OwnFields(file), "contentType").Str?
    && StartsWith(Get(OwnFields(file), "contentType").s, "image")
    && Truthy(Get(OwnFields(file), "url"))
  }

  function ImageParagraph(alt: Value, file: Value): Node
  {
    var image := OptProp(OptProp(file, "details"), "image");
    Element("p", [], [Element("img", [
      Field("alt", alt),
      Field("src", Str("https:" + JsString(Get(OwnFields(file), "url")))),
      Field("width", OptProp(image, "width")),
      Field("height", OptProp(image, "height"))], [])])
  }

  /**
   * The tree an embedded asset renders to, `None` for the empty string, or the
   * TypeError the renderer throws (a `null` file, a description that is not a string).
   */
  function NodeRendererAsset(node: Value): Result<Option<Node>>
    requires node.Obj?
  {
    var fields := OptProp(OptProp(OptProp(node, "data"), "target"), "fields");
    if !Truthy(fields) then Ok(None)
    else
      var file := Get(OwnFields(fields), "file");
      if file.Undefined? then Ok(None)
      else
        match Prop(file, "contentType")
        case Err(e) => Err(e)
        case Ok(contentType) =>
          if !IsImageFile(file) then Ok(None)
          else
            match DescriptionBlock(Get(OwnFields(fields), "description"))
            case Err(e) => Err(e)
            case Ok(block) => Ok(Some(ImageParagraph(AltText(Get(OwnFields(fields), "title"), block), file)))
  }

  /**
   * An asset renders exactly when its fields are present and make an image, and
   * its description is a string or falsy; it fails only on a `null` file or on a
   * description that is truthy but not a string.
   */
  lemma AssetRendererIff(node: Value)
    requires node.Obj?
    ensures var fields := OptProp(OptProp(OptProp(node, "data"), "target"), "fields");
      var file := Get(OwnFields(fields), "file");
      var description := Get(OwnFields(fields), "description");
      var r := NodeRendererAsset(node);
      && (r.Err? <==> Truthy(fields) && (file.Null? || (IsImageFile(file) && Truthy(description) && !description.Str?)))
      && (r.Ok? && r.value.Some? <==> Truthy(fields) && IsImageFile(file) && (!Truthy(description) || description.Str?))
  {
  }

  /**
   * A rendered asset is a paragraph holding one image whose source is the file's
   * URL behind `https:`, whose size is the file's image size, and whose alt text is
   * the title (or nothing) followed by the description's `{...}` block with spaces
   * for line feeds.
   */
  lemma AssetRendererImage(node: Value)
    requires node.Obj?
    requires NodeRendererAsset(node).Ok? && NodeRendererAsset(node).value.Some?
    ensures var fields := OptProp(OptProp(OptProp(node, "data"), "target"), "fields");
      var file := Get(OwnFields(fields), "file");
      var description := Get(OwnFields(fields), "description");
      var title := if Truthy(Get(OwnFields(fields), "title")) then Get(OwnFields(fields), "title") else Str("");
      var p := NodeRendererAsset(node).value.value;
      var image := OptProp(OptProp(file, "details"), "image");
      && p.Element? && p.tag == "p" && p.props == [] && |p.children| == 1
      && var alt :=
           if description.Str? && BraceBlock(description.s).Some?
           then Str(JsString(title) + HtmlConvert.ReplaceLf(BraceBlock(description.s).value, " "))
           else title;
      && p.children[0] == Element("img", [
           Field("alt", alt),
           Field("src", Str("https:" + JsString(Get(OwnFields(file), "url")))),
           Field("width", OptProp(image, "width")),
           Field("height", OptProp(image, "height"))], [])
  {
    assert BraceBlock("") == None;
  }

  /** The tree an embedded entry renders to: a code block for a code fragment with content. */
  function NodeRendererEntry(node: Value): Option<Node>
    requires node.Obj?
  {
    var target := OptProp(OptProp(node, "data"), "target");
    var typeId := OptProp(OptProp(OptProp(OptProp(target, "sys"), "contentType"), "sys"), "id");
    var content := OptProp(OptProp(target, "fields"), "content");
    if typeId == Str("fragmentCodeblock") && Truthy(content) then
      Some(Element("pre", [], [Element("code", [], [Text(JsString(content))])]))
    else None
  }

  /** An entry renders exactly for a `fragmentCodeblock` with truthy content, to `pre > code` holding only that content. */
  lemma EntryRendererIff(node: Value)
    requires node.Obj?
    ensures var target := OptProp(OptProp(node, "data"), "target");
      var content := OptProp(OptProp(target, "fields"), "content");
      var r := NodeRendererEntry(node);
      && (r.Some? <==>
            OptProp(OptProp(OptProp(OptProp(target, "sys"), "contentType"), "sys"), "id") == Str("fragmentCodeblock")
            && Truthy(content))
      && (r.Some? ==>
            r.value.Element? && r.value.tag == "pre" && |r.value.children| == 1
            && r.value.children[0].Element? && r.value.children[0].tag == "code"
            && r.value.children[0].children == [Text(JsString(content))]
            && (content.Str? ==> r.value.children[0].children == [Text(content.s)]))
  {
  }

  // ---------------------------------------------------------------------------
  // Query parameters

  /** The parameters the `eq` triples of a filter make, later triples overriding earlier ones. */
  function EqualityQuery(filter: seq<OpValue>): map<string, Value>
  {
    if filter == [] then map[]
    else
      var q := EqualityQuery(filter[..|filter| - 1]);
      var last := filter[|filter| - 1];
      if last.op == "eq" then q[last.key := last.value] else q
  }

  /** `filter.filter(([o]) => o === 'eq').forEach(([_o, k, v]) => { ret[k] = v })` */
  method QueryEquality(filter: seq<OpValue>) returns (ret: map<string, Value>)
    ensures ret == EqualityQuery(filter)
  {
    ret := map[];
    var i := 0;
    while i < |filter|
      invariant 0 <= i <= |filter|
      invariant ret == EqualityQuery(filter[..i])
    {
      assert filter[..i + 1][..i] == filter[..i];
      if filter[i].op == "eq" {
        ret := ret[filter[i].key := filter[i].value];
      }
      i := i + 1;
    }
    assert filter[..i] == filter;
  }

  predicate IsEqFor(t: OpValue, k: string)
  {
    t.op == "eq" && t.key == k
  }

  /**
   * A key is a parameter exactly when some `eq` triple names it, and its value is
   * that of the last such triple; other operators are dropped.
   */
  lemma {:induction false} EqualityQueryLastWins(filter: seq<OpValue>, k: string)
    ensures k in EqualityQuery(filter) <==> exists i :: 0 <= i < |filter| && IsEqFor(filter[i], k)
    ensures k in EqualityQuery(filter) ==>
              exists i :: 0 <= i < |filter| && IsEqFor(filter[i], k) &&
                EqualityQuery(filter)[k] == filter[i].value &&
                forall j :: i < j < |filter| ==> !IsEqFor(filter[j], k)
  {
    if filter != [] {
      var init := filter[..|filter| - 1];
      var last := filter[|filter| - 1];
      EqualityQueryLastWins(init, k);
      forall i | 0 <= i < |init| ensures init[i] == filter[i] { }
      if IsEqFor(last, k) {
        assert EqualityQuery(filter)[k] == filter[|filter| - 1].value;
      } else if k in EqualityQuery(init) {
        var i :| 0 <= i < |init| && IsEqFor(init[i], k) && EqualityQuery(init)[k] == init[i].value &&
                 forall j :: i < j < |init| ==> !IsEqFor(init[j], k);
        assert IsEqFor(filter[i], k);
      } else {
        assert forall i :: 0 <= i < |filter| ==> !IsEqFor(filter[i], k) by {
          forall i | 0 <= i < |filter| ensures !IsEqFor(filter[i], k) {
            if i < |init| { assert filter[i] == init[i]; }
          }
        }
      }
    }
  }

  // ---------------------------------------------------------------------------
  // Field lookup in a fetched entry

  /** The position of the first `.` in `s`. */
  function FirstDot(s: string): (r: Option<nat>)
    ensures r.Some? ==> r.value < |s| && s[r.value] == '.' && '.' !in s[..r.value]
    ensures r.None? ==> '.' !in s
  {
    if s == [] then None
    else if s[0] == '.' then Some(0)
    else
      match FirstDot(s[1..])
      case None => None
      case Some(i) => assert s[..i + 1] == [s[0]] + s[1..][..i]; Some(i + 1)
  }

  /** `name.split('.', 2)` when it gives two pieces: the text before the first dot and the text between the first and the second. */
  function DotPath(name: string): (r: Option<(string, string)>)
    ensures r.None? <==> '.' !in name
    ensures r.Some? ==> '.' !in r.value.0 && '.' !in r.value.1
    ensures r.Some? ==> |r.value.0| < |name| && name[..|r.value.0|] == r.value.0 && name[|r.value.0|] == '.'
    ensures r.Some? ==> var rest := name[|r.value.0| + 1..];
              |r.value.1| <= |rest| && rest[..|r.value.1|] == r.value.1 && (|r.value.1| == |rest| || rest[|r.value.1|] == '.')
  {
    match FirstDot(name)
    case None => None
    case Some(i) =>
      var rest := name[i + 1..];
      match FirstDot(rest)
      case None => Some((name[..i], rest))
      case Some(j) => Some((name[..i], rest[..j]))
  }

  /**
   * Where a name is looked up: `Some(x)` when it reads `fields.x` (or `fields.x.…`)
   * and the record's `fields` is of type object, `None` when the whole name is a
   * top-level key.
   */
  function FieldsKey(record: seq<Field>, name: string): Option<string>
  {
    match DotPath(name)
    case None => None
    case Some(path) =>
      if path.0 == "fields" && TypeOf(Get(record, "fields")) == "object" then Some(path.1) else None
  }

  /** `CtfRecord.has`: a `null` `fields` makes `hasOwnProperty` throw. */
  function Has(record: seq<Field>, srcName: string): Result<bool>
  {
    match FieldsKey(record, srcName)
    case Some(k) =>
      var f := Get(record, "fields");
      if f.Null? then Err(Prop(f, "hasOwnProperty").message) else Ok(HasKey(OwnFields(f), k))
    case None => Ok(HasKey(record, srcName))
  }

  /** `CtfRecord._getValue`: a `null` `fields` makes the property read throw. */
  function GetValue(record: seq<Field>, fldName: string): Result<Value>
  {
    match FieldsKey(record, fldName)
    case Some(k) =>
      var f := Get(record, "fields");
      if f.Null? then Err(Prop(f, k).message) else Ok(Get(OwnFields(f), k))
    case None => Ok(Get(record, fldName))
  }

  /**
   * `has` and `_getValue` read the same place: they fail together, a field `has`
   * denies reads as `undefined`, and a field it confirms reads as the value of
   * that property. A name `fields.x…` reads `x` inside the record's `fields`
   * object; any other name is a top-level key.
   */
  lemma HasAgreesWithGetValue(record: seq<Field>, name: string)
    ensures Has(record, name).Err? <==> GetValue(record, name).Err?
    ensures Has(record, name) == Ok(false) ==> GetValue(record, name) == Ok(Undefined)
    ensures Has(record, name) == Ok(true) ==>
              var fs := if FieldsKey(record, name).Some? then OwnFields(Get(record, "fields")) else record;
              var k := if FieldsKey(record, name).Some? then FieldsKey(record, name).value else name;
              exists i :: 0 <= i < |fs| && fs[i].key == k && GetValue(record, name) == Ok(fs[i].val)
  {
    if Has(record, name) == Ok(true) {
      var fs := if FieldsKey(record, name).Some? then OwnFields(Get(record, "fields")) else record;
      var k := if FieldsKey(record, name).Some? then FieldsKey(record, name).value else name;
      var i := GetFound(fs, k);
    }
  }

  /**
   * A name `fields.x…` is read inside the record's `fields` when that is of type
   * object, under the key `x` that runs up to the next dot; any other name is a
   * top-level key.
   */
  lemma FieldsKeyIff(record: seq<Field>, name: string)
    ensures FieldsKey(record, name).Some? <==>
              StartsWith(name, "fields.") && TypeOf(Get(record, "fields")) == "object"
    ensures FieldsKey(record, name).Some? ==>
              var x := name[7..];
              var k := FieldsKey(record, name).value;
              StartsWith(x, k) && '.' !in k && (x == k || x[|k|] == '.')
  {
    if StartsWith(name, "fields.") {
      assert name[6] == '.';
      assert name[..6] == "fields";
      assert '.' !in name[..6];
      assert FirstDot(name) == Some(6);
    }
    var path := DotPath(name);
    if path.Some? && path.value.0 == "fields" {
      assert name[..7] == "fields.";
    }
  }

  // ---------------------------------------------------------------------------
  // Values of mapped fields

  /** Only html fields are read asynchronously. */
  predicate IsAsyncFld(m: MapFld)
  {
    m.fldType.HtmlFld?
  }

  /** A rich-text document: a truthy object whose `nodeType` is `document`. */
  predicate IsDocument(v: Value)
  {
    Truthy(v) && TypeOf(v) == "object" && Get(OwnFields(v), "nodeType") == Str("document")
  }

  /** `getSync`: the field's value after the record's per-field transform (`execTransform`). */
  function GetSync(record: seq<Field>, m: MapFld, execTransform: (MapFld, Value) -> Value): Result<Value>
  {
    match GetValue(record, m.srcName)
    case Err(e) => Err(e)
    case Ok(v) => Ok(execTransform(m, v))
  }

  /**
   * `getAsync`: as `getSync`, with a rich-text document of an html field rendered to
   * HTML. The rendering runs the node renderers, which may throw (`AssetRendererIff`).
   */
  function GetAsync(record: seq<Field>, m: MapFld, execTransform: (MapFld, Value) -> Value,
                    richTextToHtml: Value -> Result<string>): Result<Value>
  {
    match GetValue(record, m.srcName)
    case Err(e) => Err(e)
    case Ok(raw) =>
      var v := execTransform(m, raw);
      if m.fldType.HtmlFld? && IsDocument(v) then
        match richTextToHtml(v)
        case Err(e) => Err(e)
        case Ok(html) => Ok(Str(html))
      else Ok(v)
  }

  /**
   * The asynchronous read differs from the synchronous one only for an html field
   * whose value is a rich-text document: that document is rendered, and a renderer
   * that throws makes the read fail with its error. Every other value, and every
   * error of the synchronous read, is passed on unchanged.
   */
  lemma GetAsyncRendersOnlyDocuments(record: seq<Field>, m: MapFld, execTransform: (MapFld, Value) -> Value,
                                     richTextToHtml: Value -> Result<string>)
    ensures var s := GetSync(record, m, execTransform);
      var a := GetAsync(record, m, execTransform, richTextToHtml);
      && (s.Err? ==> a == s)
      && (a.Err? <==> s.Err? || (IsAsyncFld(m) && IsDocument(s.value) && richTextToHtml(s.value).Err?))
      && (s.Ok? && a.Err? ==> a.message == richTextToHtml(s.value).message)
      && (s.Ok? && IsAsyncFld(m) && IsDocument(s.value) && richTextToHtml(s.value).Ok? ==>
            a == Ok(Str(richTextToHtml(s.value).value)))
      && (!IsAsyncFld(m) || s.Err? || !IsDocument(s.value) ==> a == s)
  {
  }

  // ---------------------------------------------------------------------------
  // Fetched entries as records

  function ShapeRecord(sys: Value, fields: Value): Value
  {
    Obj([
      Field("id", Get(OwnFields(sys), "id")),
      Field("createdAt", Get(OwnFields(sys), "createdAt")),
      Field("updatedAt", Get(OwnFields(sys), "updatedAt")),
      Field("sys", sys),
      Field("fields", fields)])
  }

  /**
   * The reshaping as written: a `sys` or `fields` of type object is kept, which lets
   * `null` through, and reading `id` of a `null` `sys` throws.
   */
  function ShapeItemAsWritten(item: Value): Result<Value>
  {
    match Prop(item, "sys")
    case Err(e) => Err(e)
    case Ok(itemSys) =>
      var sys := if TypeOf(itemSys) == "object" then itemSys else Obj([]);
      var fields := if TypeOf(Get(OwnFields(item), "fields")) == "object" then Get(OwnFields(item), "fields") else Obj([]);
      if sys.Null? then Err(Prop(sys, "id").message)
      else Ok(ShapeRecord(sys, fields))
  }

  /** The reshaping as intended: anything that is not a non-null object is replaced by `{}`. */
  function ShapeItem(item: Value): Result<Value>
  {
    match Prop(item, "sys")
    case Err(e) => Err(e)
    case Ok(itemSys) =>
      var sys := if IsObject(itemSys) then itemSys else Obj([]);
      var fields := if IsObject(Get(OwnFields(item), "fields")) then Get(OwnFields(item), "fields") else Obj([]);
      Ok(ShapeRecord(sys, fields))
  }

  /**
   * Each entry becomes a record with exactly the keys `id`, `createdAt`, `updatedAt`,
   * `sys` and `fields`, the first three read from `sys`; `sys` and `fields` are the
   * entry's own when they are objects and `{}` otherwise. Only an entry that is
   * `null` or `undefined` fails.
   */
  lemma ShapeItemShape(item: Value)
    ensures ShapeItem(item).Err? <==> item.Undefined? || item.Null?
    ensures ShapeItem(item).Ok? ==>
              var r := ShapeItem(item).value;
              var sys := Get(r.fields, "sys");
              var fields := Get(r.fields, "fields");
              && r.Obj? && Keys(r.fields) == ["id", "createdAt", "updatedAt", "sys", "fields"]
              && IsObject(sys) && IsObject(fields)
              && (IsObject(Get(OwnFields(item), "sys")) ==> sys == Get(OwnFields(item), "sys"))
              && (IsObject(Get(OwnFields(item), "fields")) ==> fields == Get(OwnFields(item), "fields"))
              && Get(r.fields, "id") == Get(OwnFields(sys), "id")
              && Get(r.fields, "createdAt") == Get(OwnFields(sys), "createdAt")
              && Get(r.fields, "updatedAt") == Get(OwnFields(sys), "updatedAt")
  {
    if !item.Undefined? && !item.Null? {
      var itemSys := Get(OwnFields(item), "sys");
      var itemFields := Get(OwnFields(item), "fields");
      ShapeRecordFields(if IsObject(itemSys) then itemSys else Obj([]),
                        if IsObject(itemFields) then itemFields else Obj([]));
    }
  }

  /** The record built from `sys` and `fields`: its five keys, in order, and what each holds. */
  lemma ShapeRecordFields(sys: Value, fields: Value)
    ensures var r := ShapeRecord(sys, fields);
      && r.Obj? && Keys(r.fields) == ["id", "createdAt", "updatedAt", "sys", "fields"]
      && Get(r.fields, "id") == Get(OwnFields(sys), "id")
      && Get(r.fields, "createdAt") == Get(OwnFields(sys), "createdAt")
      && Get(r.fields, "updatedAt") == Get(OwnFields(sys), "updatedAt")
      && Get(r.fields, "sys") == sys
      && Get(r.fields, "fields") == fields
  {
    ShapeRecordKeys(sys, fields);
    ShapeRecordFromSys(sys, fields);
    ShapeRecordParts(sys, fields);
  }

  lemma ShapeRecordKeys(sys: Value, fields: Value)
    ensures Keys(ShapeRecord(sys, fields).fields) == ["id", "createdAt", "updatedAt", "sys", "fields"]
  {
    var fs := ShapeRecord(sys, fields).fields;
    var ks := Keys(fs);
    assert |ks| == 5 && ks[0] == "id" && ks[1] == "createdAt" && ks[2] == "updatedAt" && ks[3] == "sys" && ks[4] == "fields";
  }

  lemma ShapeRecordFromSys(sys: Value, fields: Value)
    ensures var fs := ShapeRecord(sys, fields).fields;
      && Get(fs, "id") == Get(OwnFields(sys), "id")
      && Get(fs, "createdAt") == Get(OwnFields(sys), "createdAt")
      && Get(fs, "updatedAt") == Get(OwnFields(sys), "updatedAt")
  {
    var fs := ShapeRecord(sys, fields).fields;
    var t1 := fs[1..];
    var t2 := t1[1..];
    assert fs[0].key == "id" && Get(fs, "id") == fs[0].val;
    assert t1[0].key == "createdAt" && Get(t1, "createdAt") == t1[0].val;
    assert t2[0].key == "updatedAt" && Get(t2, "updatedAt") == t2[0].val;
    assert Get(t1, "updatedAt") == Get(t2, "updatedAt");
    assert Get(fs, "createdAt") == Get(t1, "createdAt");
    assert Get(fs, "updatedAt") == Get(t1, "updatedAt");
  }

  lemma ShapeRecordParts(sys: Value, fields: Value)
    ensures var fs := ShapeRecord(sys, fields).fields;
      Get(fs, "sys") == sys && Get(fs, "fields") == fields
  {
    var fs := ShapeRecord(sys, fields).fields;
    var t1 := fs[1..];
    var t2 := t1[1..];
    var t3 := t2[1..];
    assert t3 == [Field("sys", sys), Field("fields", fields)];
    assert Get(t3, "sys") == sys;
    assert Get(t3[1..], "fields") == fields;
    assert Get(t3, "fields") == fields;
    assert t2[0].key == "updatedAt";
    assert Get(t2, "sys") == sys && Get(t2, "fields") == fields;
    assert t1[0].key == "createdAt";
    assert Get(t1, "sys") == sys && Get(t1, "fields") == fields;
    assert fs[0].key == "id";
  }

  /** The code as written and the intended reshaping agree unless `sys` or `fields` is `null`. */
  lemma ShapeItemAsWrittenAgrees(item: Value)
    requires !Get(OwnFields(item), "sys").Null? && !Get(OwnFields(item), "fields").Null?
    ensures ShapeItemAsWritten(item) == ShapeItem(item)
  {
  }

  /** An entry whose `sys` is `null` makes the code as written throw. */
  lemma ShapeItemAsWrittenNullSys()
    ensures ShapeItemAsWritten(Obj([Field("sys", Null)])) == Err("TypeError: Cannot read properties of null (reading 'id')")
    ensures ShapeItem(Obj([Field("sys", Null)])).Ok?
  {
    var item := Obj([Field("sys", Null)]);
    GetCons(Field("sys", Null), [], "sys");
    GetCons(Field("sys", Null), [], "fields");
    assert Prop(item, "sys") == Ok(Null);
    assert Prop(Null, "id").message == "TypeError: Cannot read properties of null (reading 'id')";
  }

  /**
   * The reshaping of one entry, as intended (`corrected`) or as the code is written.
   */
  function ShapeEntry(item: Value, corrected: bool): Result<Value>
  {
    if corrected then ShapeItem(item) else ShapeItemAsWritten(item)
  }

  /**
   * The entries whose reshaping fails: `null` and `undefined`, and, as the code is
   * written, an entry whose `sys` is `null`.
   */
  predicate EntryFails(item: Value, corrected: bool)
  {
    item.Undefined? || item.Null? || (!corrected && Get(OwnFields(item), "sys").Null?)
  }

  /**
   * The reshaping as written fails on `null` and `undefined` entries and on a
   * `null` `sys`; otherwise it builds the same five keys as the intended one, but
   * keeps a `fields` whose type is object, `null` included.
   */
  lemma ShapeItemAsWrittenShape(item: Value)
    ensures ShapeItemAsWritten(item).Err? <==> EntryFails(item, false)
    ensures ShapeItemAsWritten(item).Ok? ==>
              var r := ShapeItemAsWritten(item).value;
              var sys := Get(r.fields, "sys");
              var fields := Get(r.fields, "fields");
              var itemFields := Get(OwnFields(item), "fields");
              && r.Obj? && Keys(r.fields) == ["id", "createdAt", "updatedAt", "sys", "fields"]
              && IsObject(sys)
              && (IsObject(Get(OwnFields(item), "sys")) ==> sys == Get(OwnFields(item), "sys"))
              && fields == (if TypeOf(itemFields) == "object" then itemFields else Obj([]))
              && Get(r.fields, "id") == Get(OwnFields(sys), "id")
              && Get(r.fields, "createdAt") == Get(OwnFields(sys), "createdAt")
              && Get(r.fields, "updatedAt") == Get(OwnFields(sys), "updatedAt")
  {
    if !item.Undefined? && !item.Null? {
      var itemSys := Get(OwnFields(item), "sys");
      var itemFields := Get(OwnFields(item), "fields");
      if !itemSys.Null? {
        ShapeRecordFields(if IsObject(itemSys) then itemSys else Obj([]),
                          if TypeOf(itemFields) == "object" then itemFields else Obj([]));
      }
    }
  }

  /** Which entries fail, in either version. */
  lemma ShapeEntryFails(item: Value, corrected: bool)
    ensures ShapeEntry(item, corrected).Err? <==> EntryFails(item, corrected)
  {
    if corrected {
      ShapeItemShape(item);
    } else {
      ShapeItemAsWrittenShape(item);
    }
  }

  /**
   * `contentRaw.map(...)` with a reshaping that may throw: one record per entry, in
   * order, or the error of the first entry that fails, which stops the mapping.
   */
  function ShapeAll(items: seq<Value>, shape: Value -> Result<Value>): (r: Result<seq<Value>>)
    ensures r.Ok? ==> |r.value| == |items| && forall i :: 0 <= i < |items| ==> shape(items[i]) == Ok(r.value[i])
    ensures r.Err? <==> exists i :: 0 <= i < |items| && shape(items[i]).Err?
  {
    if items == [] then Ok([])
    else
      match shape(items[0])
      case Err(e) => Err(e)
      case Ok(x) =>
        match ShapeAll(items[1..], shape)
        case Err(e) =>
          assert exists i :: 0 <= i < |items| - 1 && shape(items[1..][i]).Err?;
          Err(e)
        case Ok(xs) =>
          assert forall i :: 1 <= i < |items| ==> items[i] == items[1..][i - 1];
          Ok([x] + xs)
  }

  /** The error of a failed mapping is that of its first failing entry. */
  lemma {:induction false} ShapeAllFirstFailure(items: seq<Value>, shape: Value -> Result<Value>)
    requires ShapeAll(items, shape).Err?
    ensures exists i :: 0 <= i < |items| && shape(items[i]) == Err(ShapeAll(items, shape).message) &&
              forall j :: 0 <= j < i ==> shape(items[j]).Ok?
  {
    var e := ShapeAll(items, shape).message;
    if shape(items[0]).Err? {
      assert shape(items[0]) == Err(e);
    } else {
      var tail := items[1..];
      assert ShapeAll(tail, shape) == Err(e);
      ShapeAllFirstFailure(tail, shape);
      var i :| 0 <= i < |tail| && shape(tail[i]) == Err(e) &&
                forall j :: 0 <= j < i ==> shape(tail[j]).Ok?;
      assert items[i + 1] == tail[i];
      forall j | 0 <= j < i + 1 ensures shape(items[j]).Ok? {
        if j > 0 {
          assert items[j] == tail[j - 1];
        }
      }
    }
  }

  /** One page of the fetch: the total the API reports, the number of entries, the records. */
  datatype FetchResult = FetchResult(total: Value, count: nat, content: seq<Value>)

  /**
   * `ClientCtf._fetch` after the request: the list-level transform (which may throw),
   * then each transformed entry reshaped, as intended or as written. `count` is the
   * number of entries the API returned, before the transform.
   */
  function FetchPage(items: seq<Value>, total: Value, execTransform: seq<Value> -> Result<seq<Value>>, corrected: bool): Result<FetchResult>
  {
    match execTransform(items)
    case Err(e) => Err(e)
    case Ok(raw) =>
      match ShapeAll(raw, item => ShapeEntry(item, corrected))
      case Err(e) => Err(e)
      case Ok(content) => Ok(FetchResult(total, |items|, content))
  }

  /**
   * A page counts the entries the API returned and holds one record per
   * transformed entry, in order. It fails when the transform fails, or with the
   * error of the first transformed entry that fails: one that is `null` or
   * `undefined`, or, as the code is written, one whose `sys` is `null`.
   */
  lemma FetchPageCounts(items: seq<Value>, total: Value, execTransform: seq<Value> -> Result<seq<Value>>, corrected: bool)
    ensures var r := FetchPage(items, total, execTransform, corrected);
      && (r.Err? <==>
            (execTransform(items).Err? ||
             exists i :: 0 <= i < |execTransform(items).value| && EntryFails(execTransform(items).value[i], corrected)))
      && (execTransform(items).Err? ==> r == Err(execTransform(items).message))
      && (execTransform(items).Ok? && r.Err? ==>
            var raw := execTransform(items).value;
            exists i :: 0 <= i < |raw| && EntryFails(raw[i], corrected) && ShapeEntry(raw[i], corrected) == Err(r.message) &&
              forall j :: 0 <= j < i ==> !EntryFails(raw[j], corrected))
      && (r.Ok? ==>
            var raw := execTransform(items).value;
            && r.value.count == |items| && r.value.total == total && |r.value.content| == |raw|
            && forall i :: 0 <= i < |raw| ==> ShapeEntry(raw[i], corrected) == Ok(r.value.content[i]))
  {
    if execTransform(items).Ok? {
      var raw := execTransform(items).value;
      forall i | 0 <= i < |raw| ensures ShapeEntry(raw[i], corrected).Err? <==> EntryFails(raw[i], corrected) {
        ShapeEntryFails(raw[i], corrected);
      }
      var shape := item => ShapeEntry(item, corrected);
      if ShapeAll(raw, shape).Err? {
        ShapeAllFirstFailure(raw, shape);
      }
    }
  }
}
