/**
 * Saving fetched records as Markdown files with YAML front matter: the metadata
 * and body of one file, the guard around the configured transform of a fetched
 * list, and the batch loop over the fetched pages that rewrites image fields and
 * numbers the saved records.
 */
module Content {
  import opened Wrappers
  import opened Json
  import opened MapTypes

  // ---------------------------------------------------------------------------
  // saveContentFile

  /**
   * The file system and the front matter writer: `path.resolve(dstDir, id)` (which
   * throws on an id that is not a string), `matter.stringify(body, data)`, and
   * `writeFile(path, text)` with the error it fails with, if any. Error texts are
   * given as `${err}` renders them.
   */
  datatype SaveOracles = SaveOracles(
    resolve: (string, Value) -> Result<string>,
    stringify: (string, seq<Field>) -> Result<string>,
    writeFile: (string, string) -> Option<string>)

  datatype FileWrite = FileWrite(path: string, text: string)

  /** The properties whose value is not `undefined`, in order. */
  function DefinedFields(fs: seq<Field>): (r: seq<Field>)
    ensures |r| <= |fs|
  {
    if fs == [] then []
    else (if fs[0].val == Undefined then [] else [fs[0]]) + DefinedFields(fs[1..])
  }

  lemma {:induction false} DefinedConcat(a: seq<Field>, b: seq<Field>)
    ensures DefinedFields(a + b) == DefinedFields(a) + DefinedFields(b)
  {
    if a == [] {
      assert a + b == b;
    } else {
      assert (a + b)[0] == a[0] && (a + b)[1..] == a[1..] + b;
      DefinedConcat(a[1..], b);
    }
  }

  /** Dropping properties never adds a name. */
  lemma {:induction false} DefinedKeys(fs: seq<Field>, k: string)
    ensures HasKey(DefinedFields(fs), k) ==> HasKey(fs, k)
  {
    if fs != [] {
      DefinedKeys(fs[1..], k);
      GetCons(fs[0], fs[1..], k);
      GetCons(fs[0], DefinedFields(fs[1..]), k);
    }
  }

  /**
   * With distinct names, a name survives exactly when its value is defined, and
   * reading any name gives what the record gives.
   */
  lemma {:induction false} DefinedLookup(fs: seq<Field>, k: string)
    requires UniqueKeys(fs)
    ensures HasKey(DefinedFields(fs), k) <==> HasKey(fs, k) && Get(fs, k) != Undefined
    ensures Get(DefinedFields(fs), k) == Get(fs, k)
  {
    if fs != [] {
      var rest := fs[1..];
      UniqueTail(fs);
      DefinedLookup(rest, k);
      assert fs == [fs[0]] + rest;
      GetCons(fs[0], rest, k);
      assert HasKey(fs, k) <==> fs[0].key == k || HasKey(rest, k);
      if fs[0].val == Undefined {
        assert DefinedFields(fs) == DefinedFields(rest);
        if fs[0].key == k {
          NotInOthers(fs, 0);
          DefinedKeys(rest, k);
        }
      } else {
        assert DefinedFields(fs) == [fs[0]] + DefinedFields(rest);
        GetCons(fs[0], DefinedFields(rest), k);
      }
    }
  }

  /** In an object with distinct names, the name at `i` occurs neither before nor after it. */
  lemma NotInOthers(fs: seq<Field>, i: nat)
    requires UniqueKeys(fs) && i < |fs|
    ensures !HasKey(fs[..i], fs[i].key) && !HasKey(fs[i + 1..], fs[i].key)
  {
    forall j | 0 <= j < i ensures Keys(fs[..i])[j] != fs[i].key {
      assert fs[..i][j] == fs[j];
    }
    var tail := fs[i + 1..];
    forall j | 0 <= j < |tail| ensures Keys(tail)[j] != fs[i].key {
      assert tail[j] == fs[i + 1 + j];
    }
  }

  /** One `delete metaData[k]` of the loop, for the `i`th entry, whose value is `undefined`. */
  lemma DeleteStep(entries: seq<Field>, i: nat)
    requires UniqueKeys(entries) && i < |entries| && entries[i].val == Undefined
    ensures Remove(DefinedFields(entries[..i]) + entries[i..], entries[i].key) ==
              DefinedFields(entries[..i + 1]) + entries[i + 1..]
  {
    var k := entries[i].key;
    var prefix := DefinedFields(entries[..i]);
    DeleteKeepsPrefix(entries, i);
    DeleteDropsEntry(entries, i);
    RemoveConcat(prefix, entries[i..], k);
    SkipUndefined(entries, i);
  }

  lemma SkipUndefined(entries: seq<Field>, i: nat)
    requires i < |entries| && entries[i].val == Undefined
    ensures DefinedFields(entries[..i + 1]) == DefinedFields(entries[..i])
  {
    assert entries[..i + 1] == entries[..i] + [entries[i]];
    DefinedConcat(entries[..i], [entries[i]]);
  }

  lemma DeleteKeepsPrefix(entries: seq<Field>, i: nat)
    requires UniqueKeys(entries) && i < |entries|
    ensures Remove(DefinedFields(entries[..i]), entries[i].key) == DefinedFields(entries[..i])
  {
    NotInOthers(entries, i);
    DefinedKeys(entries[..i], entries[i].key);
    RemoveAbsent(DefinedFields(entries[..i]), entries[i].key);
  }

  lemma DeleteDropsEntry(entries: seq<Field>, i: nat)
    requires UniqueKeys(entries) && i < |entries|
    ensures Remove(entries[i..], entries[i].key) == entries[i + 1..]
  {
    var k := entries[i].key;
    var s := entries[i..];
    assert s[0].key == k && s[1..] == entries[i + 1..];
    NotInOthers(entries, i);
    RemoveAbsent(entries[i + 1..], k);
  }

  /** An entry whose value is defined stays where it is. */
  lemma KeepStep(entries: seq<Field>, i: nat)
    requires i < |entries| && entries[i].val != Undefined
    ensures DefinedFields(entries[..i]) + entries[i..] == DefinedFields(entries[..i + 1]) + entries[i + 1..]
  {
    assert entries[..i + 1] == entries[..i] + [entries[i]];
    DefinedConcat(entries[..i], [entries[i]]);
    assert entries[i..] == [entries[i]] + entries[i + 1..];
  }

  /** `Object.entries(metaData).forEach(([k, v]) => { if (v === undefined) delete metaData[k] })` */
  method DeleteUndefined(metaData: seq<Field>) returns (r: seq<Field>)
    requires UniqueKeys(metaData)
    ensures r == DefinedFields(metaData)
  {
    r := metaData;
    var entries := metaData;
    var i := 0;
    while i < |entries|
      invariant 0 <= i <= |entries|
      invariant r == DefinedFields(entries[..i]) + entries[i..]
    {
      if entries[i].val == Undefined {
        DeleteStep(entries, i);
        r := Remove(r, entries[i].key);
      } else {
        KeepStep(entries, i);
      }
      i := i + 1;
    }
    assert entries[..i] == entries && entries[i..] == [];
  }

  /** The front matter data: the record without `content` and without `undefined` values, then `position`. */
  function Metadata(flds: seq<Field>, position: nat): seq<Field>
  {
    Put(DefinedFields(Remove(flds, "content")), "position", Num(position))
  }

  /** The file body: the string form of `content`, or nothing when there is none. */
  function Body(flds: seq<Field>): string
  {
    var content := Get(flds, "content");
    if content != Undefined then JsString(content) else ""
  }

  function SavePath(flds: seq<Field>, dstDir: string, io: SaveOracles): Result<string>
  {
    match io.resolve(dstDir, Get(flds, "id"))
    case Err(e) => Err(e)
    case Ok(p) => Ok(p + ".md")
  }

  function SaveFileError(e: string): string
  {
    "saveFile error: " + e
  }

  /**
   * What `saveContentFile` settles to: a rejection when the path cannot be
   * resolved (that step is outside its `try`), otherwise `null` or the error.
   */
  function SaveOutcome(flds: seq<Field>, dstDir: string, position: nat, io: SaveOracles): Result<Option<string>>
  {
    match SavePath(flds, dstDir, io)
    case Err(e) => Err(e)
    case Ok(path) =>
      match io.stringify(Body(flds), Metadata(flds, position))
      case Err(e) => Ok(Some(SaveFileError(e)))
      case Ok(text) =>
        match io.writeFile(path, text)
        case Some(e) => Ok(Some(SaveFileError(e)))
        case None => Ok(None)
  }

  /** The write `saveContentFile` attempts, if it gets that far. */
  function WrittenFile(flds: seq<Field>, dstDir: string, position: nat, io: SaveOracles): Option<FileWrite>
  {
    match SavePath(flds, dstDir, io)
    case Err(_) => None
    case Ok(path) =>
      match io.stringify(Body(flds), Metadata(flds, position))
      case Err(_) => None
      case Ok(text) => Some(FileWrite(path, text))
  }

  method SaveContentFile(flds: seq<Field>, dstDir: string, position: nat, io: SaveOracles)
    returns (ret: Result<Option<string>>, written: Option<FileWrite>)
    requires UniqueKeys(flds)
    ensures ret == SaveOutcome(flds, dstDir, position, io)
    ensures written == WrittenFile(flds, dstDir, position, io)
  {
    written := None;
    var resolved := io.resolve(dstDir, Get(flds, "id"));
    if resolved.Err? {
      return Err(resolved.message), None;
    }
    var savePath := resolved.value + ".md";
    ret := Ok(None);
    var content := Get(flds, "content");
    RemoveKeepsUnique(flds, "content");
    var metaData := DeleteUndefined(Remove(flds, "content"));
    var body := if content != Undefined then JsString(content) else "";
    var file := io.stringify(body, Put(metaData, "position", Num(position)));
    if file.Err? {
      ret := Ok(Some(SaveFileError(file.message)));
      return;
    }
    written := Some(FileWrite(savePath, file.value));
    var e := io.writeFile(savePath, file.value);
    if e.Some? {
      ret := Ok(Some(SaveFileError(e.value)));
    }
  }

  /**
   * The metadata holds `position` and every property of the record except
   * `content` and those whose value is `undefined`, with the record's values;
   * `position` overrides a property of that name.
   */
  lemma MetadataKeys(flds: seq<Field>, position: nat, k: string)
    requires UniqueKeys(flds)
    ensures HasKey(Metadata(flds, position), k) <==>
              k == "position" || (k != "content" && HasKey(flds, k) && Get(flds, k) != Undefined)
    ensures Get(Metadata(flds, position), "position") == Num(position)
    ensures k != "position" ==> Get(Metadata(flds, position), k) == if k == "content" then Undefined else Get(flds, k)
  {
    var base := DefinedFields(Remove(flds, "content"));
    RemoveKeepsUnique(flds, "content");
    DefinedLookup(Remove(flds, "content"), k);
    PutKeys(base, "position", Num(position));
  }

  /** The metadata keeps the order of the record's properties; `position` comes last unless the record has its own. */
  lemma MetadataOrder(flds: seq<Field>, position: nat)
    requires UniqueKeys(flds)
    ensures var keys := Keys(Metadata(flds, position));
      var base := DefinedFields(Remove(flds, "content"));
      && (!HasKey(flds, "position") ==> keys == Keys(base) + ["position"])
      && (HasKey(flds, "position") && Get(flds, "position") != Undefined ==> keys == Keys(base))
  {
    var base := DefinedFields(Remove(flds, "content"));
    RemoveKeepsUnique(flds, "content");
    DefinedLookup(Remove(flds, "content"), "position");
    PutKeys(base, "position", Num(position));
  }

  /** The body is the content text, and empty without content. */
  lemma BodyIsContent(flds: seq<Field>)
    ensures Get(flds, "content").Str? ==> Body(flds) == Get(flds, "content").s
    ensures !HasKey(flds, "content") ==> Body(flds) == ""
  {
  }

  /**
   * The save never throws once the path is resolved: it writes the front matter
   * text to `<resolved id>.md` and settles to `null` when the write succeeds, or to
   * an error prefixed `saveFile error:` when the front matter or the write fails.
   */
  lemma SaveOutcomeCases(flds: seq<Field>, dstDir: string, position: nat, io: SaveOracles)
    ensures var r := SaveOutcome(flds, dstDir, position, io);
      var w := WrittenFile(flds, dstDir, position, io);
      && (r.Err? <==> io.resolve(dstDir, Get(flds, "id")).Err?)
      && (r.Ok? && r.value.Some? ==> StartsWith(r.value.value, "saveFile error: "))
      && (r == Ok(None) <==> w.Some? && io.writeFile(w.value.path, w.value.text).None?)
      && (w.Some? ==>
            && w.value.path == io.resolve(dstDir, Get(flds, "id")).value + ".md"
            && io.stringify(Body(flds), Metadata(flds, position)) == Ok(w.value.text))
  {
  }

  // ---------------------------------------------------------------------------
  // transformContent

  function TransformError(t: string, message: string, content: Value): string
  {
    "transformFldValue: transform=" + t + " message=" + message + " value=" + JsonText(content)
  }

  const NotArrayPrefix: string := "transformFldValue: result is not array: transform="

  /** The values whose `typeof` is number, string or object. */
  lemma TransformedTypes(content: Value)
    ensures var valueType := TypeOf(content);
      (valueType == "number" || valueType == "string" || valueType == "object") <==>
      (content.Num? || content.Str? || content.Null? || content.Arr? || content.Obj?)
  {
    match content {
      case Undefined =>
        assert "undefined"[0] == 'u';
      case Bool(_) =>
        assert "boolean"[0] == 'b';
      case _ =>
    }
  }

  /** The error text names the transform first and ends with the JSON of the value. */
  lemma TransformErrorShape(t: string, message: string, content: Value)
    ensures StartsWith(TransformError(t, message, content), "transformFldValue: transform=" + t + " message=")
    ensures var e := TransformError(t, message, content);
      var suffix := " value=" + JsonText(content);
      |suffix| <= |e| && e[|e| - |suffix|..] == suffix
  {
    var prefix := "transformFldValue: transform=" + t + " message=";
    var suffix := " value=" + JsonText(content);
    var e := TransformError(t, message, content);
    assert e == prefix + message + suffix;
    assert e[..|prefix|] == prefix;
    assert e[|e| - |suffix|..] == suffix;
  }

  /**
   * The transform of a fetched list: applied to a number, a string or an object
   * when a transform is configured; its result must be an array. `evaluate` is the
   * compiled expression, which may fail with a message.
   */
  function TransformContent(m: MapConfig, content: Value, evaluate: Value -> Result<Value>): Result<Value>
  {
    var valueType := TypeOf(content);
    if (valueType == "number" || valueType == "string" || valueType == "object") && m.transform.Some? then
      match evaluate(content)
      case Err(message) => Err(TransformError(m.transform.value, message, content))
      case Ok(v) =>
        if !v.Arr? then Err(TransformError(m.transform.value, NotArrayPrefix + m.transform.value, content))
        else Ok(v)
    else Ok(content)
  }

  /**
   * The value passes unchanged unless it is a number, a string or an object and a
   * transform is configured; then the result is the evaluated array, and a failure
   * or a non-array result is an error naming the transform and the JSON of the value.
   */
  lemma TransformContentCases(m: MapConfig, content: Value, evaluate: Value -> Result<Value>)
    ensures var applies := (content.Num? || content.Str? || content.Null? || content.Arr? || content.Obj?) && m.transform.Some?;
      var r := TransformContent(m, content, evaluate);
      && (!applies ==> r == Ok(content))
      && (applies ==> (r.Ok? <==> evaluate(content).Ok? && evaluate(content).value.Arr?))
      && (applies && r.Ok? ==> r == evaluate(content))
      && (applies && r.Err? ==>
            StartsWith(r.message, "transformFldValue: transform=" + m.transform.value + " message=")
            && var suffix := " value=" + JsonText(content);
               |suffix| <= |r.message| && r.message[|r.message| - |suffix|..] == suffix)
  {
    TransformedTypes(content);
    if (content.Num? || content.Str? || content.Null? || content.Arr? || content.Obj?) && m.transform.Some? {
      TransformApplied(m, content, evaluate);
      if TransformContent(m, content, evaluate).Err? {
        TransformErrorNames(m, content, evaluate);
      }
    }
  }

  lemma TransformApplied(m: MapConfig, content: Value, evaluate: Value -> Result<Value>)
    requires (content.Num? || content.Str? || content.Null? || content.Arr? || content.Obj?) && m.transform.Some?
    ensures var r := TransformContent(m, content, evaluate);
      && (r.Ok? <==> evaluate(content).Ok? && evaluate(content).value.Arr?)
      && (r.Ok? ==> r == evaluate(content))
  {
    TransformedTypes(content);
  }

  lemma TransformErrorNames(m: MapConfig, content: Value, evaluate: Value -> Result<Value>)
    requires (content.Num? || content.Str? || content.Null? || content.Arr? || content.Obj?) && m.transform.Some?
    requires TransformContent(m, content, evaluate).Err?
    ensures var e := TransformContent(m, content, evaluate).message;
      && StartsWith(e, "transformFldValue: transform=" + m.transform.value + " message=")
      && var suffix := " value=" + JsonText(content);
         |suffix| <= |e| && e[|e| - |suffix|..] == suffix
  {
    TransformedTypes(content);
    var t := m.transform.value;
    var inner := if evaluate(content).Err? then evaluate(content).message else NotArrayPrefix + t;
    assert TransformContent(m, content, evaluate) == Err(TransformError(t, inner, content));
    TransformErrorShape(t, inner, content);
  }

  // ---------------------------------------------------------------------------
  // saveRemoteContent

  /** `xs.map(f)` where `f` may throw: the first failure, in order, stops the mapping. */
  function MapResult<A, B>(xs: seq<A>, f: A -> Result<B>): Result<seq<B>>
  {
    if xs == [] then Ok([])
    else
      match f(xs[0])
      case Err(e) => Err(e)
      case Ok(y) =>
        match MapResult(xs[1..], f)
        case Err(e) => Err(e)
        case Ok(ys) => Ok([y] + ys)
  }

  /** The mapping succeeds exactly when every element maps, and then it holds their images in order. */
  lemma {:induction false} MapResultOk<A, B>(xs: seq<A>, f: A -> Result<B>)
    ensures MapResult(xs, f).Ok? <==> forall i :: 0 <= i < |xs| ==> f(xs[i]).Ok?
    ensures MapResult(xs, f).Ok? ==>
      |MapResult(xs, f).value| == |xs| && forall i :: 0 <= i < |xs| ==> f(xs[i]) == Ok(MapResult(xs, f).value[i])
  {
    if xs != [] {
      MapResultOk(xs[1..], f);
      assert forall i :: 0 < i < |xs| ==> xs[i] == xs[1..][i - 1];
    }
  }

  predicate FirstFailure<A, B>(xs: seq<A>, f: A -> Result<B>, i: nat)
  {
    i < |xs| && f(xs[i]).Err? && forall j :: 0 <= j < i ==> f(xs[j]).Ok?
  }

  /** The failure that `MapResult` reports is that of the first element that fails. */
  lemma {:induction false} MapResultFirstFailure<A, B>(xs: seq<A>, f: A -> Result<B>, i: nat)
    requires FirstFailure(xs, f, i)
    ensures MapResult(xs, f) == Err(f(xs[i]).message)
  {
    if i > 0 {
      assert f(xs[0]).Ok?;
      assert FirstFailure(xs[1..], f, i - 1) by {
        assert forall j :: 0 <= j < i - 1 ==> xs[1..][j] == xs[j + 1];
      }
      MapResultFirstFailure(xs[1..], f, i - 1);
    }
  }

  /** `imageInfoFromSrc`, `isImageDownload`, `saveImageFile` (into the configured directories) and `fileNameFromURL`. */
  datatype Media = Media(
    imageInfoFromSrc: (Value, bool) -> Result<Value>,
    isImageDownload: Value -> bool,
    saveImageFile: (Value, string, bool) -> Result<Value>,
    fileNameFromURL: (Value, MapFld) -> string)

  /** The image information that replaces the value of an image field. */
  function ImageValue(v: Value, imageFld: MapFld, media: Media): Result<Value>
    requires imageFld.fldType.ImageFld?
  {
    match media.imageInfoFromSrc(v, SetSize(imageFld))
    case Err(e) => Err(e)
    case Ok(info) =>
      if media.isImageDownload(info) then
        media.saveImageFile(info, media.fileNameFromURL(OptProp(info, "url"), imageFld), SetSize(imageFld))
      else Ok(info)
  }

  /** One entry of `fldsArray` after the image pass: replaced when an image mapping names it. */
  function RewriteField(f: Field, m: MapConfig, media: Media): Result<Field>
  {
    var mapIdx := ImageFldIndex(m.flds, f.key);
    if mapIdx < 0 then Ok(f)
    else
      match ImageValue(f.val, m.flds[mapIdx], media)
      case Err(e) => Err(e)
      case Ok(info) => Ok(Field(f.key, info))
  }

  /** The image pass over all entries: the first failure, in order, ends it. */
  function RewriteImages(fs: seq<Field>, m: MapConfig, media: Media): Result<seq<Field>>
  {
    MapResult(fs, (f: Field) => RewriteField(f, m, media))
  }

  /** The image pass succeeds exactly when every entry is rewritten, and then it holds them in order. */
  lemma RewriteImagesOk(fs: seq<Field>, m: MapConfig, media: Media)
    ensures var r := RewriteImages(fs, m, media);
      && (r.Ok? <==> forall i :: 0 <= i < |fs| ==> RewriteField(fs[i], m, media).Ok?)
      && (r.Ok? ==> |r.value| == |fs| && forall i :: 0 <= i < |fs| ==> RewriteField(fs[i], m, media) == Ok(r.value[i]))
  {
    MapResultOk(fs, (f: Field) => RewriteField(f, m, media));
  }

  lemma RewriteImagesFirstFailure(fs: seq<Field>, m: MapConfig, media: Media, i: nat)
    requires i < |fs| && RewriteField(fs[i], m, media).Err?
    requires forall j :: 0 <= j < i ==> RewriteField(fs[j], m, media).Ok?
    ensures RewriteImages(fs, m, media) == Err(RewriteField(fs[i], m, media).message)
  {
    var f := (f: Field) => RewriteField(f, m, media);
    assert FirstFailure(fs, f, i);
    MapResultFirstFailure(fs, f, i);
  }

  /** The image pass over `fldsArray`, entry by entry, in place. */
  method RewriteImageFlds(fldsArray: array<Field>, m: MapConfig, media: Media) returns (err: Option<string>)
    modifies fldsArray
    ensures err.None? ==> RewriteImages(old(fldsArray[..]), m, media) == Ok(fldsArray[..])
    ensures err.Some? ==> RewriteImages(old(fldsArray[..]), m, media) == Err(err.value)
  {
    ghost var entries := fldsArray[..];
    err := None;
    var fldsIdx := 0;
    while fldsIdx < fldsArray.Length
      invariant 0 <= fldsIdx <= fldsArray.Length
      invariant fldsArray[fldsIdx..] == entries[fldsIdx..]
      invariant forall j :: 0 <= j < fldsIdx ==> RewriteField(entries[j], m, media) == Ok(fldsArray[j])
    {
      var c := fldsArray[fldsIdx];
      var r := RewriteField(c, m, media);
      if r.Err? {
        RewriteImagesFirstFailure(entries, m, media, fldsIdx);
        return Some(r.message);
      }
      fldsArray[fldsIdx] := r.value;
      fldsIdx := fldsIdx + 1;
    }
    RewriteImagesOk(entries, m, media);
    assert fldsArray[..] == RewriteImages(entries, m, media).value;
  }

  /**
   * The image pass keeps every name in place; a field that no image mapping names
   * is unchanged; the value of one that is named becomes the image information
   * read from it, saved first when it is to be downloaded.
   */
  lemma RewriteImagesKeepsOthers(fs: seq<Field>, m: MapConfig, media: Media)
    requires RewriteImages(fs, m, media).Ok?
    ensures var r := RewriteImages(fs, m, media).value;
      && Keys(r) == Keys(fs)
      && forall i :: 0 <= i < |fs| ==>
           && ((forall j :: 0 <= j < |m.flds| ==> !IsImageFldFor(m.flds[j], fs[i].key)) ==> r[i] == fs[i])
           && (ImageFldIndex(m.flds, fs[i].key) >= 0 ==> ImageFldRewritten(fs[i], r[i], m.flds[ImageFldIndex(m.flds, fs[i].key)], media))
  {
    var r := RewriteImages(fs, m, media).value;
    RewriteImagesOk(fs, m, media);
    forall i | 0 <= i < |fs|
      ensures r[i].key == fs[i].key
      ensures (forall j :: 0 <= j < |m.flds| ==> !IsImageFldFor(m.flds[j], fs[i].key)) ==> r[i] == fs[i]
      ensures ImageFldIndex(m.flds, fs[i].key) >= 0 ==>
                ImageFldRewritten(fs[i], r[i], m.flds[ImageFldIndex(m.flds, fs[i].key)], media)
    {
      RewriteFieldFacts(fs[i], r[i], m, media);
    }
    assert Keys(r) == Keys(fs);
  }

  /** One entry of the image pass: its name is kept, and its value is replaced only when an image mapping names it. */
  lemma RewriteFieldFacts(f: Field, g: Field, m: MapConfig, media: Media)
    requires RewriteField(f, m, media) == Ok(g)
    ensures g.key == f.key
    ensures (forall j :: 0 <= j < |m.flds| ==> !IsImageFldFor(m.flds[j], f.key)) ==> g == f
    ensures ImageFldIndex(m.flds, f.key) >= 0 ==> ImageFldRewritten(f, g, m.flds[ImageFldIndex(m.flds, f.key)], media)
  {
  }

  /** `c[1] = imageInfo`, with `imageInfo` saved first when `isImageDownload` holds. */
  predicate ImageFldRewritten(before: Field, after: Field, imageFld: MapFld, media: Media)
    requires imageFld.fldType.ImageFld?
  {
    var info := media.imageInfoFromSrc(before.val, SetSize(imageFld));
    && after.key == before.key
    && info.Ok?
    && (media.isImageDownload(info.value) ==>
          media.saveImageFile(info.value, media.fileNameFromURL(OptProp(info.value, "url"), imageFld), SetSize(imageFld)) == Ok(after.val))
    && (!media.isImageDownload(info.value) ==> after.val == info.value)
  }

  /** `flds[k] = v` for each entry, in order. */
  function PutAll(base: seq<Field>, entries: seq<Field>): seq<Field>
  {
    if entries == [] then base
    else
      var last := entries[|entries| - 1];
      Put(PutAll(base, entries[..|entries| - 1]), last.key, last.val)
  }

  predicate SameKeys(a: seq<Field>, b: seq<Field>)
  {
    |a| == |b| && forall i :: 0 <= i < |a| ==> a[i].key == b[i].key
  }

  lemma SameKeysUnique(a: seq<Field>, b: seq<Field>)
    requires SameKeys(a, b) && UniqueKeys(a)
    ensures UniqueKeys(b)
  {
  }

  /** Writing back entries that carry the object's own names, in its order, yields those entries. */
  lemma {:induction false} PutAllAligned(base: seq<Field>, entries: seq<Field>, n: nat)
    requires UniqueKeys(base) && SameKeys(base, entries) && n <= |entries|
    ensures PutAll(base, entries[..n]) == entries[..n] + base[n..]
  {
    if n > 0 {
      PutAllAligned(base, entries, n - 1);
      assert entries[..n][..n - 1] == entries[..n - 1];
      var mid := entries[..n - 1] + base[n - 1..];
      MixedUnique(base, entries, n - 1);
      PutAt(mid, n - 1, entries[n - 1].val);
      SpliceAligned(base, entries, n);
    }
  }

  /** The first `n` entries followed by the rest of the object have distinct names. */
  lemma MixedUnique(base: seq<Field>, entries: seq<Field>, n: nat)
    requires UniqueKeys(base) && SameKeys(base, entries) && n < |entries|
    ensures UniqueKeys(entries[..n] + base[n..]) && (entries[..n] + base[n..])[n] == base[n]
  {
    var mid := entries[..n] + base[n..];
    assert SameKeys(base, mid);
    SameKeysUnique(base, mid);
  }

  lemma SpliceAligned(base: seq<Field>, entries: seq<Field>, n: nat)
    requires SameKeys(base, entries) && 0 < n <= |entries|
    ensures var mid := entries[..n - 1] + base[n - 1..];
      mid[..n - 1] + [Field(mid[n - 1].key, entries[n - 1].val)] + mid[n..] == entries[..n] + base[n..]
  {
    var mid := entries[..n - 1] + base[n - 1..];
    assert mid[..n - 1] == entries[..n - 1] && mid[n..] == base[n..];
    assert entries[..n] == entries[..n - 1] + [Field(mid[n - 1].key, entries[n - 1].val)];
  }

  /** `const flds = { ...content[idx] }; fldsArray.forEach(([k, v]) => (flds[k] = v))` */
  method AssignEntries(base: seq<Field>, entries: array<Field>) returns (flds: seq<Field>)
    ensures flds == PutAll(base, entries[..])
  {
    flds := base;
    var i := 0;
    while i < entries.Length
      invariant 0 <= i <= entries.Length
      invariant flds == PutAll(base, entries[..i])
    {
      assert entries[..i + 1][..i] == entries[..i];
      flds := Put(flds, entries[i].key, entries[i].val);
      i := i + 1;
    }
    assert entries[..i] == entries[..];
  }

  /** One `saveContentFile` call: the record passed, its position, and what the call settled to. */
  datatype Save = Save(flds: seq<Field>, position: nat, result: Result<Option<string>>)

  /**
   * The state of the batch: `ret`, the saves made so far, the `position` counter,
   * and whether an exception ended the run.
   */
  datatype Run = Run(ret: Option<string>, log: seq<Save>, position: nat, stopped: bool)

  /** The mapping configuration, `mappingFlds`, the media helpers, the save's oracles and `dstContentDir`. */
  datatype Env = Env(m: MapConfig, mapping: Value -> Result<Object>, media: Media, io: SaveOracles, dstDir: string)

  const Start: Run := Run(None, [], 0, false)

  const BatchErrorPrefix: string := "saveRemoteContent error: "

  /** The outer `catch`: the run ends with the error. */
  function Abort(r: Run, e: string): Run
  {
    r.(ret := Some(BatchErrorPrefix + e), stopped := true)
  }

  /**
   * One record: the image pass, the write-back, the save with the next position.
   * With `haltBatch` a failed save also ends the whole run, as intended; without
   * it, as written, only the record loop of the page is left.
   */
  function SaveRecord(r: Run, rec: Object, env: Env, haltBatch: bool): Run
  {
    match RewriteImages(rec, env.m, env.media)
    case Err(e) => Abort(r, e)
    case Ok(entries) =>
      var flds := PutAll(rec, entries);
      Saved(r, flds, SaveOutcome(flds, env.dstDir, r.position, env.io), haltBatch)
  }

  /** `SaveRecord` when the image pass fails, and when it succeeds. */
  lemma SaveRecordCases(r: Run, rec: Object, env: Env, haltBatch: bool)
    ensures var entries := RewriteImages(rec, env.m, env.media);
      && (entries.Err? ==> SaveRecord(r, rec, env, haltBatch) == Abort(r, entries.message))
      && (entries.Ok? ==>
            var flds := PutAll(rec, entries.value);
            SaveRecord(r, rec, env, haltBatch) == Saved(r, flds, SaveOutcome(flds, env.dstDir, r.position, env.io), haltBatch))
  {
  }

  /** `ret = await saveContentFile(flds, dstContentDir, position++)`, for a save that settled to `result`. */
  function Saved(r: Run, flds: seq<Field>, result: Result<Option<string>>, haltBatch: bool): Run
  {
    var r' := r.(log := r.log + [Save(flds, r.position, result)], position := r.position + 1);
    match result
    case Err(e) => Abort(r', e)
    case Ok(x) => r'.(ret := x, stopped := haltBatch && x.Some?)
  }

  /** The record loop of one page: it is left at the first save that does not settle to `null`. */
  function SaveRecords(r: Run, recs: seq<Object>, env: Env, haltBatch: bool): Run
    decreases |recs|
  {
    if recs == [] then r
    else
      var r' := SaveRecord(r, recs[0], env, haltBatch);
      if r'.stopped || r'.ret.Some? then r' else SaveRecords(r', recs[1..], env, haltBatch)
  }

  /** One fetched page: a fetch failure or a mapping failure ends the run. */
  function RunPage(r: Run, page: Result<seq<Value>>, env: Env, haltBatch: bool): Run
  {
    match page
    case Err(e) => Abort(r, e)
    case Ok(items) =>
      match MapResult(items, env.mapping)
      case Err(e) => Abort(r, e)
      case Ok(recs) => SaveRecords(r, recs, env, haltBatch)
  }

  function RunPages(r: Run, pages: seq<Result<seq<Value>>>, env: Env, haltBatch: bool): Run
    decreases |pages|
  {
    if pages == [] || r.stopped then r
    else RunPages(RunPage(r, pages[0], env, haltBatch), pages[1..], env, haltBatch)
  }

  /** The mapping loop: `content[idx] = await mappingFlds(contenSrc[idx], mapConfig)`. */
  method MapContent(items: seq<Value>, mapping: Value -> Result<Object>) returns (content: array<Object>, err: Option<string>)
    ensures err.None? ==> MapResult(items, mapping) == Ok(content[..])
    ensures err.Some? ==> MapResult(items, mapping) == Err(err.value)
  {
    var len := |items|;
    content := new Object[len](_ => []);
    var idx := 0;
    while idx < len
      invariant 0 <= idx <= len
      invariant forall j :: 0 <= j < idx ==> mapping(items[j]) == Ok(content[j])
    {
      var mapped := mapping(items[idx]);
      if mapped.Err? {
        MapResultFirstFailure(items, mapping, idx);
        return content, Some(mapped.message);
      }
      content[idx] := mapped.value;
      idx := idx + 1;
    }
    err := None;
    MapResultOk(items, mapping);
    var res := MapResult(items, mapping);
    assert res.Ok?;
    assert res.value == content[..];
  }

  /** The body of the record loop for one record: the image pass, the write-back, the save. */
  method SaveOne(r: Run, rec: Object, env: Env, haltBatch: bool) returns (r': Run)
    ensures r' == SaveRecord(r, rec, env, haltBatch)
  {
    var fldsArray := new Field[|rec|](j requires 0 <= j < |rec| => rec[j]);
    assert fldsArray[..] == rec;
    var err := RewriteImageFlds(fldsArray, env.m, env.media);
    SaveRecordCases(r, rec, env, haltBatch);
    if err.Some? {
      return Abort(r, err.value);
    }
    var flds := AssignEntries(rec, fldsArray);
    WriteBackIsEntries(rec, env.m, env.media);
    assert flds == fldsArray[..] && UniqueKeys(flds);
    var res, _ := SaveContentFile(flds, env.dstDir, r.position, env.io);
    r' := r.(log := r.log + [Save(flds, r.position, res)], position := r.position + 1);
    if res.Err? {
      return Abort(r', res.message);
    }
    r' := r'.(ret := res.value, stopped := haltBatch && res.value.Some?);
  }

  /** Writing the rewritten entries back into a copy of the record yields those entries. */
  lemma WriteBackIsEntries(rec: Object, m: MapConfig, media: Media)
    requires RewriteImages(rec, m, media).Ok?
    ensures var entries := RewriteImages(rec, m, media).value;
      PutAll(rec, entries) == entries && UniqueKeys(entries)
  {
    var entries := RewriteImages(rec, m, media).value;
    RewriteKeepsNames(rec, m, media);
    PutAllAligned(rec, entries, |rec|);
    assert entries[..|rec|] == entries && rec[|rec|..] == [];
    SameKeysUnique(rec, entries);
  }

  /** The record loop of one page, with `break` on the first save that does not settle to `null`. */
  method SavePage(r: Run, content: array<Object>, env: Env, haltBatch: bool) returns (r': Run)
    requires !r.stopped
    ensures r' == SaveRecords(r, content[..], env, haltBatch)
  {
    r' := r;
    var idx := 0;
    while idx < content.Length
      invariant 0 <= idx <= content.Length && !r'.stopped
      invariant SaveRecords(r', content[idx..], env, haltBatch) == SaveRecords(r, content[..], env, haltBatch)
    {
      assert content[idx..][0] == content[idx] && content[idx..][1..] == content[idx + 1..];
      var next := SaveOne(r', content[idx], env, haltBatch);
      if next.stopped || next.ret.Some? {
        return next;
      }
      r' := next;
      idx := idx + 1;
    }
  }

  lemma RewriteKeepsNames(fs: seq<Field>, m: MapConfig, media: Media)
    requires RewriteImages(fs, m, media).Ok?
    ensures SameKeys(fs, RewriteImages(fs, m, media).value)
  {
    var r := RewriteImages(fs, m, media).value;
    RewriteImagesOk(fs, m, media);
    forall i | 0 <= i < |fs| ensures r[i].key == fs[i].key {
      assert RewriteField(fs[i], m, media) == Ok(r[i]);
    }
  }

  /**
   * `saveRemoteContent` after the request is built: the pages the fetch yields (a
   * page that failed to arrive is an error), each mapped and then saved record by
   * record. Returns `ret` and the saves made, in order. Without `haltBatch` a failed
   * save leaves only the record loop, as written; with it the whole run ends.
   */
  method SaveRemoteContent(pages: seq<Result<seq<Value>>>, env: Env, haltBatch: bool)
    returns (ret: Option<string>, log: seq<Save>)
    ensures ret == RunPages(Start, pages, env, haltBatch).ret
    ensures log == RunPages(Start, pages, env, haltBatch).log
  {
    ret, log := None, [];
    var position: nat := 0;
    var stopped := false;
    var p := 0;
    while p < |pages| && !stopped
      invariant 0 <= p <= |pages|
      decreases |pages| - p
      invariant RunPages(Run(ret, log, position, stopped), pages[p..], env, haltBatch) == RunPages(Start, pages, env, haltBatch)
    {
      assert pages[p..][0] == pages[p] && pages[p..][1..] == pages[p + 1..];
      match pages[p] {
        case Err(e) =>
          ret, stopped := Some(BatchErrorPrefix + e), true;
        case Ok(items) =>
          var content, err := MapContent(items, env.mapping);
          if err.Some? {
            ret, stopped := Some(BatchErrorPrefix + err.value), true;
          } else {
            var r := SavePage(Run(ret, log, position, false), content, env, haltBatch);
            ret, log, position, stopped := r.ret, r.log, r.position, r.stopped;
          }
      }
      p := p + 1;
    }
  }

  // ---------------------------------------------------------------------------
  // What the batch promises

  /** The result of the last save, when it settled: what `ret` holds after it. */
  function LastRet(log: seq<Save>): Option<string>
  {
    if log == [] then None
    else
      match log[|log| - 1].result
      case Ok(x) => x
      case Err(_) => None
  }

  /**
   * Saves are numbered 0, 1, 2, ... with no gap; `ret` is the last save's result
   * unless the run was ended; and as written only the outer `catch` ends it.
   */
  predicate Consistent(r: Run, haltBatch: bool)
  {
    && r.position == |r.log|
    && (forall i :: 0 <= i < |r.log| ==> r.log[i].position == i)
    && (!r.stopped ==> r.ret == LastRet(r.log))
    && (r.stopped && !haltBatch ==> r.ret.Some? && StartsWith(r.ret.value, BatchErrorPrefix))
  }

  lemma SavedConsistent(r: Run, flds: seq<Field>, result: Result<Option<string>>, haltBatch: bool)
    requires Consistent(r, haltBatch)
    ensures Consistent(Saved(r, flds, result, haltBatch), haltBatch)
  {
  }

  lemma SaveRecordConsistent(r: Run, rec: Object, env: Env, haltBatch: bool)
    requires Consistent(r, haltBatch)
    ensures Consistent(SaveRecord(r, rec, env, haltBatch), haltBatch)
  {
    var entries := RewriteImages(rec, env.m, env.media);
    SaveRecordCases(r, rec, env, haltBatch);
    if entries.Ok? {
      var flds := PutAll(rec, entries.value);
      SavedConsistent(r, flds, SaveOutcome(flds, env.dstDir, r.position, env.io), haltBatch);
    }
  }

  lemma {:induction false} SaveRecordsConsistent(r: Run, recs: seq<Object>, env: Env, haltBatch: bool)
    requires Consistent(r, haltBatch)
    ensures Consistent(SaveRecords(r, recs, env, haltBatch), haltBatch)
    decreases |recs|
  {
    if recs != [] {
      SaveRecordConsistent(r, recs[0], env, haltBatch);
      SaveRecordsConsistent(SaveRecord(r, recs[0], env, haltBatch), recs[1..], env, haltBatch);
    }
  }

  lemma {:induction false} RunPagesConsistent(r: Run, pages: seq<Result<seq<Value>>>, env: Env, haltBatch: bool)
    requires Consistent(r, haltBatch)
    ensures Consistent(RunPages(r, pages, env, haltBatch), haltBatch)
    decreases |pages|
  {
    if pages != [] && !r.stopped {
      var r' := RunPage(r, pages[0], env, haltBatch);
      if pages[0].Ok? && MapResult(pages[0].value, env.mapping).Ok? {
        SaveRecordsConsistent(r, MapResult(pages[0].value, env.mapping).value, env, haltBatch);
      }
      RunPagesConsistent(r', pages[1..], env, haltBatch);
    }
  }

  /**
   * Over a whole run, the positions written into the files are 0, 1, 2, ... in
   * the order of the saves, the counter ends at the number of saves, the result
   * is that of the last save unless the run was ended, and, as written, a run is
   * ended only by an exception, which the result reports as
   * `saveRemoteContent error: ...`.
   */
  lemma BatchNumbersSaves(pages: seq<Result<seq<Value>>>, env: Env, haltBatch: bool)
    ensures var r := RunPages(Start, pages, env, haltBatch);
      && r.position == |r.log|
      && (forall i :: 0 <= i < |r.log| ==> r.log[i].position == i)
      && (!r.stopped ==> r.ret == LastRet(r.log))
      && (r.stopped && !haltBatch ==> r.ret.Some? && StartsWith(r.ret.value, BatchErrorPrefix))
  {
    RunPagesConsistent(Start, pages, env, haltBatch);
  }

  /** The record as it is saved: its entries after the image pass. */
  function Rewritten(rec: Object, env: Env): seq<Field>
    requires RewriteImages(rec, env.m, env.media).Ok?
  {
    RewriteImages(rec, env.m, env.media).value
  }

  /** The saves made for `recs`, in order: each record saved with its image fields rewritten. */
  predicate SavesRecords(saves: seq<Save>, recs: seq<Object>, env: Env)
  {
    && |saves| <= |recs|
    && forall j :: 0 <= j < |saves| ==>
         RewriteImages(recs[j], env.m, env.media).Ok? && saves[j].flds == Rewritten(recs[j], env)
  }

  /** Every save but the last settled to `null`. */
  predicate NullUntilLast(saves: seq<Save>)
  {
    forall j :: 0 <= j < |saves| - 1 ==> saves[j].result == Ok(None)
  }

  /**
   * What the record loop of one page did, going from `r` to `r'`: it only
   * appended saves; they save the records in order, each with its image fields
   * rewritten; every save but the last settled to `null`; and when the loop
   * stopped early without an exception, the last save returned the error that is
   * now `ret`.
   */
  predicate PageOutcome(r: Run, r': Run, recs: seq<Object>, env: Env)
  {
    && |r.log| <= |r'.log|
    && r'.log == r.log + r'.log[|r.log|..]
    && SavesRecords(r'.log[|r.log|..], recs, env)
    && NullUntilLast(r'.log[|r.log|..])
    && (!r'.stopped && |r'.log| < |r.log| + |recs| ==>
          |r.log| < |r'.log| && r'.ret.Some? && r'.log[|r'.log| - 1].result == Ok(r'.ret))
  }

  /** The record loop of one page, as written, stops at the first save that does not settle to `null`. */
  lemma {:induction false} PageStopsAtFirstFailure(r: Run, recs: seq<Object>, env: Env)
    requires !r.stopped
    ensures PageOutcome(r, SaveRecords(r, recs, env, false), recs, env)
    decreases |recs|
  {
    if recs == [] {
      PageEmpty(r, env);
    } else {
      var r1 := SaveRecord(r, recs[0], env, false);
      var entries := RewriteImages(recs[0], env.m, env.media);
      SaveRecordCases(r, recs[0], env, false);
      if entries.Err? {
        PageAborted(r, entries.message, recs, env);
      } else {
        WriteBackIsEntries(recs[0], env.m, env.media);
        var s0 := Save(Rewritten(recs[0], env), r.position, SaveOutcome(Rewritten(recs[0], env), env.dstDir, r.position, env.io));
        assert r1.log == r.log + [s0];
        if r1.stopped || r1.ret.Some? {
          PageLastSave(r, r1, s0, recs, env);
        } else {
          PageStopsAtFirstFailure(r1, recs[1..], env);
          PageContinue(r, r1, SaveRecords(r1, recs[1..], env, false), s0, recs, env);
        }
      }
    }
  }

  lemma PageEmpty(r: Run, env: Env)
    ensures PageOutcome(r, r, [], env)
  {
    assert r.log[|r.log|..] == [];
  }

  lemma PageAborted(r: Run, e: string, recs: seq<Object>, env: Env)
    ensures PageOutcome(r, Abort(r, e), recs, env)
  {
    assert r.log[|r.log|..] == [];
  }

  lemma PageLastSave(r: Run, r1: Run, s0: Save, recs: seq<Object>, env: Env)
    requires recs != [] && RewriteImages(recs[0], env.m, env.media).Ok? && s0.flds == Rewritten(recs[0], env)
    requires r1.log == r.log + [s0] && (r1.stopped || r1.ret.Some?)
    requires !r1.stopped ==> s0.result == Ok(r1.ret)
    ensures PageOutcome(r, r1, recs, env)
  {
    assert r1.log[|r.log|..] == [s0];
  }

  lemma PageContinue(r: Run, r1: Run, r': Run, s0: Save, recs: seq<Object>, env: Env)
    requires recs != [] && RewriteImages(recs[0], env.m, env.media).Ok? && s0.flds == Rewritten(recs[0], env)
    requires r1.log == r.log + [s0] && s0.result == Ok(None)
    requires PageOutcome(r1, r', recs[1..], env)
    ensures PageOutcome(r, r', recs, env)
  {
    var later := r'.log[|r1.log|..];
    SplitLog(r.log, s0, r'.log);
    ConsSaves(s0, later, recs, env);
  }

  lemma SplitLog(log: seq<Save>, s0: Save, log': seq<Save>)
    requires |log| + 1 <= |log'| && log' == (log + [s0]) + log'[|log| + 1..]
    ensures log'[|log|..] == [s0] + log'[|log| + 1..] && log' == log + log'[|log|..]
  {
  }

  /** Prepending the save of the first record to the saves of the rest. */
  lemma ConsSaves(s0: Save, later: seq<Save>, recs: seq<Object>, env: Env)
    requires recs != [] && RewriteImages(recs[0], env.m, env.media).Ok?
    requires s0.flds == Rewritten(recs[0], env) && s0.result == Ok(None)
    requires SavesRecords(later, recs[1..], env) && NullUntilLast(later)
    ensures SavesRecords([s0] + later, recs, env) && NullUntilLast([s0] + later)
  {
    forall j | 0 < j < |later| + 1 ensures ([s0] + later)[j] == later[j - 1] && recs[j] == recs[1..][j - 1] {
    }
  }

  /**
   * With `haltBatch` (the intended behaviour), every save but the last settled to
   * `null`, and a save that failed ends the run with its error as the result.
   */
  predicate HaltsOnFailure(r: Run)
  {
    && (forall i :: 0 <= i < |r.log| - 1 ==> r.log[i].result == Ok(None))
    && (r.log != [] && r.log[|r.log| - 1].result != Ok(None) ==> r.stopped && r.ret == FailureRet(r.log[|r.log| - 1].result))
  }

  /** What the run returns after a save that did not settle to `null`. */
  function FailureRet(result: Result<Option<string>>): Option<string>
  {
    match result
    case Ok(x) => x
    case Err(e) => Some(BatchErrorPrefix + e)
  }

  lemma SavedHalts(r: Run, flds: seq<Field>, result: Result<Option<string>>)
    requires HaltsOnFailure(r) && !r.stopped
    ensures HaltsOnFailure(Saved(r, flds, result, true))
  {
  }

  lemma AbortHalts(r: Run, e: string)
    requires HaltsOnFailure(r) && !r.stopped
    ensures HaltsOnFailure(Abort(r, e))
  {
  }

  lemma SaveRecordHalts(r: Run, rec: Object, env: Env)
    requires HaltsOnFailure(r) && !r.stopped
    ensures HaltsOnFailure(SaveRecord(r, rec, env, true))
  {
    var entries := RewriteImages(rec, env.m, env.media);
    SaveRecordCases(r, rec, env, true);
    if entries.Ok? {
      var flds := PutAll(rec, entries.value);
      SavedHalts(r, flds, SaveOutcome(flds, env.dstDir, r.position, env.io));
    } else {
      AbortHalts(r, entries.message);
    }
  }

  lemma {:induction false} SaveRecordsHalt(r: Run, recs: seq<Object>, env: Env)
    requires HaltsOnFailure(r) && !r.stopped
    ensures HaltsOnFailure(SaveRecords(r, recs, env, true))
    decreases |recs|
  {
    if recs != [] {
      SaveRecordHalts(r, recs[0], env);
      var r1 := SaveRecord(r, recs[0], env, true);
      if !(r1.stopped || r1.ret.Some?) {
        SaveRecordsHalt(r1, recs[1..], env);
      }
    }
  }

  lemma {:induction false} RunPagesHalt(r: Run, pages: seq<Result<seq<Value>>>, env: Env)
    requires HaltsOnFailure(r)
    ensures HaltsOnFailure(RunPages(r, pages, env, true))
    decreases |pages|
  {
    if pages != [] && !r.stopped {
      if pages[0].Ok? && MapResult(pages[0].value, env.mapping).Ok? {
        SaveRecordsHalt(r, MapResult(pages[0].value, env.mapping).value, env);
      }
      RunPagesHalt(RunPage(r, pages[0], env, true), pages[1..], env);
    }
  }

  /**
   * The corrected batch: once a save fails, nothing more is saved, and the run
   * returns that failure.
   */
  lemma HaltingBatchKeepsFailure(pages: seq<Result<seq<Value>>>, env: Env)
    ensures var r := RunPages(Start, pages, env, true);
      && (forall i :: 0 <= i < |r.log| - 1 ==> r.log[i].result == Ok(None))
      && (r.log != [] && r.log[|r.log| - 1].result != Ok(None) ==> r.ret == FailureRet(r.log[|r.log| - 1].result))
  {
    RunPagesHalt(Start, pages, env);
  }

  /** A page of one item that maps to a record whose image pass succeeds: that record is saved. */
  lemma OneRecordPage(r: Run, x: Value, env: Env, haltBatch: bool)
    requires env.mapping(x).Ok? && RewriteImages(env.mapping(x).value, env.m, env.media).Ok?
    ensures var flds := Rewritten(env.mapping(x).value, env);
      RunPage(r, Ok([x]), env, haltBatch) == Saved(r, flds, SaveOutcome(flds, env.dstDir, r.position, env.io), haltBatch)
  {
    var rec := env.mapping(x).value;
    assert [x][0] == x && [x][1..] == [];
    assert MapResult([x], env.mapping) == Ok([rec] + []);
    assert [rec] + [] == [rec] && [rec][0] == rec && [rec][1..] == [];
    WriteBackIsEntries(rec, env.m, env.media);
    SaveRecordCases(r, rec, env, haltBatch);
    var r' := SaveRecord(r, rec, env, haltBatch);
    assert SaveRecords(r', [], env, haltBatch) == r';
    assert SaveRecords(r, [rec], env, haltBatch) == r';
  }

  /**
   * As written, the `break` leaves only the record loop: a save that fails on
   * one page is followed by the next page, and a later save that succeeds turns
   * the result back to `null`.
   */
  lemma AsWrittenLaterPageHidesFailure(env: Env, a: Value, b: Value, e: string)
    requires env.mapping(a).Ok? && env.mapping(b).Ok?
    requires RewriteImages(env.mapping(a).value, env.m, env.media).Ok?
    requires RewriteImages(env.mapping(b).value, env.m, env.media).Ok?
    requires SaveOutcome(Rewritten(env.mapping(a).value, env), env.dstDir, 0, env.io) == Ok(Some(e))
    requires SaveOutcome(Rewritten(env.mapping(b).value, env), env.dstDir, 1, env.io) == Ok(None)
    ensures var r := RunPages(Start, [Ok([a]), Ok([b])], env, false);
      r.ret == None && |r.log| == 2 && r.log[0].result == Ok(Some(e))
    ensures RunPages(Start, [Ok([a]), Ok([b])], env, true).ret == Some(e)
  {
    var pages: seq<Result<seq<Value>>> := [Ok([a]), Ok([b])];
    var ra, rb := env.mapping(a).value, env.mapping(b).value;
    OneRecordPage(Start, a, env, false);
    var r1 := Saved(Start, Rewritten(ra, env), Ok(Some(e)), false);
    OneRecordPage(r1, b, env, false);
    var r2 := Saved(r1, Rewritten(rb, env), Ok(None), false);
    assert pages[1..] == [Ok([b])] && pages[1..][1..] == [];
    assert RunPages(Start, pages, env, false) == RunPages(r1, pages[1..], env, false) == r2;
    OneRecordPage(Start, a, env, true);
  }
}
