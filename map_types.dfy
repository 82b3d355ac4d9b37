/**
 * The mapping configuration that says how the fields of a remote record become the
 * fields of a saved content file, and the filter triples a client query takes.
 */
module MapTypes {
  import opened Wrappers
  import opened Json

  /** One `replace` rule of an enum field; a RegExp pattern is kept as its source text. */
  datatype Replacement = Replacement(pattern: string, replacement: string)

  datatype FldType =
    | IdFld
    | NumberFld
    | StringFld
    | DatetimeFld
    | ImageFld(fileNameField: Option<string>, setSize: Option<bool>)
    | EnumFld(replace: seq<Replacement>)
    | HtmlFld

  /** How the field `srcName` of a remote record becomes the field `dstName`. */
  datatype MapFld = MapFld(srcName: string, dstName: string, fldType: FldType)

  datatype Library = Library(src: string, kind: string, download: Option<bool>)

  datatype ImageMedia = ImageMedia(fileNameField: Option<string>, download: Option<bool>, library: seq<Library>)

  /**
   * `media.image`, `passthruUnmapped` and `flds`, plus `transform`: the text of the
   * expression applied to every fetched list of records, when one is configured.
   */
  datatype MapConfig = MapConfig(
    image: Option<ImageMedia>,
    passthruUnmapped: Option<bool>,
    flds: seq<MapFld>,
    transform: Option<string>)

  /** `[op, key, value]`; only `eq` is a known operator. */
  datatype OpValue = OpValue(op: string, key: string, value: Value)

  /** A JavaScript object: an ordered list of properties with distinct names. */
  type Object = fs: seq<Field> | UniqueKeys(fs) witness []

  predicate IsImageFldFor(f: MapFld, key: string)
  {
    f.dstName == key && f.fldType.ImageFld?
  }

  /**
   * `flds.findIndex(({dstName, fldType}) => dstName === key && fldType === 'image')`:
   * the first image mapping whose `dstName` is `key`, or -1.
   */
  function ImageFldIndex(flds: seq<MapFld>, key: string): (r: int)
    ensures -1 <= r < |flds|
    ensures r >= 0 ==> IsImageFldFor(flds[r], key)
    ensures forall j :: 0 <= j < |flds| && (r < 0 || j < r) ==> !IsImageFldFor(flds[j], key)
  {
    if flds == [] then -1
    else if IsImageFldFor(flds[0], key) then 0
    else
      var r := ImageFldIndex(flds[1..], key);
      assert forall j :: 1 <= j < |flds| ==> flds[j] == flds[1..][j - 1];
      if r < 0 then -1 else r + 1
  }

  /** `imageFld.setSize || false` */
  function SetSize(f: MapFld): bool
    requires f.fldType.ImageFld?
  {
    f.fldType.setSize == Some(true)
  }
}
