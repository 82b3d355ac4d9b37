/**
 * JavaScript values as the core sees them: records fetched from a CMS, rich-text
 * documents, properties of tree nodes. Objects keep their keys in insertion order,
 * because the order of the metadata keys decides the order of the YAML front
 * matter written to disk.
 */
module Json {
  import opened Wrappers

  datatype Value =
    | Undefined
    | Null
    | Bool(b: bool)
    | Num(n: int)
    | Str(s: string)
    | Arr(items: seq<Value>)
    | Obj(fields: seq<Field>)

  /** One own enumerable property of an object, in insertion order. */
  datatype Field = Field(key: string, val: Value)

  // ---------------------------------------------------------------------------
  // Objects as ordered property lists

  function Keys(fs: seq<Field>): (ks: seq<string>)
    ensures |ks| == |fs|
    ensures forall i :: 0 <= i < |fs| ==> ks[i] == fs[i].key
  {
    if fs == [] then [] else [fs[0].key] + Keys(fs[1..])
  }

  /** `s.startsWith(prefix)` */
  predicate StartsWith(s: string, prefix: string)
  {
    |prefix| <= |s| && s[..|prefix|] == prefix
  }

  /** `o.hasOwnProperty(k)` */
  predicate HasKey(fs: seq<Field>, k: string)
  {
    k in Keys(fs)
  }

  /** `o[k]`: the value of the first property named `k`, `undefined` when there is none. */
  function Get(fs: seq<Field>, k: string): (v: Value)
    ensures !HasKey(fs, k) ==> v == Undefined
  {
    if fs == [] then Undefined
    else if fs[0].key == k then fs[0].val
    else Get(fs[1..], k)
  }

  /** A property that exists is read from the first place that holds it. */
  lemma {:induction false} GetFound(fs: seq<Field>, k: string) returns (i: nat)
    requires HasKey(fs, k)
    ensures i < |fs| && fs[i].key == k && fs[i].val == Get(fs, k)
    ensures forall j :: 0 <= j < i ==> fs[j].key != k
  {
    if fs[0].key == k {
      i := 0;
    } else {
      assert Keys(fs) == [fs[0].key] + Keys(fs[1..]);
      var i' := GetFound(fs[1..], k);
      i := i' + 1;
    }
  }

  /**
   * `o[k] = v`: an existing property keeps its place and takes the new value,
   * a new one is appended.
   */
  function Put(fs: seq<Field>, k: string, v: Value): (r: seq<Field>)
    ensures Get(r, k) == v
    ensures forall k' :: k' != k ==> Get(r, k') == Get(fs, k')
  {
    if fs == [] then [Field(k, v)]
    else if fs[0].key == k then [Field(k, v)] + fs[1..]
    else [fs[0]] + Put(fs[1..], k, v)
  }

  /** An existing property keeps its place; a new one is appended after all the others. */
  lemma {:induction false} PutKeys(fs: seq<Field>, k: string, v: Value)
    ensures Keys(Put(fs, k, v)) == if HasKey(fs, k) then Keys(fs) else Keys(fs) + [k]
  {
    if fs != [] {
      GetCons(fs[0], fs[1..], k);
      assert fs == [fs[0]] + fs[1..];
      if fs[0].key == k {
        GetCons(Field(k, v), fs[1..], k);
      } else {
        PutKeys(fs[1..], k, v);
        GetCons(fs[0], Put(fs[1..], k, v), k);
      }
    }
  }

  /** Reading a property of a list that starts with a given property. */
  lemma GetCons(f: Field, rest: seq<Field>, k: string)
    ensures Get([f] + rest, k) == if f.key == k then f.val else Get(rest, k)
    ensures Keys([f] + rest) == [f.key] + Keys(rest)
  {
    assert ([f] + rest)[1..] == rest;
  }

  /** Every property except those named `k`, in order (`delete o[k]`, or `{k, ...rest}`). */
  function Remove(fs: seq<Field>, k: string): (r: seq<Field>)
    ensures !HasKey(r, k)
    ensures forall k' :: k' != k ==> (HasKey(r, k') <==> HasKey(fs, k'))
    ensures forall k' :: k' != k ==> Get(r, k') == Get(fs, k')
    ensures |r| <= |fs|
  {
    if fs == [] then []
    else if fs[0].key == k then Remove(fs[1..], k)
    else
      var rest := Remove(fs[1..], k);
      assert ([fs[0]] + rest)[1..] == rest;
      assert Keys([fs[0]] + rest) == [fs[0].key] + Keys(rest);
      assert forall k' :: HasKey([fs[0]] + rest, k') == (k' == fs[0].key || HasKey(rest, k'));
      assert forall k' :: HasKey(fs, k') == (k' == fs[0].key || HasKey(fs[1..], k'));
      [fs[0]] + rest
  }

  /** No property name occurs twice, as in every JavaScript object. */
  predicate UniqueKeys(fs: seq<Field>)
  {
    forall i, j :: 0 <= i < j < |fs| ==> fs[i].key != fs[j].key
  }

  lemma UniqueCons(f: Field, rest: seq<Field>)
    requires UniqueKeys(rest) && !HasKey(rest, f.key)
    ensures UniqueKeys([f] + rest)
  {
    forall j | 0 <= j < |rest| ensures rest[j].key != f.key {
      assert Keys(rest)[j] == rest[j].key;
    }
  }

  /** Deleting a property that is not there changes nothing. */
  lemma {:induction false} RemoveAbsent(fs: seq<Field>, k: string)
    requires !HasKey(fs, k)
    ensures Remove(fs, k) == fs
  {
    if fs != [] {
      GetCons(fs[0], fs[1..], k);
      assert fs == [fs[0]] + fs[1..];
      RemoveAbsent(fs[1..], k);
    }
  }

  lemma {:induction false} RemoveConcat(a: seq<Field>, b: seq<Field>, k: string)
    ensures Remove(a + b, k) == Remove(a, k) + Remove(b, k)
  {
    if a == [] {
      assert a + b == b;
    } else {
      assert (a + b)[0] == a[0] && (a + b)[1..] == a[1..] + b;
      RemoveConcat(a[1..], b, k);
    }
  }

  /** Deleting a property keeps the names distinct. */
  lemma {:induction false} RemoveKeepsUnique(fs: seq<Field>, k: string)
    requires UniqueKeys(fs)
    ensures UniqueKeys(Remove(fs, k))
  {
    if fs != [] {
      RemoveKeepsUnique(fs[1..], k);
      if fs[0].key != k {
        GetCons(fs[0], fs[1..], fs[0].key);
        UniqueCons(fs[0], Remove(fs[1..], k));
      }
    }
  }

  /** Writing a property of an object with distinct names replaces it where it stands. */
  lemma {:induction false} PutAt(fs: seq<Field>, i: nat, v: Value)
    requires UniqueKeys(fs) && i < |fs|
    ensures Put(fs, fs[i].key, v) == fs[..i] + [Field(fs[i].key, v)] + fs[i + 1..]
  {
    if i > 0 {
      var k := fs[i].key;
      var tail := fs[1..];
      assert tail[i - 1] == fs[i];
      UniqueTail(fs);
      PutAt(tail, i - 1, v);
      PutSkip(fs, k, v);
      SpliceCons(fs, i, Field(k, v));
    } else {
      PutHead(fs, v);
    }
  }

  lemma PutHead(fs: seq<Field>, v: Value)
    requires fs != []
    ensures Put(fs, fs[0].key, v) == fs[..0] + [Field(fs[0].key, v)] + fs[1..]
  {
  }

  lemma UniqueTail(fs: seq<Field>)
    requires UniqueKeys(fs) && fs != []
    ensures UniqueKeys(fs[1..])
  {
    forall a, b | 0 <= a < b < |fs| - 1 ensures fs[1..][a].key != fs[1..][b].key {
      assert fs[1..][a] == fs[a + 1] && fs[1..][b] == fs[b + 1];
    }
  }

  lemma PutSkip(fs: seq<Field>, k: string, v: Value)
    requires fs != [] && fs[0].key != k
    ensures Put(fs, k, v) == [fs[0]] + Put(fs[1..], k, v)
  {
  }

  lemma SpliceCons(fs: seq<Field>, i: nat, f: Field)
    requires 0 < i < |fs|
    ensures [fs[0]] + (fs[1..][..i - 1] + [f] + fs[1..][i..]) == fs[..i] + [f] + fs[i + 1..]
  {
    assert fs[..i] == [fs[0]] + fs[1..][..i - 1];
    assert fs[i + 1..] == fs[1..][i..];
  }

  // ---------------------------------------------------------------------------
  // Operators of the language

  /** The truth value of `v` in a condition (numbers are integers here, so NaN is absent). */
  predicate Truthy(v: Value)
  {
    match v
    case Undefined => false
    case Null => false
    case Bool(b) => b
    case Num(n) => n != 0
    case Str(s) => s != ""
    case Arr(_) => true
    case Obj(_) => true
  }

  /** `typeof v`; note that `typeof null` is "object". */
  function TypeOf(v: Value): (t: string)
    ensures t == "object" <==> (v.Null? || v.Arr? || v.Obj?)
  {
    match v
    case Undefined => "undefined"
    case Null => "object"
    case Bool(_) => "boolean"
    case Num(_) => "number"
    case Str(_) => "string"
    case Arr(_) => "object"
    case Obj(_) => "object"
  }

  /** A non-null object in the sense of `typeof v === 'object' && v !== null`. */
  predicate IsObject(v: Value)
  {
    v.Arr? || v.Obj?
  }

  /** The own properties of `v` when it is an object; arrays expose none here. */
  function OwnFields(v: Value): seq<Field>
  {
    if v.Obj? then v.fields else []
  }

  /**
   * `v.k`: reading a property of `undefined` or `null` throws a TypeError;
   * a primitive has no own property of interest here.
   */
  function Prop(v: Value, k: string): (r: Result<Value>)
    ensures r.Err? <==> (v.Undefined? || v.Null?)
    ensures r.Ok? ==> r.value == Get(OwnFields(v), k)
  {
    if v.Undefined? || v.Null? then
      Err("TypeError: Cannot read properties of " + JsString(v) + " (reading '" + k + "')")
    else Ok(Get(OwnFields(v), k))
  }

  /** `v?.k`: `undefined` instead of a TypeError. */
  function OptProp(v: Value, k: string): (r: Value)
    ensures (v.Undefined? || v.Null?) ==> r == Undefined
    ensures v.Obj? ==> r == Get(v.fields, k)
  {
    if v.Undefined? || v.Null? then Undefined else Get(OwnFields(v), k)
  }

  /** Decimal digits of a natural number. */
  function NatToString(n: nat): (s: string)
    ensures |s| >= 1
    ensures forall i :: 0 <= i < |s| ==> '0' <= s[i] <= '9'
    decreases n
  {
    var d := ['0' + (n % 10) as char];
    if n < 10 then d else NatToString(n / 10) + d
  }

  function IntToString(n: int): string
  {
    if n < 0 then "-" + NatToString(-n) else NatToString(n)
  }

  /** `String(v)`, also what a template literal `${v}` produces. */
  function JsString(v: Value): string
  {
    match v
    case Undefined => "undefined"
    case Null => "null"
    case Bool(b) => if b then "true" else "false"
    case Num(n) => IntToString(n)
    case Str(s) => s
    case Arr(items) => JoinItems(items)
    case Obj(_) => "[object Object]"
  }

  /** `Array.prototype.join(',')`: `null` and `undefined` items become empty. */
  function JoinItems(items: seq<Value>): string
    decreases items
  {
    if items == [] then ""
    else
      var last := items[|items| - 1];
      var text := if last.Undefined? || last.Null? then "" else JsString(last);
      if |items| == 1 then text else JoinItems(items[..|items| - 1]) + "," + text
  }

  // ---------------------------------------------------------------------------
  // JSON.stringify, for the text of error messages

  function HexDigit(d: nat): char
    requires d < 16
  {
    if d < 10 then '0' + d as char else 'a' + (d - 10) as char
  }

  /** The JSON escape of one character of a string literal. */
  function EscapeChar(c: char): string
  {
    if c == '"' then "\\\""
    else if c == '\\' then "\\\\"
    else if c == '\U{0008}' then "\\b"
    else if c == '\U{000C}' then "\\f"
    else if c == '\n' then "\\n"
    else if c == '\r' then "\\r"
    else if c == '\t' then "\\t"
    else if (c as int) < 0x20 then "\\u00" + [HexDigit(c as int / 16), HexDigit(c as int % 16)]
    else [c]
  }

  function EscapeString(s: string): string
  {
    if s == [] then "" else EscapeString(s[..|s| - 1]) + EscapeChar(s[|s| - 1])
  }

  function Quote(s: string): string
  {
    "\"" + EscapeString(s) + "\""
  }

  /**
   * `JSON.stringify(v)` as interpolated into a message: a top-level `undefined`
   * prints as "undefined", an `undefined` array item as `null`, and a property
   * whose value is `undefined` is omitted.
   */
  function JsonText(v: Value): string
  {
    match v
    case Undefined => "undefined"
    case Null => "null"
    case Bool(b) => if b then "true" else "false"
    case Num(n) => IntToString(n)
    case Str(s) => Quote(s)
    case Arr(items) => "[" + JsonItems(items) + "]"
    case Obj(fields) => "{" + JsonMembers(fields) + "}"
  }

  function JsonItems(items: seq<Value>): string
    decreases items
  {
    if items == [] then ""
    else
      var last := items[|items| - 1];
      var text := if last.Undefined? then "null" else JsonText(last);
      if |items| == 1 then text else JsonItems(items[..|items| - 1]) + "," + text
  }

  function JsonMembers(fields: seq<Field>): string
    decreases fields
  {
    if fields == [] then ""
    else
      var last := fields[|fields| - 1];
      var prefix := JsonMembers(fields[..|fields| - 1]);
      if last.val.Undefined? then prefix
      else
        var member := Quote(last.key) + ":" + JsonText(last.val);
        if prefix == "" then member else prefix + "," + member
  }
}
