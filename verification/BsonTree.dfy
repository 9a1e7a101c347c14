/**
 The values a BSON document holds, and the one encoding the format gives each of them.
 `DocBytes` is the grammar of the format: a byte string is a document exactly when it
 is `DocBytes(d)` for a tree `d` that is shorter than 2^31 bytes.
 */
module BsonTree {
  import opened Bytes

  type oid = s: seq<byte> | |s| == 12 witness [0, 0, 0, 0, 0, 0, 0, 0, 0, 0, 0, 0]

  /** Values that hold no document. Strings carry their bytes without the final NUL. */
  datatype Scalar =
    | MinKey
    | MaxKey
    | Null
    | Undefined
    | NumberDouble(bits: uint64)
    | NumberInt(i: int32)
    | NumberLong(l: int64)
    | Date(millis: int64)
    | Timestamp(stamp: uint64)
    | Bool(flag: byte)
    | ObjectId(id: oid)
    | String(text: seq<byte>)
    | Code(text: seq<byte>)
    | Symbol(text: seq<byte>)
    | RegEx(pattern: cstring, options: cstring)
    | DBRef(ns: seq<byte>, id: oid)
    | BinData(subtype: byte, data: seq<byte>)

  datatype Value =
    | Plain(s: Scalar)
    | Object(doc: Doc)
    | Array(doc: Doc)
    | CodeWScope(code: seq<byte>, scope: Doc)

  /** The fields of a document, first one outermost. */
  datatype Doc = Nil | Field(name: cstring, value: Value, rest: Doc)

  function ScalarType(s: Scalar): byte {
    match s
    case NumberDouble(_) => 1
    case String(_) => 2
    case BinData(_, _) => 5
    case Undefined => 6
    case ObjectId(_) => 7
    case Bool(_) => 8
    case Date(_) => 9
    case Null => 10
    case RegEx(_, _) => 11
    case DBRef(_, _) => 12
    case Code(_) => 13
    case Symbol(_) => 14
    case NumberInt(_) => 16
    case Timestamp(_) => 17
    case NumberLong(_) => 18
    case MaxKey => 127
    case MinKey => 255
  }

  /** The type byte; 255 is the signed char -1. */
  function TypeByte(v: Value): (t: byte)
    ensures t != 0
  {
    match v
    case Plain(s) => ScalarType(s)
    case Object(_) => 3
    case Array(_) => 4
    case CodeWScope(_, _) => 15
  }

  function CStringBytes(s: cstring): seq<byte> {
    s + [0]
  }

  /** A sized string: length with the NUL, the bytes, the NUL. */
  function TextBytes(s: seq<byte>): (r: seq<byte>)
    ensures |r| == |s| + 5
  {
    Int32Bytes(|s| + 1) + (s + [0])
  }

  function ScalarBytes(s: Scalar): seq<byte> {
    match s
    case MinKey => []
    case MaxKey => []
    case Null => []
    case Undefined => []
    case NumberDouble(bits) => Uint64Bytes(bits)
    case NumberInt(i) => Int32Bytes(i)
    case NumberLong(l) => Uint64Bytes(ToUnsigned64(l))
    case Date(millis) => Uint64Bytes(ToUnsigned64(millis))
    case Timestamp(stamp) => Uint64Bytes(stamp)
    case Bool(flag) => [flag]
    case ObjectId(id) => id
    case String(text) => TextBytes(text)
    case Code(text) => TextBytes(text)
    case Symbol(text) => TextBytes(text)
    case RegEx(pattern, options) => CStringBytes(pattern) + CStringBytes(options)
    case DBRef(ns, id) => TextBytes(ns) + id
    case BinData(subtype, data) => Int32Bytes(|data|) + ([subtype] + data)
  }

  function ValueBytes(v: Value): seq<byte>
    decreases v, 0
  {
    match v
    case Plain(s) => ScalarBytes(s)
    case Object(d) => DocBytes(d)
    case Array(d) => DocBytes(d)
    case CodeWScope(code, scope) =>
      var body := TextBytes(code) + DocBytes(scope);
      Int32Bytes(4 + |body|) + body
  }

  function ElementBytes(name: cstring, v: Value): (r: seq<byte>)
    ensures |r| == 2 + |name| + |ValueBytes(v)|
    decreases v, 1
  {
    [TypeByte(v)] + (CStringBytes(name) + ValueBytes(v))
  }

  function FieldsBytes(d: Doc): seq<byte>
    decreases d, 0
  {
    match d
    case Nil => []
    case Field(name, v, rest) => ElementBytes(name, v) + FieldsBytes(rest)
  }

  function DocBytes(d: Doc): (s: seq<byte>)
    ensures |s| == 5 + |FieldsBytes(d)|
    decreases d, 1
  {
    Int32Bytes(5 + |FieldsBytes(d)|) + (FieldsBytes(d) + [0])
  }

  function Append(d: Doc, e: Doc): (r: Doc)
    ensures e == Nil ==> r == d
  {
    match d
    case Nil => e
    case Field(name, v, rest) => Field(name, v, Append(rest, e))
  }

  lemma {:induction false} AppendAssociative(a: Doc, b: Doc, c: Doc)
    ensures Append(Append(a, b), c) == Append(a, Append(b, c))
  {
    match a
    case Nil =>
    case Field(_, _, rest) => AppendAssociative(rest, b, c);
  }

  lemma {:induction false} FieldsBytesOfAppend(d: Doc, e: Doc)
    ensures FieldsBytes(Append(d, e)) == FieldsBytes(d) + FieldsBytes(e)
  {
    hide ElementBytes;
    match d
    case Nil =>
    case Field(name, v, rest) =>
      FieldsBytesOfAppend(rest, e);
      assert ElementBytes(name, v) + (FieldsBytes(rest) + FieldsBytes(e))
          == (ElementBytes(name, v) + FieldsBytes(rest)) + FieldsBytes(e);
  }

  predicate HasName(d: Doc, name: seq<byte>) {
    d.Field? && (d.name == name || HasName(d.rest, name))
  }

  function Length(d: Doc): nat {
    match d
    case Nil => 0
    case Field(_, _, rest) => 1 + Length(rest)
  }
}
