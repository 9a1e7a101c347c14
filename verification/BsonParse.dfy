/**
 A recursive-descent reader of the format, and the proof that it inverts the encoding:
 it returns a tree at a position exactly when the tree's encoding stands there.
 */
module BsonParse {
  import opened Wrappers
  import opened Bytes
  import opened BsonTree

  /** A tree together with the position just after it. */
  datatype Parsed<+T> = Fail | Got(tree: T, end: nat)

  datatype Elem = Elem(name: cstring, value: Value)

  function ParseText(b: seq<byte>, p: nat): (r: Parsed<seq<byte>>)
    ensures r.Got? ==> p + 5 <= r.end <= |b|
  {
    if p + 4 > |b| then Fail
    else
      var size := ReadInt32(b[p..p + 4]);
      if size <= 0 || p + 4 + size > |b| || b[p + 4 + size - 1] != 0 then Fail
      else Got(b[p + 4..p + 4 + size - 1], p + 4 + size)
  }

  lemma ParseTextSound(b: seq<byte>, p: nat)
    requires ParseText(b, p).Got?
    ensures var r := ParseText(b, p); Holds(b, p, TextBytes(r.tree)) && r.end == p + |TextBytes(r.tree)|
  {
    var r := ParseText(b, p);
    Int32BytesOfRead(b[p..p + 4]);
    assert b[p + 4..r.end] == r.tree + [0];
    HoldsSplit(b, p, b[p..p + 4], r.tree + [0]);
  }

  lemma ParseTextComplete(b: seq<byte>, p: nat, s: seq<byte>)
    requires Holds(b, p, TextBytes(s)) && |s| + 1 < INT32_LIMIT
    ensures ParseText(b, p) == Got(s, p + |TextBytes(s)|)
  {
    HoldsSplit(b, p, Int32Bytes(|s| + 1), s + [0]);
    ReadInt32OfBytes(|s| + 1);
    HoldsSplit(b, p + 4, s, [0]);
    assert b[p + 4 + |s|..p + 4 + |s| + 1][0] == 0;
  }

  function ParseCString(b: seq<byte>, p: nat): (r: Parsed<cstring>)
    requires p <= |b|
    ensures r.Got? ==> p < r.end <= |b|
  {
    match FindNul(b, p)
    case None => Fail
    case Some(q) => Got(b[p..q], q + 1)
  }

  lemma ParseCStringSound(b: seq<byte>, p: nat)
    requires p <= |b| && ParseCString(b, p).Got?
    ensures var r := ParseCString(b, p);
      Holds(b, p, CStringBytes(r.tree)) && r.end == p + |CStringBytes(r.tree)|
  {
    FindNulHolds(b, p);
  }

  lemma ParseCStringComplete(b: seq<byte>, p: nat, s: cstring)
    requires Holds(b, p, CStringBytes(s))
    ensures ParseCString(b, p) == Got(s, p + |CStringBytes(s)|)
  {
    FindNulUnique(b, p, s);
    HoldsSplit(b, p, s, [0]);
  }

  /** How many bytes the fixed-width types occupy. */
  function FixedWidth(t: byte): Option<nat> {
    if t == 255 || t == 127 || t == 10 || t == 6 then Some(0)
    else if t == 8 then Some(1)
    else if t == 16 then Some(4)
    else if t == 1 || t == 9 || t == 17 || t == 18 then Some(8)
    else if t == 7 then Some(12)
    else None
  }

  function FixedScalar(t: byte, raw: seq<byte>): (s: Scalar)
    requires FixedWidth(t) == Some(|raw|)
    ensures ScalarType(s) == t
  {
    if t == 255 then MinKey
    else if t == 127 then MaxKey
    else if t == 10 then Null
    else if t == 6 then Undefined
    else if t == 8 then Bool(raw[0])
    else if t == 16 then NumberInt(ReadInt32(raw))
    else if t == 1 then NumberDouble(ReadUint64(raw))
    else if t == 9 then Date(ToSigned64(ReadUint64(raw)))
    else if t == 17 then Timestamp(ReadUint64(raw))
    else if t == 18 then NumberLong(ToSigned64(ReadUint64(raw)))
    else ObjectId(raw)
  }

  lemma FixedScalarBytes(t: byte, raw: seq<byte>)
    requires FixedWidth(t) == Some(|raw|)
    ensures ScalarBytes(FixedScalar(t, raw)) == raw
  {
    if |raw| == 4 {
      Int32BytesOfRead(raw);
    } else if |raw| == 8 {
      Uint64BytesOfRead(raw);
    }
  }

  lemma FixedScalarOfBytes(s: Scalar)
    requires FixedWidth(ScalarType(s)).Some?
    ensures FixedWidth(ScalarType(s)) == Some(|ScalarBytes(s)|)
    ensures FixedScalar(ScalarType(s), ScalarBytes(s)) == s
  {
    if s.NumberInt? {
      ReadInt32OfBytes(s.i);
    } else if s.NumberDouble? {
      ReadUint64OfBytes(s.bits);
    } else if s.Timestamp? {
      ReadUint64OfBytes(s.stamp);
    } else if s.NumberLong? {
      ReadUint64OfBytes(ToUnsigned64(s.l));
      SignedOfUnsigned64(s.l);
    } else if s.Date? {
      ReadUint64OfBytes(ToUnsigned64(s.millis));
      SignedOfUnsigned64(s.millis);
    }
  }

  function ParseBinData(b: seq<byte>, p: nat): (r: Parsed<Scalar>)
    ensures r.Got? ==> p + 5 <= r.end <= |b|
  {
    if p + 4 > |b| then Fail
    else
      var size := ReadInt32(b[p..p + 4]);
      if size < 0 || size == 0x7fff_ffff || p + 5 + size > |b| then Fail
      else Got(BinData(b[p + 4], b[p + 5..p + 5 + size]), p + 5 + size)
  }

  lemma ParseBinDataSound(b: seq<byte>, p: nat)
    requires ParseBinData(b, p).Got?
    ensures var r := ParseBinData(b, p);
      r.tree.BinData? && Holds(b, p, ScalarBytes(r.tree)) && r.end == p + |ScalarBytes(r.tree)|
  {
    var r := ParseBinData(b, p);
    Int32BytesOfRead(b[p..p + 4]);
    assert b[p + 4..r.end] == [b[p + 4]] + r.tree.data;
    HoldsSplit(b, p, b[p..p + 4], [b[p + 4]] + r.tree.data);
  }

  lemma ParseBinDataComplete(b: seq<byte>, p: nat, subtype: byte, data: seq<byte>)
    requires Holds(b, p, Int32Bytes(|data|) + ([subtype] + data)) && 5 + |data| < INT32_LIMIT
    ensures ParseBinData(b, p) == Got(BinData(subtype, data), p + 5 + |data|)
  {
    HoldsSplit(b, p, Int32Bytes(|data|), [subtype] + data);
    HoldsSplit(b, p + 4, [subtype], data);
    ReadInt32OfBytes(|data|);
    assert b[p + 4..p + 5][0] == subtype;
  }

  function ParseRegEx(b: seq<byte>, p: nat): (r: Parsed<Scalar>)
    requires p <= |b|
    ensures r.Got? ==> p <= r.end <= |b|
  {
    match ParseCString(b, p)
    case Fail => Fail
    case Got(pattern, q) =>
      match ParseCString(b, q)
      case Fail => Fail
      case Got(options, e) => Got(RegEx(pattern, options), e)
  }

  lemma ParseRegExSound(b: seq<byte>, p: nat)
    requires p <= |b| && ParseRegEx(b, p).Got?
    ensures var r := ParseRegEx(b, p);
      r.tree.RegEx? && Holds(b, p, ScalarBytes(r.tree)) && r.end == p + |ScalarBytes(r.tree)|
  {
    var r := ParseRegEx(b, p);
    ParseCStringSound(b, p);
    ParseCStringSound(b, ParseCString(b, p).end);
    HoldsSplit(b, p, CStringBytes(r.tree.pattern), CStringBytes(r.tree.options));
  }

  lemma ParseRegExComplete(b: seq<byte>, p: nat, pattern: cstring, options: cstring)
    requires Holds(b, p, CStringBytes(pattern) + CStringBytes(options))
    ensures ParseRegEx(b, p) == Got(RegEx(pattern, options), p + |pattern| + |options| + 2)
  {
    HoldsSplit(b, p, CStringBytes(pattern), CStringBytes(options));
    ParseCStringComplete(b, p, pattern);
    ParseCStringComplete(b, p + |CStringBytes(pattern)|, options);
  }

  function ParseDBRef(b: seq<byte>, p: nat): (r: Parsed<Scalar>)
    ensures r.Got? ==> p <= r.end <= |b|
  {
    match ParseText(b, p)
    case Fail => Fail
    case Got(ns, q) => if q + 12 > |b| then Fail else Got(DBRef(ns, b[q..q + 12]), q + 12)
  }

  lemma ParseDBRefSound(b: seq<byte>, p: nat)
    requires ParseDBRef(b, p).Got?
    ensures var r := ParseDBRef(b, p);
      r.tree.DBRef? && Holds(b, p, ScalarBytes(r.tree)) && r.end == p + |ScalarBytes(r.tree)|
  {
    var r := ParseDBRef(b, p);
    ParseTextSound(b, p);
    HoldsSplit(b, p, TextBytes(r.tree.ns), r.tree.id);
  }

  lemma ParseDBRefComplete(b: seq<byte>, p: nat, ns: seq<byte>, id: oid)
    requires Holds(b, p, TextBytes(ns) + id) && |ns| + 1 < INT32_LIMIT
    ensures ParseDBRef(b, p) == Got(DBRef(ns, id), p + |TextBytes(ns)| + 12)
  {
    HoldsSplit(b, p, TextBytes(ns), id);
    ParseTextComplete(b, p, ns);
  }

  function ParseTextScalar(b: seq<byte>, p: nat, t: byte): (r: Parsed<Scalar>)
    ensures r.Got? ==> p <= r.end <= |b|
  {
    match ParseText(b, p)
    case Fail => Fail
    case Got(s, e) => Got(if t == 2 then String(s) else if t == 13 then Code(s) else Symbol(s), e)
  }

  lemma ParseTextScalarSound(b: seq<byte>, p: nat, t: byte)
    requires t == 2 || t == 13 || t == 14
    requires ParseTextScalar(b, p, t).Got?
    ensures var r := ParseTextScalar(b, p, t);
      ScalarType(r.tree) == t && Holds(b, p, ScalarBytes(r.tree)) && r.end == p + |ScalarBytes(r.tree)|
  {
    ParseTextSound(b, p);
  }

  function ParseScalar(b: seq<byte>, p: nat, t: byte): (r: Parsed<Scalar>)
    requires p <= |b|
    ensures r.Got? ==> p <= r.end <= |b|
  {
    if FixedWidth(t).Some? then
      var e := p + FixedWidth(t).value;
      if e > |b| then Fail else Got(FixedScalar(t, b[p..e]), e)
    else if t == 2 || t == 13 || t == 14 then ParseTextScalar(b, p, t)
    else if t == 11 then ParseRegEx(b, p)
    else if t == 12 then ParseDBRef(b, p)
    else if t == 5 then ParseBinData(b, p)
    else Fail
  }

  lemma ParseScalarSound(b: seq<byte>, p: nat, t: byte)
    requires p <= |b| && ParseScalar(b, p, t).Got?
    ensures var r := ParseScalar(b, p, t);
      ScalarType(r.tree) == t && Holds(b, p, ScalarBytes(r.tree)) && r.end == p + |ScalarBytes(r.tree)|
  {
    hide ParseRegEx, ParseDBRef, ParseBinData, ParseTextScalar, FixedScalar, ScalarBytes;
    if FixedWidth(t).Some? {
      FixedScalarBytes(t, b[p..ParseScalar(b, p, t).end]);
    } else if t == 11 {
      ParseRegExSound(b, p);
    } else if t == 5 {
      ParseBinDataSound(b, p);
    } else if t == 12 {
      ParseDBRefSound(b, p);
    } else {
      ParseTextScalarSound(b, p, t);
    }
  }

  lemma ParseScalarComplete(b: seq<byte>, p: nat, s: Scalar)
    requires Holds(b, p, ScalarBytes(s)) && |ScalarBytes(s)| < INT32_LIMIT
    ensures ParseScalar(b, p, ScalarType(s)) == Got(s, p + |ScalarBytes(s)|)
  {
    if FixedWidth(ScalarType(s)).Some? {
      FixedScalarOfBytes(s);
    } else {
      ParseVariableComplete(b, p, s);
    }
  }

  lemma ParseVariableComplete(b: seq<byte>, p: nat, s: Scalar)
    requires Holds(b, p, ScalarBytes(s)) && |ScalarBytes(s)| < INT32_LIMIT
    requires FixedWidth(ScalarType(s)).None?
    ensures ParseScalar(b, p, ScalarType(s)) == Got(s, p + |ScalarBytes(s)|)
  {
    if s.RegEx? {
      ParseRegExComplete(b, p, s.pattern, s.options);
    } else if s.BinData? {
      ParseBinDataComplete(b, p, s.subtype, s.data);
    } else if s.DBRef? {
      ParseDBRefComplete(b, p, s.ns, s.id);
    } else {
      ParseTextComplete(b, p, s.text);
    }
  }

  /** A document: its size, its fields, a NUL, and the size has to be right. */
  function ParseDoc(b: seq<byte>, p: nat): (r: Parsed<Doc>)
    ensures r.Got? ==> p + 5 <= r.end <= |b|
    decreases if p <= |b| then |b| - p else 0, 2
  {
    if p + 4 > |b| then Fail
    else
      match ParseFields(b, p + 4)
      case Fail => Fail
      case Got(d, e) => if e - p != ReadInt32(b[p..p + 4]) then Fail else Got(d, e)
  }

  /** Fields up to and including the closing NUL. */
  function ParseFields(b: seq<byte>, p: nat): (r: Parsed<Doc>)
    ensures r.Got? ==> p < r.end <= |b|
    decreases if p <= |b| then |b| - p else 0, 1
  {
    if p >= |b| then Fail
    else if b[p] == 0 then Got(Nil, p + 1)
    else
      match ParseElement(b, p)
      case Fail => Fail
      case Got(Elem(name, v), e) =>
        match ParseFields(b, e)
        case Fail => Fail
        case Got(rest, end) => Got(Field(name, v, rest), end)
  }

  /** One field: type byte, name, value. */
  function ParseElement(b: seq<byte>, p: nat): (r: Parsed<Elem>)
    requires p < |b|
    ensures r.Got? ==> p + 2 <= r.end <= |b|
    decreases |b| - p, 0
  {
    match ParseCString(b, p + 1)
    case Fail => Fail
    case Got(name, q) =>
      match ParseValue(b, q, b[p])
      case Fail => Fail
      case Got(v, e) => Got(Elem(name, v), e)
  }

  function ParseValue(b: seq<byte>, p: nat, t: byte): (r: Parsed<Value>)
    requires p <= |b|
    ensures r.Got? ==> p <= r.end <= |b|
    decreases |b| - p, 3
  {
    if t == 3 || t == 4 then
      match ParseDoc(b, p)
      case Fail => Fail
      case Got(d, e) => Got(if t == 3 then Object(d) else Array(d), e)
    else if t == 15 then ParseCodeWScope(b, p)
    else
      match ParseScalar(b, p, t)
      case Fail => Fail
      case Got(s, e) => Got(Plain(s), e)
  }

  function ParseCodeWScope(b: seq<byte>, p: nat): (r: Parsed<Value>)
    requires p <= |b|
    ensures r.Got? ==> p <= r.end <= |b|
    decreases |b| - p, 2
  {
    if p + 4 > |b| then Fail
    else
      match ParseText(b, p + 4)
      case Fail => Fail
      case Got(code, q) =>
        match ParseDoc(b, q)
        case Fail => Fail
        case Got(scope, e) =>
          if e - p != ReadInt32(b[p..p + 4]) then Fail else Got(CodeWScope(code, scope), e)
  }

  lemma HoldsElement(b: seq<byte>, p: nat, name: cstring, v: Value)
    ensures Holds(b, p, ElementBytes(name, v))
       <==> p < |b| && b[p] == TypeByte(v)
            && Holds(b, p + 1, CStringBytes(name)) && Holds(b, p + 2 + |name|, ValueBytes(v))
  {
    hide Holds, ValueBytes, TypeByte;
    HoldsSplit(b, p, [TypeByte(v)], CStringBytes(name) + ValueBytes(v));
    HoldsByte(b, p, TypeByte(v));
    HoldsSplit(b, p + 1, CStringBytes(name), ValueBytes(v));
  }

  lemma HoldsFields(b: seq<byte>, p: nat, name: cstring, v: Value, rest: Doc, tail: seq<byte>)
    ensures Holds(b, p, FieldsBytes(Field(name, v, rest)) + tail)
       <==> Holds(b, p, ElementBytes(name, v))
            && Holds(b, p + |ElementBytes(name, v)|, FieldsBytes(rest) + tail)
  {
    assert FieldsBytes(Field(name, v, rest)) + tail == ElementBytes(name, v) + (FieldsBytes(rest) + tail);
    HoldsSplit(b, p, ElementBytes(name, v), FieldsBytes(rest) + tail);
  }

  /** Soundness: what is returned stands at p, and the document is short enough. */
  lemma {:induction false} ParseDocSound(b: seq<byte>, p: nat)
    requires ParseDoc(b, p).Got?
    ensures var r := ParseDoc(b, p);
      Holds(b, p, DocBytes(r.tree)) && r.end == p + |DocBytes(r.tree)| && r.end - p < INT32_LIMIT
    decreases |b| - p, 2
  {
    var r := ParseDoc(b, p);
    ParseFieldsSound(b, p + 4);
    Int32BytesOfRead(b[p..p + 4]);
    HoldsSplit(b, p, b[p..p + 4], FieldsBytes(r.tree) + [0]);
  }

  lemma {:induction false} ParseFieldsSound(b: seq<byte>, p: nat)
    requires ParseFields(b, p).Got?
    ensures var r := ParseFields(b, p);
      Holds(b, p, FieldsBytes(r.tree) + [0]) && r.end == p + |FieldsBytes(r.tree)| + 1
    decreases |b| - p, 1
  {
    hide ParseElement, ElementBytes;
    var r := ParseFields(b, p);
    if b[p] == 0 {
      assert b[p..p + 1] == [0];
    } else {
      ParseElementSound(b, p);
      ParseFieldsSound(b, ParseElement(b, p).end);
      HoldsFields(b, p, r.tree.name, r.tree.value, r.tree.rest, [0]);
    }
  }

  lemma {:induction false} ParseElementSound(b: seq<byte>, p: nat)
    requires p < |b| && b[p] != 0 && ParseElement(b, p).Got?
    ensures var r := ParseElement(b, p);
      TypeByte(r.tree.value) == b[p] && Holds(b, p, ElementBytes(r.tree.name, r.tree.value))
      && r.end == p + |ElementBytes(r.tree.name, r.tree.value)|
    decreases |b| - p, 0
  {
    hide ParseValue, ValueBytes, ElementBytes;
    var r := ParseElement(b, p);
    ParseCStringSound(b, p + 1);
    ParseValueSound(b, ParseCString(b, p + 1).end, b[p]);
    HoldsElement(b, p, r.tree.name, r.tree.value);
  }

  lemma {:induction false} ParseValueSound(b: seq<byte>, p: nat, t: byte)
    requires p <= |b| && ParseValue(b, p, t).Got?
    ensures var r := ParseValue(b, p, t);
      TypeByte(r.tree) == t && Holds(b, p, ValueBytes(r.tree)) && r.end == p + |ValueBytes(r.tree)|
    decreases |b| - p, 3
  {
    if t == 3 || t == 4 {
      ParseDocSound(b, p);
    } else if t == 15 {
      ParseCodeWScopeSound(b, p);
    } else {
      ParseScalarSound(b, p, t);
    }
  }

  lemma {:induction false} ParseCodeWScopeSound(b: seq<byte>, p: nat)
    requires p <= |b| && ParseCodeWScope(b, p).Got?
    ensures var r := ParseCodeWScope(b, p);
      r.tree.CodeWScope? && Holds(b, p, ValueBytes(r.tree)) && r.end == p + |ValueBytes(r.tree)|
    decreases |b| - p, 2
  {
    hide ParseText, ParseDoc, DocBytes, TextBytes, ReadInt32;
    var CodeWScope(code, scope) := ParseCodeWScope(b, p).tree;
    ParseTextSound(b, p + 4);
    ParseDocSound(b, ParseText(b, p + 4).end);
    Int32BytesOfRead(b[p..p + 4]);
    HoldsSplit(b, p + 4, TextBytes(code), DocBytes(scope));
    HoldsSplit(b, p, b[p..p + 4], TextBytes(code) + DocBytes(scope));
  }

  /** Completeness: where an encoding stands, its tree is returned. */
  lemma {:induction false} ParseDocComplete(b: seq<byte>, p: nat, d: Doc)
    requires Holds(b, p, DocBytes(d)) && |DocBytes(d)| < INT32_LIMIT
    ensures ParseDoc(b, p) == Got(d, p + |DocBytes(d)|)
    decreases d, 1
  {
    HoldsSplit(b, p, Int32Bytes(|DocBytes(d)|), FieldsBytes(d) + [0]);
    ReadInt32OfBytes(|DocBytes(d)|);
    ParseFieldsComplete(b, p + 4, d);
  }

  lemma {:induction false} ParseFieldsComplete(b: seq<byte>, p: nat, d: Doc)
    requires Holds(b, p, FieldsBytes(d) + [0]) && |FieldsBytes(d)| < INT32_LIMIT
    ensures ParseFields(b, p) == Got(d, p + |FieldsBytes(d)| + 1)
    decreases d, 0
  {
    hide ParseElement, ElementBytes;
    match d
    case Nil => assert b[p..p + 1][0] == 0;
    case Field(name, v, rest) =>
      HoldsFields(b, p, name, v, rest, [0]);
      HoldsElement(b, p, name, v);
      ParseElementComplete(b, p, name, v);
      ParseFieldsComplete(b, p + |ElementBytes(name, v)|, rest);
  }

  lemma {:induction false} ParseElementComplete(b: seq<byte>, p: nat, name: cstring, v: Value)
    requires Holds(b, p, ElementBytes(name, v)) && |ElementBytes(name, v)| < INT32_LIMIT
    ensures ParseElement(b, p) == Got(Elem(name, v), p + |ElementBytes(name, v)|)
    decreases v, 3
  {
    hide ParseValue, ValueBytes, ElementBytes;
    HoldsElement(b, p, name, v);
    ParseCStringComplete(b, p + 1, name);
    ParseValueComplete(b, p + 2 + |name|, v);
  }

  lemma {:induction false} ParseValueComplete(b: seq<byte>, p: nat, v: Value)
    requires Holds(b, p, ValueBytes(v)) && |ValueBytes(v)| < INT32_LIMIT
    ensures ParseValue(b, p, TypeByte(v)) == Got(v, p + |ValueBytes(v)|)
    decreases v, 2
  {
    hide ParseScalar, ScalarBytes, ParseDoc, DocBytes, ParseCodeWScope, Holds;
    match v
    case Plain(s) => ParseScalarComplete(b, p, s);
    case Object(d) => ParseDocComplete(b, p, d);
    case Array(d) => ParseDocComplete(b, p, d);
    case CodeWScope(code, scope) => ParseCodeWScopeComplete(b, p, code, scope);
  }

  lemma {:induction false} ParseCodeWScopeComplete(b: seq<byte>, p: nat, code: seq<byte>, scope: Doc)
    requires var v := CodeWScope(code, scope); Holds(b, p, ValueBytes(v)) && |ValueBytes(v)| < INT32_LIMIT
    ensures var v := CodeWScope(code, scope); ParseCodeWScope(b, p) == Got(v, p + |ValueBytes(v)|)
    decreases scope, 2
  {
    hide ParseDoc, DocBytes, ParseText, TextBytes, Int32Bytes, ReadInt32;
    var body := TextBytes(code) + DocBytes(scope);
    HoldsSplit(b, p, Int32Bytes(4 + |body|), body);
    ReadInt32OfBytes(4 + |body|);
    HoldsSplit(b, p + 4, TextBytes(code), DocBytes(scope));
    ParseTextComplete(b, p + 4, code);
    ParseDocComplete(b, p + 4 + |TextBytes(code)|, scope);
  }

  /** The reader accepts exactly the grammar, and decoding is unique. */
  lemma ParseDocExact(b: seq<byte>, p: nat, d: Doc, e: nat)
    ensures ParseDoc(b, p) == Got(d, e)
       <==> Holds(b, p, DocBytes(d)) && |DocBytes(d)| < INT32_LIMIT && e == p + |DocBytes(d)|
  {
    if ParseDoc(b, p).Got? {
      ParseDocSound(b, p);
    }
    if Holds(b, p, DocBytes(d)) && |DocBytes(d)| < INT32_LIMIT {
      ParseDocComplete(b, p, d);
    }
  }

  /** Two documents that stand at one position are the same document. */
  lemma EncodingUnique(d: Doc, e: Doc, b: seq<byte>, p: nat)
    requires |DocBytes(d)| < INT32_LIMIT && |DocBytes(e)| < INT32_LIMIT
    requires Holds(b, p, DocBytes(d)) && Holds(b, p, DocBytes(e))
    ensures d == e
  {
    ParseDocComplete(b, p, d);
    ParseDocComplete(b, p, e);
  }
}
