/**
 Walking a document by element sizes: BSONElement::size in both forms, BSONObjIterator,
 and the proof that the walk visits exactly the fields of the tree the bytes encode.
 A read outside the buffer or a failed check is `None`.
 */
module BsonIterate {
  import opened Wrappers
  import opened Bytes
  import opened BsonTree
  import opened BsonParse

  /** Size of the value at v, by type: the switch of size(). */
  function ValueSize(b: seq<byte>, v: nat, t: byte): Option<int> {
    if FixedWidth(t).Some? then Some(FixedWidth(t).value)
    else if t == 11 then RegExSize(b, v)
    else if v + 4 > |b| then None
    else
      var n := ReadInt32(b[v..v + 4]);
      if t == 14 || t == 13 || t == 2 then Some(n + 4)
      else if t == 12 then Some(n + 4 + 12)
      else if t == 15 || t == 3 || t == 4 then Some(n)
      else if t == 5 then Some(n + 4 + 1)
      else None
  }

  function RegExSize(b: seq<byte>, v: nat): Option<int> {
    if v > |b| then None
    else
      match FindNul(b, v)
      case None => None
      case Some(p) =>
        match FindNul(b, p + 1)
        case None => None
        case Some(q) => Some(q + 1 - v)
  }

  /** BSONElement::size(), without a limit. */
  function ElementSize(b: seq<byte>, p: nat): Option<int> {
    if p >= |b| then None
    else if b[p] == 0 then Some(1)
    else
      match FindNul(b, p + 1)
      case None => None
      case Some(q) =>
        match ValueSize(b, q + 1, b[p])
        case None => None
        case Some(x) => Some(x + (q - p) + 1)
  }

  /** strnlen: the NUL if it comes within n bytes, otherwise n. */
  function BoundedLength(b: seq<byte>, p: nat, n: nat): (r: Option<nat>)
    ensures r.Some? ==> r.value <= n
  {
    if p > |b| then None
    else
      match FindNul(b, p)
      case Some(q) => Some(if q - p < n then q - p else n)
      case None => if p + n <= |b| then Some(n) else None
  }

  /** The constructor with maxLen and size(maxLen), with every check they make. */
  function BoundedElementSize(b: seq<byte>, p: nat, maxLen: int): Option<int> {
    if p >= |b| || maxLen <= 0 then None
    else if b[p] == 0 then Some(1)
    else
      match BoundedLength(b, p + 1, maxLen - 1)
      case None => None
      case Some(len) =>
        if len >= maxLen - 1 then None
        else
          var v := p + 1 + len + 1;
          var remain := maxLen - (len + 1) - 1;
          match BoundedValueSize(b, v, b[p], remain)
          case None => None
          case Some(x) => Some(x + (len + 1) + 1)
  }

  function BoundedValueSize(b: seq<byte>, v: nat, t: byte, remain: int): Option<int> {
    if FixedWidth(t).Some? then Some(FixedWidth(t).value)
    else if t == 11 then BoundedRegExSize(b, v, remain)
    else if remain <= 3 then None
    else ValueSize(b, v, t)
  }

  function BoundedRegExSize(b: seq<byte>, v: nat, remain: int): Option<int> {
    if remain < 0 then None
    else
      match BoundedLength(b, v, remain)
      case None => None
      case Some(len1) =>
        if len1 >= remain then None
        else
          var x := remain - len1 - 1;
          match BoundedLength(b, v + len1 + 1, x)
          case None => None
          case Some(len2) => if len2 >= x then None else Some(len1 + 1 + len2 + 1)
  }

  lemma TextHead(b: seq<byte>, v: nat, s: seq<byte>, rest: seq<byte>)
    requires Holds(b, v, TextBytes(s) + rest) && |s| + 1 < INT32_LIMIT
    ensures v + 4 <= |b| && ReadInt32(b[v..v + 4]) == |s| + 1
  {
    HoldsSplit(b, v, TextBytes(s), rest);
    HoldsSplit(b, v, Int32Bytes(|s| + 1), s + [0]);
    ReadInt32OfBytes(|s| + 1);
  }

  lemma SizedHead(b: seq<byte>, v: nat, n: int32, rest: seq<byte>)
    requires Holds(b, v, Int32Bytes(n) + rest)
    ensures v + 4 <= |b| && ReadInt32(b[v..v + 4]) == n
  {
    HoldsSplit(b, v, Int32Bytes(n), rest);
    ReadInt32OfBytes(n);
  }

  lemma RegExSizes(b: seq<byte>, v: nat, pattern: cstring, options: cstring, remain: int)
    requires Holds(b, v, CStringBytes(pattern) + CStringBytes(options))
    requires |pattern| + |options| + 2 <= remain
    ensures RegExSize(b, v) == Some(|pattern| + |options| + 2)
    ensures BoundedRegExSize(b, v, remain) == Some(|pattern| + |options| + 2)
  {
    HoldsSplit(b, v, CStringBytes(pattern), CStringBytes(options));
    FindNulUnique(b, v, pattern);
    FindNulUnique(b, v + |pattern| + 1, options);
  }

  lemma DocHead(b: seq<byte>, v: nat, d: Doc)
    requires Holds(b, v, DocBytes(d)) && |DocBytes(d)| < INT32_LIMIT
    ensures v + 4 <= |b| && ReadInt32(b[v..v + 4]) == |DocBytes(d)|
  {
    hide Holds;
    SizedHead(b, v, |DocBytes(d)|, FieldsBytes(d) + [0]);
  }

  lemma ScopeHead(b: seq<byte>, v: nat, code: seq<byte>, scope: Doc)
    requires var x := CodeWScope(code, scope); Holds(b, v, ValueBytes(x)) && |ValueBytes(x)| < INT32_LIMIT
    ensures v + 4 <= |b| && ReadInt32(b[v..v + 4]) == |ValueBytes(CodeWScope(code, scope))|
  {
    hide Holds, TextBytes, DocBytes;
    var body := TextBytes(code) + DocBytes(scope);
    SizedHead(b, v, 4 + |body|, body);
  }

  /** The size read off the bytes is the size of the encoding. */
  lemma ValueSizeExact(b: seq<byte>, v: nat, x: Value)
    requires Holds(b, v, ValueBytes(x)) && |ValueBytes(x)| < INT32_LIMIT
    ensures ValueSize(b, v, TypeByte(x)) == Some(|ValueBytes(x)|)
    ensures forall remain ::
      |ValueBytes(x)| <= remain ==> BoundedValueSize(b, v, TypeByte(x), remain) == Some(|ValueBytes(x)|)
  {
    hide Holds, ScalarBytes, DocBytes, ReadInt32;
    match x
    case Plain(s) => ScalarSizeExact(b, v, s);
    case Object(d) => DocHead(b, v, d);
    case Array(d) => DocHead(b, v, d);
    case CodeWScope(code, scope) => ScopeHead(b, v, code, scope);
  }

  lemma ScalarSizeExact(b: seq<byte>, v: nat, s: Scalar)
    requires Holds(b, v, ScalarBytes(s)) && |ScalarBytes(s)| < INT32_LIMIT
    ensures ValueSize(b, v, ScalarType(s)) == Some(|ScalarBytes(s)|)
    ensures forall remain ::
      |ScalarBytes(s)| <= remain ==> BoundedValueSize(b, v, ScalarType(s), remain) == Some(|ScalarBytes(s)|)
  {
    hide RegExSize, BoundedRegExSize;
    if FixedWidth(ScalarType(s)).Some? {
      FixedScalarOfBytes(s);
    } else if s.RegEx? {
      forall remain | |ScalarBytes(s)| <= remain
        ensures BoundedValueSize(b, v, 11, remain) == Some(|ScalarBytes(s)|)
      {
        RegExSizes(b, v, s.pattern, s.options, remain);
      }
      RegExSizes(b, v, s.pattern, s.options, |ScalarBytes(s)|);
    } else if s.BinData? {
      SizedHead(b, v, |s.data|, [s.subtype] + s.data);
    } else if s.DBRef? {
      TextHead(b, v, s.ns, s.id);
    } else {
      assert TextBytes(s.text) + [] == TextBytes(s.text);
      TextHead(b, v, s.text, []);
    }
  }

  /** Both forms of size() agree on an element, the second for every limit that lets it through. */
  lemma ElementSizeExact(b: seq<byte>, p: nat, name: cstring, x: Value, maxLen: int)
    requires Holds(b, p, ElementBytes(name, x)) && |ElementBytes(name, x)| < INT32_LIMIT
    requires |ElementBytes(name, x)| <= maxLen
    ensures ElementSize(b, p) == Some(|ElementBytes(name, x)|)
    ensures BoundedElementSize(b, p, maxLen) == Some(|ElementBytes(name, x)|)
  {
    hide ValueSize, BoundedValueSize, ValueBytes, ElementBytes;
    HoldsElement(b, p, name, x);
    FindNulUnique(b, p + 1, name);
    ValueSizeExact(b, p + 2 + |name|, x);
  }

  /** How many bytes size(maxLen) wants to be allowed: a fixed-width value is not counted, a sized one by its size. */
  function Needed(name: cstring, x: Value): nat {
    |name| + 2
    + (if x.Plain? && x.s.RegEx? then |x.s.pattern| + |x.s.options| + 2
       else if x.Plain? && FixedWidth(ScalarType(x.s)).Some? then 0 else 4)
  }

  /** size(maxLen) gives the size of an element or refuses, exactly by whether that many bytes are allowed. */
  lemma BoundedSizeExactly(b: seq<byte>, p: nat, name: cstring, x: Value, maxLen: int)
    requires Holds(b, p, ElementBytes(name, x)) && |ElementBytes(name, x)| < INT32_LIMIT
    ensures BoundedElementSize(b, p, maxLen)
         == if maxLen >= Needed(name, x) then Some(|ElementBytes(name, x)|) else None
  {
    hide ValueSize, BoundedValueSize, ValueBytes, ElementBytes;
    HoldsElement(b, p, name, x);
    FindNulUnique(b, p + 1, name);
    BoundedValueExactly(b, p + 2 + |name|, x, maxLen - |name| - 2);
  }

  lemma BoundedValueExactly(b: seq<byte>, v: nat, x: Value, remain: int)
    requires Holds(b, v, ValueBytes(x)) && |ValueBytes(x)| < INT32_LIMIT
    ensures remain >= 0 ==>
      BoundedValueSize(b, v, TypeByte(x), remain) == if remain >= Needed([], x) - 2 then Some(|ValueBytes(x)|) else None
  {
    hide ValueSize, Holds, RegExSize, BoundedRegExSize, DocBytes;
    ValueSizeExact(b, v, x);
    if x.Plain? && x.s.RegEx? && remain >= 0 {
      RegExRefused(b, v, x.s.pattern, x.s.options, remain);
    }
  }

  lemma RegExRefused(b: seq<byte>, v: nat, pattern: cstring, options: cstring, remain: nat)
    requires Holds(b, v, CStringBytes(pattern) + CStringBytes(options))
    ensures remain < |pattern| + |options| + 2 ==> BoundedRegExSize(b, v, remain) == None
  {
    HoldsSplit(b, v, CStringBytes(pattern), CStringBytes(options));
    FindNulUnique(b, v, pattern);
    FindNulUnique(b, v + |pattern| + 1, options);
  }

  /** The fields of d lie ahead of pos, up to the closing byte at last. */
  ghost predicate Ahead(b: seq<byte>, pos: nat, last: int, d: Doc) {
    && pos <= last < |b|
    && Holds(b, pos, FieldsBytes(d) + [0]) && last == pos + |FieldsBytes(d)| && |FieldsBytes(d)| < INT32_LIMIT - 5
  }

  lemma AheadElement(b: seq<byte>, pos: nat, last: int, d: Doc)
    requires Ahead(b, pos, last, d) && d.Field?
    ensures Holds(b, pos, ElementBytes(d.name, d.value)) && |ElementBytes(d.name, d.value)| < INT32_LIMIT
    ensures pos + |ElementBytes(d.name, d.value)| <= last
    ensures Ahead(b, pos + |ElementBytes(d.name, d.value)|, last, d.rest)
  {
    hide ElementBytes, Holds;
    HoldsFields(b, pos, d.name, d.value, d.rest, [0]);
  }

  lemma AheadStep(b: seq<byte>, pos: nat, last: int, d: Doc)
    requires Ahead(b, pos, last, d)
    ensures pos <= last < |b|
    ensures d.Nil? ==> pos == last && b[pos] == 0
    ensures d.Nil? ==> ElementSize(b, pos) == Some(1) && BoundedElementSize(b, pos, last + 1 - pos) == Some(1)
    ensures d.Field? ==> pos + 2 <= last && b[pos] != 0
    ensures d.Field? ==> ElementSize(b, pos) == Some(|ElementBytes(d.name, d.value)|)
    ensures d.Field? ==> BoundedElementSize(b, pos, last + 1 - pos) == Some(|ElementBytes(d.name, d.value)|)
    ensures d.Field? ==> Ahead(b, pos + |ElementBytes(d.name, d.value)|, last, d.rest)
  {
    hide ElementBytes;
    if d.Field? {
      hide ElementSize, BoundedElementSize;
      hide Holds, FieldsBytes, Ahead;
      AheadElement(b, pos, last, d);
      HoldsElement(b, pos, d.name, d.value);
      ElementSizeExact(b, pos, d.name, d.value, last + 1 - pos);
    } else {
      assert b[pos..pos + 1][0] == 0;
    }
  }

  /** Where the fields of d start when the first of them starts at p. */
  function Offsets(p: nat, d: Doc): seq<nat>
    decreases d
  {
    match d
    case Nil => []
    case Field(name, v, rest) => [p] + Offsets(p + |ElementBytes(name, v)|, rest)
  }

  lemma NoOffsets()
    ensures forall p :: Offsets(p, Nil) == []
  {
  }

  lemma NextOffset(before: seq<nat>, p: nat, d: Doc)
    requires d.Field?
    ensures before + Offsets(p, d) == before + [p] + Offsets(p + |ElementBytes(d.name, d.value)|, d.rest)
  {
    hide ElementBytes;
    var rest := Offsets(p + |ElementBytes(d.name, d.value)|, d.rest);
    assert Offsets(p, d) == [p] + rest;
    hide Offsets;
    assert before + ([p] + rest) == before + [p] + rest;
  }

  class BsonObjIterator {
    const b: seq<byte>
    const last: int
    var pos: int

    /** From the start of a document's fields to its closing byte. */
    constructor (b: seq<byte>, start: nat, end: nat)
      ensures this.b == b && pos == start + 4 && last == end - 1
    {
      this.b := b;
      pos := start + 4;
      last := end - 1;
    }

    predicate More()
      reads this
    {
      pos < last
    }

    /** The size next() would step over, None where one of its checks fails. */
    function StepSize(checkEnd: bool): Option<int>
      reads this
    {
      if pos > last || pos < 0 then None
      else if !checkEnd then ElementSize(b, pos)
      else
        var size := BoundedElementSize(b, pos, last + 1 - pos);
        if size.Some? && size.value <= 0 then None else size
    }

    /** next(checkEnd): returns the place of an element and moves past it. */
    method Next(checkEnd: bool) returns (e: Option<nat>)
      modifies this
      ensures e == if old(StepSize(checkEnd)).Some? then Some(old(pos)) else None
      ensures pos == old(pos) + if old(StepSize(checkEnd)).Some? then old(StepSize(checkEnd)).value else 0
    {
      var size := StepSize(checkEnd);
      if size.None? {
        return None;
      }
      e := Some(pos);
      pos := pos + size.value;
    }
  }

  /** After the last field next() returns the closing element once, and then fails. */
  lemma EndOfIteration(it: BsonObjIterator, checkEnd: bool)
    ensures it.pos >= 0 && Ahead(it.b, it.pos, it.last, Nil) ==> !it.More() && it.StepSize(checkEnd) == Some(1)
    ensures it.pos > it.last ==> !it.More() && it.StepSize(checkEnd) == None
  {
    hide ElementSize, BoundedElementSize, Ahead;
    if it.pos >= 0 && Ahead(it.b, it.pos, it.last, Nil) {
      AheadStep(it.b, it.pos, it.last, Nil);
    }
  }

  lemma HeaderRead(b: seq<byte>, p: nat, d: Doc)
    requires Holds(b, p, DocBytes(d)) && |DocBytes(d)| < INT32_LIMIT
    ensures p + 4 <= |b| && ReadInt32(b[p..p + 4]) == |DocBytes(d)|
    ensures Ahead(b, p + 4, p + |DocBytes(d)| - 1, d)
  {
    DocHead(b, p, d);
    HoldsSplit(b, p, Int32Bytes(|DocBytes(d)|), FieldsBytes(d) + [0]);
  }

  /** BSONObj::elems: the elements of a document, found by sizes alone. */
  method Elements(b: seq<byte>, p: nat, checkEnd: bool, ghost d: Doc) returns (elements: seq<nat>, end: nat)
    requires Holds(b, p, DocBytes(d)) && |DocBytes(d)| < INT32_LIMIT
    ensures elements == Offsets(p + 4, d)
    ensures end == p + |DocBytes(d)| - 1 && end < |b| && b[end] == 0
  {
    hide Ahead, ElementBytes, ElementSize, BoundedElementSize, DocBytes, Holds, ReadInt32, Offsets;
    HeaderRead(b, p, d);
    var it := new BsonObjIterator(b, p, p + ReadInt32(b[p..p + 4]));
    ghost var left := d;
    elements := [];
    NoOffsets();
    AheadStep(b, it.pos, it.last, left);
    while it.More()
      invariant it.b == b && it.last == p + |DocBytes(d)| - 1 && 0 <= it.pos <= it.last < |b|
      invariant Ahead(b, it.pos, it.last, left)
      invariant left.Nil? ==> it.pos == it.last && b[it.pos] == 0
      invariant left.Field? ==> it.pos < it.last
      invariant elements + Offsets(it.pos, left) == Offsets(p + 4, d)
      decreases left
    {
      AheadStep(b, it.pos, it.last, left);
      NextOffset(elements, it.pos, left);
      var e := it.Next(checkEnd);
      elements := elements + [e.value];
      left := left.rest;
      AheadStep(b, it.pos, it.last, left);
    }
    end := it.pos;
  }

  /** The place of a nested document: value() for objects and arrays, past the code for CodeWScope. */
  function NestedAt(b: seq<byte>, p: nat): Option<nat> {
    if p >= |b| || b[p] == 0 then None
    else
      match FindNul(b, p + 1)
      case None => None
      case Some(q) =>
        if b[p] == 3 || b[p] == 4 then Some(q + 1)
        else if b[p] != 15 || q + 9 > |b| then None
        else
          var size := ReadInt32(b[q + 5..q + 9]);
          if q + 9 + size < 0 then None else Some(q + 9 + size)
  }

  /** The document a value holds, if any. */
  function Held(v: Value): Option<Doc> {
    match v
    case Plain(_) => None
    case Object(d) => Some(d)
    case Array(d) => Some(d)
    case CodeWScope(_, scope) => Some(scope)
  }

  /** A nested document stands where the accessors look for it, so the walk works at every depth. */
  lemma NestedStands(b: seq<byte>, p: nat, name: cstring, v: Value)
    requires Holds(b, p, ElementBytes(name, v)) && |ElementBytes(name, v)| < INT32_LIMIT
    ensures NestedAt(b, p).Some? == Held(v).Some?
    ensures Held(v).Some? ==>
      Holds(b, NestedAt(b, p).value, DocBytes(Held(v).value)) && |DocBytes(Held(v).value)| < INT32_LIMIT
  {
    hide Holds, DocBytes, ReadInt32, ElementBytes, TextBytes, ScalarBytes;
    HoldsElement(b, p, name, v);
    FindNulUnique(b, p + 1, name);
    if v.CodeWScope? {
      ScopeStands(b, p + 2 + |name|, v.code, v.scope);
    }
  }

  lemma ScopeStands(b: seq<byte>, q: nat, code: seq<byte>, scope: Doc)
    requires Holds(b, q, ValueBytes(CodeWScope(code, scope))) && |ValueBytes(CodeWScope(code, scope))| < INT32_LIMIT
    ensures q + 8 <= |b| && ReadInt32(b[q + 4..q + 8]) == |code| + 1
    ensures Holds(b, q + 9 + |code|, DocBytes(scope))
  {
    hide Holds, DocBytes, Int32Bytes, ReadInt32;
    var body := TextBytes(code) + DocBytes(scope);
    HoldsSplit(b, q, Int32Bytes(4 + |body|), body);
    TextHead(b, q + 4, code, DocBytes(scope));
    HoldsSplit(b, q + 4, TextBytes(code), DocBytes(scope));
  }

  /** valueStringData: as many bytes as the size says, less the terminator. */
  function TextAt(b: seq<byte>, v: nat): Option<seq<byte>> {
    if v + 4 > |b| then None
    else
      var size := ReadInt32(b[v..v + 4]);
      if size < 1 || v + 4 + size - 1 > |b| then None else Some(b[v + 4..v + 4 + size - 1])
  }

  /** binData and binDataType. */
  function BinDataAt(b: seq<byte>, v: nat): Option<Scalar> {
    if v + 5 > |b| then None
    else
      var size := ReadInt32(b[v..v + 4]);
      if size < 0 || v + 5 + size > |b| then None else Some(BinData(b[v + 4], b[v + 5..v + 5 + size]))
  }

  /** regex and regexFlags, two C strings one after the other. */
  function RegExAt(b: seq<byte>, v: nat): Option<Scalar> {
    if v > |b| then None
    else
      match FindNul(b, v)
      case None => None
      case Some(p) =>
        match FindNul(b, p + 1)
        case None => None
        case Some(q) => Some(RegEx(b[v..p], b[p + 1..q]))
  }

  /** The namespace by its size, and dbrefOID after it. */
  function DBRefAt(b: seq<byte>, v: nat): Option<Scalar> {
    match TextAt(b, v)
    case None => None
    case Some(ns) =>
      var q := v + 5 + |ns|;
      if q + 12 > |b| then None else Some(DBRef(ns, b[q..q + 12]))
  }

  /** What the accessors read at a value, by its type; nothing is checked but the bounds. */
  function ScalarAt(b: seq<byte>, v: nat, t: byte): Option<Scalar> {
    if FixedWidth(t).Some? then
      var e := v + FixedWidth(t).value;
      if e > |b| then None else Some(FixedScalar(t, b[v..e]))
    else if t == 2 || t == 13 || t == 14 then
      match TextAt(b, v)
      case None => None
      case Some(s) => Some(if t == 2 then String(s) else if t == 13 then Code(s) else Symbol(s))
    else if t == 11 then RegExAt(b, v)
    else if t == 12 then DBRefAt(b, v)
    else if t == 5 then BinDataAt(b, v)
    else None
  }

  lemma TextAtExact(b: seq<byte>, v: nat, s: seq<byte>)
    requires Holds(b, v, TextBytes(s)) && |s| + 1 < INT32_LIMIT
    ensures TextAt(b, v) == Some(s)
  {
    hide Holds, TextBytes;
    ParseTextComplete(b, v, s);
  }

  lemma ScalarAtExact(b: seq<byte>, v: nat, s: Scalar)
    requires Holds(b, v, ScalarBytes(s)) && |ScalarBytes(s)| < INT32_LIMIT
    ensures ScalarAt(b, v, ScalarType(s)) == Some(s)
  {
    hide TextAt, RegExAt, BinDataAt, DBRefAt;
    if FixedWidth(ScalarType(s)).Some? {
      FixedScalarOfBytes(s);
    } else if s.RegEx? {
      RegExAtExact(b, v, s.pattern, s.options);
    } else if s.BinData? {
      BinDataAtExact(b, v, s.subtype, s.data);
    } else if s.DBRef? {
      DBRefAtExact(b, v, s.ns, s.id);
    } else {
      TextAtExact(b, v, s.text);
    }
  }

  lemma RegExAtExact(b: seq<byte>, v: nat, pattern: cstring, options: cstring)
    requires Holds(b, v, CStringBytes(pattern) + CStringBytes(options))
    ensures RegExAt(b, v) == Some(RegEx(pattern, options))
  {
    hide Holds;
    ParseRegExComplete(b, v, pattern, options);
  }

  lemma BinDataAtExact(b: seq<byte>, v: nat, subtype: byte, data: seq<byte>)
    requires Holds(b, v, Int32Bytes(|data|) + ([subtype] + data)) && 5 + |data| < INT32_LIMIT
    ensures BinDataAt(b, v) == Some(BinData(subtype, data))
  {
    hide Holds;
    ParseBinDataComplete(b, v, subtype, data);
  }

  lemma DBRefAtExact(b: seq<byte>, v: nat, ns: seq<byte>, id: oid)
    requires Holds(b, v, TextBytes(ns) + id) && |ns| + 1 < INT32_LIMIT
    ensures DBRefAt(b, v) == Some(DBRef(ns, id))
  {
    hide TextAt;
    HoldsSplit(b, v, TextBytes(ns), id);
    TextAtExact(b, v, ns);
  }

  /** The value of the element at p through its accessors, its nested document already read. */
  function ReadValue(b: seq<byte>, p: nat, nested: Doc): Option<Value> {
    if p >= |b| then None
    else
      match FindNul(b, p + 1)
      case None => None
      case Some(q) =>
        if b[p] == 3 then Some(Object(nested))
        else if b[p] == 4 then Some(Array(nested))
        else if b[p] == 15 then
          match TextAt(b, q + 5)
          case None => None
          case Some(code) => Some(CodeWScope(code, nested))
        else
          match ScalarAt(b, q + 1, b[p])
          case None => None
          case Some(s) => Some(Plain(s))
  }

  lemma ReadValueExact(b: seq<byte>, p: nat, name: cstring, v: Value, nested: Doc)
    requires Holds(b, p, ElementBytes(name, v)) && |ElementBytes(name, v)| < INT32_LIMIT
    requires Held(v).Some? ==> nested == Held(v).value
    ensures FindNul(b, p + 1) == Some(p + 1 + |name|) && b[p + 1..p + 1 + |name|] == name
    ensures ReadValue(b, p, nested) == Some(v)
  {
    hide ElementBytes, ScalarAt, TextAt, DocBytes, ScalarBytes, TextBytes;
    HoldsElement(b, p, name, v);
    FindNulUnique(b, p + 1, name);
    HoldsSplit(b, p + 1, name, [0]);
    var q := p + 2 + |name|;
    if v.Plain? {
      ScalarAtExact(b, q, v.s);
    } else if v.CodeWScope? {
      CodeOfScope(b, q, v.code, v.scope);
    }
  }

  lemma CodeOfScope(b: seq<byte>, q: nat, code: seq<byte>, scope: Doc)
    requires var v := CodeWScope(code, scope); Holds(b, q, ValueBytes(v)) && |ValueBytes(v)| < INT32_LIMIT
    ensures TextAt(b, q + 4) == Some(code)
  {
    hide Holds, TextAt;
    var body := TextBytes(code) + DocBytes(scope);
    HoldsSplit(b, q, Int32Bytes(4 + |body|), body);
    HoldsSplit(b, q + 4, TextBytes(code), DocBytes(scope));
    TextAtExact(b, q + 4, code);
  }

  /** Reading a document to the bottom with one iterator per level gives its tree back. */
  method ReadTree(b: seq<byte>, p: nat, checkEnd: bool, ghost d: Doc) returns (tree: Doc)
    requires Holds(b, p, DocBytes(d)) && |DocBytes(d)| < INT32_LIMIT
    ensures tree == d
    decreases d
  {
    hide Ahead, ElementBytes, ElementSize, BoundedElementSize, DocBytes, Holds;
    HeaderRead(b, p, d);
    var it := new BsonObjIterator(b, p, p + ReadInt32(b[p..p + 4]));
    ghost var left := d;
    tree := Nil;
    AheadStep(b, it.pos, it.last, left);
    while it.More()
      invariant it.b == b && it.pos >= 0
      invariant Ahead(b, it.pos, it.last, left)
      invariant left == d || left < d
      invariant left.Field? <==> it.pos < it.last
      invariant Append(tree, left) == d
      decreases left
    {
      AheadStep(b, it.pos, it.last, left);
      AheadElement(b, it.pos, it.last, left);
      var e := it.Next(checkEnd);
      var name, value := ReadElement(b, e.value, checkEnd, left.name, left.value);
      AppendAssociative(tree, Field(name, value, Nil), left.rest);
      tree := Append(tree, Field(name, value, Nil));
      left := left.rest;
      AheadStep(b, it.pos, it.last, left);
    }
  }

  method ReadElement(b: seq<byte>, p: nat, checkEnd: bool, ghost n: cstring, ghost v: Value)
    returns (name: cstring, value: Value)
    requires Holds(b, p, ElementBytes(n, v)) && |ElementBytes(n, v)| < INT32_LIMIT
    ensures name == n && value == v
    decreases v
  {
    hide ElementBytes, DocBytes, ReadValue, NestedAt, Holds;
    NestedStands(b, p, n, v);
    var nested := Nil;
    if NestedAt(b, p).Some? {
      nested := ReadTree(b, NestedAt(b, p).value, checkEnd, Held(v).value);
    }
    ReadValueExact(b, p, n, v, nested);
    name := b[p + 1..FindNul(b, p + 1).value];
    value := ReadValue(b, p, nested).value;
  }
}
