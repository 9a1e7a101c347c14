/**
 The hashers of elements and documents. Whatever combines the parts, values that compare
 equal hash equal.
 */
module BsonHash {
  import opened Bytes
  import opened Arithmetic
  import opened BsonTree
  import opened CompareNumbers
  import opened Lexicographic
  import opened BsonOrder

  /** What hash_combine is given; doubles as values, so equal doubles are one thing. */
  datatype Part =
    | CanonicalPart(t: int)
    | TextPart(s: seq<byte>)
    | FlagPart(f: bool)
    | LongPart(n: int)
    | DoublePart(d: Double)
    | HashPart(h: nat)

  type Combine = (nat, Part) -> nat

  /** A conversion of longs to double that does not change what a double can hold. */
  ghost predicate Faithful(toDouble: int -> Double) {
    forall n, bits: uint64 :: DecodeDouble(bits) == FromLong(n) ==> toDouble(n) == FromLong(n)
  }

  /** numberDouble() */
  function NumberDoubleOf(s: Scalar, toDouble: int -> Double): Double
    requires IsNumber(Plain(s))
  {
    match s
    case NumberInt(n) => FromLong(n)
    case NumberLong(n) => toDouble(n)
    case NumberDouble(bits) => DecodeDouble(bits)
  }

  function ScalarHash(h: nat, s: Scalar, combine: Combine, toDouble: int -> Double): nat {
    if IsNumber(Plain(s)) then combine(h, DoublePart(NumberDoubleOf(s, toDouble)))
    else if s.Bool? then combine(h, FlagPart(s.flag != 0))
    else if s.Timestamp? then combine(h, LongPart(ToSigned64(s.stamp)))
    else if s.Date? then combine(h, LongPart(s.millis))
    else if s.ObjectId? then combine(h, TextPart(s.id))
    else if s.Code? || s.Symbol? || s.String? then combine(h, TextPart(s.text))
    else if s.DBRef? || s.BinData? then combine(h, TextPart(ScalarBytes(s)))
    else if s.RegEx? then combine(combine(h, TextPart(s.pattern)), TextPart(s.options))
    else h
  }

  /** BSONElement::Hasher */
  function ElementHash(name: cstring, v: Value, combine: Combine, toDouble: int -> Double): nat
    decreases v, 1
  {
    var h := combine(0, CanonicalPart(CanonicalType(v)));
    var h1 := if name != [] then combine(h, TextPart(name)) else h;
    match v
    case Plain(s) => ScalarHash(h1, s, combine, toDouble)
    case Object(d) => combine(h1, HashPart(DocHash(0, d, combine, toDouble)))
    case Array(d) => combine(h1, HashPart(DocHash(0, d, combine, toDouble)))
    case CodeWScope(code, scope) =>
      combine(combine(h1, TextPart(code + [0])), HashPart(DocHash(0, scope, combine, toDouble)))
  }

  /** BSONObj::Hasher, from a hash so far. */
  function DocHash(h: nat, d: Doc, combine: Combine, toDouble: int -> Double): nat
    decreases d, 0
  {
    match d
    case Nil => h
    case Field(name, v, rest) =>
      DocHash(combine(h, HashPart(ElementHash(name, v, combine, toDouble))), rest, combine, toDouble)
  }

  method HashDoc(d: Doc, combine: Combine, toDouble: int -> Double) returns (hash: nat)
    ensures hash == DocHash(0, d, combine, toDouble)
  {
    hash := 0;
    var i := d;
    while i.Field?
      invariant DocHash(hash, i, combine, toDouble) == DocHash(0, d, combine, toDouble)
      decreases i
    {
      hash := combine(hash, HashPart(ElementHash(i.name, i.value, combine, toDouble)));
      i := i.rest;
    }
  }

  /** Equal numbers are the same double, though a large long may be rounded. */
  lemma EqualNumbersConvertAlike(l: Scalar, r: Scalar, toDouble: int -> Double)
    requires IsNumber(Plain(l)) && IsNumber(Plain(r)) && Faithful(toDouble)
    requires NumberOf(l) == NumberOf(r)
    ensures NumberDoubleOf(l, toDouble) == NumberDoubleOf(r, toDouble)
  {
    hide Unit, DecodeDouble, FromLong;
    if l.NumberLong? && r.NumberLong? {
      FromLongInjective(l.l, r.l);
    } else {
      if l.NumberInt? || r.NumberInt? {
        var n := if l.NumberInt? then l.i else r.i;
        var bits := LongRepresentable(n);
      }
      if l.NumberLong? && r.NumberInt? {
        FromLongInjective(l.l, r.i);
      } else if l.NumberInt? && r.NumberLong? {
        FromLongInjective(r.l, l.i);
      }
    }
  }

  lemma FromLongInjective(a: int, b: int)
    requires FromLong(a) == FromLong(b)
    ensures a == b
  {
    hide Unit;
    ScaleOrder(a, b, Unit());
  }

  lemma DoubleKeyInjective(a: Double, b: Double)
    requires DoubleKey(a) == DoubleKey(b)
    ensures a == b
  {
    assert DoubleKey(a)[0] == DoubleKey(b)[0] && DoubleKey(a)[1] == DoubleKey(b)[1];
  }

  lemma EqualScalars(l: Scalar, r: Scalar)
    requires ScalarCanonicalType(l) == ScalarCanonicalType(r) && CompareScalars(l, r) == 0
    ensures SortKey(l) == SortKey(r)
  {
    ScalarsCompareByKey(l, r);
    CompareZero(SortKey(l), SortKey(r));
  }

  lemma EqualNames(a: cstring, b: cstring)
    requires StrCmp(a, b) == 0
    ensures a == b
  {
    NamesCompare(a, b);
    CompareZero(a, b);
  }

  lemma EqualScalarsHashEqual(h: nat, l: Scalar, r: Scalar, combine: Combine, toDouble: int -> Double)
    requires Faithful(toDouble) && ScalarCanonicalType(l) == ScalarCanonicalType(r) && CompareScalars(l, r) == 0
    ensures ScalarHash(h, l, combine, toDouble) == ScalarHash(h, r, combine, toDouble)
  {
    hide NumberOf, NumberDoubleOf, ScalarBytes, DoubleKey, Faithful, SignedChar;
    EqualScalars(l, r);
    var x, y := SortKey(l), SortKey(r);
    if IsNumber(Plain(l)) {
      DoubleKeyInjective(NumberOf(l), NumberOf(r));
      EqualNumbersConvertAlike(l, r, toDouble);
    } else if l.Bool? {
      assert x[0] == y[0];
      SignedCharInjective(l.flag, r.flag);
    } else if l.Timestamp? || l.Date? {
      assert x[0] == y[0];
    } else if l.RegEx? {
      EqualNames(l.pattern, r.pattern);
      EqualNames(l.options, r.options);
    } else {
      EqualBytesHashEqual(h, l, r, combine, toDouble);
    }
  }

  lemma SignedCharInjective(a: byte, b: byte)
    requires SignedChar(a) == SignedChar(b)
    ensures a == b
  {
  }

  lemma EqualBytesHashEqual(h: nat, l: Scalar, r: Scalar, combine: Combine, toDouble: int -> Double)
    requires ScalarCanonicalType(l) == ScalarCanonicalType(r) && SortKey(l) == SortKey(r)
    requires !IsNumber(Plain(l)) && !l.Bool? && !l.Timestamp? && !l.Date? && !l.RegEx?
    ensures ScalarHash(h, l, combine, toDouble) == ScalarHash(h, r, combine, toDouble)
  {
    hide ScalarBytes, NumberOf, NumberDoubleOf, DoubleKey;
    if l.Code? || l.Symbol? || l.String? {
      SameTextKey(l.text, r.text);
    } else if l.DBRef? {
      WithoutFirst(|ScalarBytes(l)|, ScalarBytes(l), |ScalarBytes(r)|, ScalarBytes(r));
    } else if l.BinData? {
      WithoutFirst(|l.data|, [l.subtype] + l.data, |r.data|, [r.subtype] + r.data);
      WithoutFirst(l.subtype, l.data, r.subtype, r.data);
    }
  }

  lemma WithoutFirst(m: int, x: seq<int>, n: int, y: seq<int>)
    requires [m] + x == [n] + y
    ensures m == n && x == y
  {
    assert ([m] + x)[0] == m && ([n] + y)[0] == n;
    assert ([m] + x)[1..] == x && ([n] + y)[1..] == y;
  }

  lemma SameTextKey(a: seq<byte>, b: seq<byte>)
    requires TextKey(a) == TextKey(b)
    ensures a == b
  {
    TextKeyOrder(a, b);
    CompareZero(TextKey(a), TextKey(b));
    CompareZero(a, b);
  }

  /** Elements that compare equal, names included, hash equal. */
  lemma {:induction false} EqualElementsHashEqual(ln: cstring, l: Value, rn: cstring, r: Value,
                                                  combine: Combine, toDouble: int -> Double)
    requires Faithful(toDouble) && CompareElements(ln, l, rn, r, true) == 0
    ensures ElementHash(ln, l, combine, toDouble) == ElementHash(rn, r, combine, toDouble)
    decreases l, 1
  {
    hide StrCmp, CompareScalars, CompareDocs, CompareStringData, Faithful, ScalarHash, DocHash;
    ElementParts(ln, l, rn, r, true);
    EqualNames(ln, rn);
    if l.Plain? {
      var h := combine(0, CanonicalPart(CanonicalType(l)));
      var h1 := if ln != [] then combine(h, TextPart(ln)) else h;
      EqualScalarsHashEqual(h1, l.s, r.s, combine, toDouble);
    } else if l.CodeWScope? {
      CodesCompare(l.code, r.code);
      CompareZero(l.code, r.code);
      EqualDocsHashEqual(0, l.scope, r.scope, combine, toDouble);
    } else {
      EqualDocsHashEqual(0, l.doc, r.doc, combine, toDouble);
    }
  }

  /** Documents that compare equal hash equal. */
  lemma {:induction false} EqualDocsHashEqual(h: nat, l: Doc, r: Doc, combine: Combine, toDouble: int -> Double)
    requires Faithful(toDouble) && CompareDocs(l, r) == 0
    ensures DocHash(h, l, combine, toDouble) == DocHash(h, r, combine, toDouble)
    decreases l, 0
  {
    hide CompareElements, ElementHash, Faithful;
    if l.Field? {
      EqualElementsHashEqual(l.name, l.value, r.name, r.value, combine, toDouble);
      EqualDocsHashEqual(combine(h, HashPart(ElementHash(l.name, l.value, combine, toDouble))),
                         l.rest, r.rest, combine, toDouble);
    }
  }

  // The converse: what a hash that mixes up nothing tells apart.

  /** No two ways of combining collide, and none gives the hash that everything starts from. */
  ghost predicate Injective(combine: Combine) {
    && (forall g, p, h, q :: combine(g, p) == combine(h, q) ==> g == h && p == q)
    && (forall h, p :: combine(h, p) != 0)
  }

  function Fold(h: nat, parts: seq<Part>, combine: Combine): nat {
    if parts == [] then h else combine(Fold(h, parts[..|parts| - 1], combine), parts[|parts| - 1])
  }

  lemma {:induction false} FoldInjective(p: seq<Part>, q: seq<Part>, combine: Combine)
    requires Injective(combine) && Fold(0, p, combine) == Fold(0, q, combine)
    ensures p == q
  {
    if p != [] && q != [] {
      var m, n := |p| - 1, |q| - 1;
      FoldInjective(p[..m], q[..n], combine);
      assert p == p[..m] + [p[m]] && q == q[..n] + [q[n]];
    }
  }

  lemma {:induction false} FoldJoined(h: nat, p: seq<Part>, q: seq<Part>, combine: Combine)
    ensures Fold(h, p + q, combine) == Fold(Fold(h, p, combine), q, combine)
    decreases |q|
  {
    if q == [] {
      assert p + q == p;
    } else {
      var n := |q| - 1;
      FoldJoined(h, p, q[..n], combine);
      assert (p + q)[..|p + q| - 1] == p + q[..n];
    }
  }

  /** What a scalar is known by: its number as a double, whether a flag is set, or its bytes. */
  function ScalarParts(s: Scalar, toDouble: int -> Double): seq<Part> {
    if IsNumber(Plain(s)) then [DoublePart(NumberDoubleOf(s, toDouble))]
    else
      match s
      case Bool(flag) => [FlagPart(flag != 0)]
      case Timestamp(stamp) => [LongPart(ToSigned64(stamp))]
      case Date(millis) => [LongPart(millis)]
      case ObjectId(id) => [TextPart(id)]
      case Code(text) => [TextPart(text)]
      case Symbol(text) => [TextPart(text)]
      case String(text) => [TextPart(text)]
      case RegEx(pattern, options) => [TextPart(pattern), TextPart(options)]
      case DBRef(_, _) => [TextPart(ScalarBytes(s))]
      case BinData(_, _) => [TextPart(ScalarBytes(s))]
      case _ => []
  }

  function ValueParts(v: Value, combine: Combine, toDouble: int -> Double): seq<Part> {
    match v
    case Plain(s) => ScalarParts(s, toDouble)
    case Object(d) => [HashPart(DocHash(0, d, combine, toDouble))]
    case Array(d) => [HashPart(DocHash(0, d, combine, toDouble))]
    case CodeWScope(code, scope) => [TextPart(code + [0]), HashPart(DocHash(0, scope, combine, toDouble))]
  }

  function HeadParts(name: cstring, v: Value): seq<Part> {
    [CanonicalPart(CanonicalType(v))] + if name != [] then [TextPart(name)] else []
  }

  lemma FoldTwo(h: nat, a: Part, b: Part, combine: Combine)
    ensures Fold(h, [], combine) == h && Fold(h, [a], combine) == combine(h, a)
    ensures Fold(h, [a, b], combine) == combine(combine(h, a), b)
  {
    assert [a][..0] == [] && [a, b][..1] == [a];
  }

  lemma ElementHashParts(name: cstring, v: Value, combine: Combine, toDouble: int -> Double)
    ensures ElementHash(name, v, combine, toDouble)
         == Fold(0, HeadParts(name, v) + ValueParts(v, combine, toDouble), combine)
  {
    hide Fold, CanonicalType, NumberDoubleOf, DocHash, ScalarBytes;
    var head, parts := HeadParts(name, v), ValueParts(v, combine, toDouble);
    FoldJoined(0, head, parts, combine);
    var c := CanonicalPart(CanonicalType(v));
    FoldTwo(0, c, TextPart(name), combine);
    assert head == if name != [] then [c, TextPart(name)] else [c];
    var h := Fold(0, head, combine);
    var first := if parts != [] then parts[0] else c;
    FoldTwo(h, first, if |parts| > 1 then parts[1] else c, combine);
    assert |parts| <= 2 && parts == if |parts| == 0 then [] else if |parts| == 1 then [first] else [first, parts[1]];
  }

  /** The same but for what a hash cannot see: longs that round alike, and flags that are both set. */
  ghost predicate AlikeScalars(l: Scalar, r: Scalar, toDouble: int -> Double)
    requires ScalarCanonicalType(l) == ScalarCanonicalType(r)
  {
    if IsNumber(Plain(l)) then NumberDoubleOf(l, toDouble) == NumberDoubleOf(r, toDouble)
    else if l.Bool? then l.flag == 0 <==> r.flag == 0
    else CompareScalars(l, r) == 0
  }

  ghost predicate AlikeValues(l: Value, r: Value, toDouble: int -> Double)
    decreases l, 0
  {
    && CanonicalType(l) == CanonicalType(r)
    && match l
       case Plain(s) => AlikeScalars(s, r.s, toDouble)
       case Object(d) => AlikeDocs(d, r.doc, toDouble)
       case Array(d) => AlikeDocs(d, r.doc, toDouble)
       case CodeWScope(code, scope) => code == r.code && AlikeDocs(scope, r.scope, toDouble)
  }

  ghost predicate AlikeDocs(l: Doc, r: Doc, toDouble: int -> Double)
    decreases l, 0
  {
    if l.Nil? || r.Nil? then l == r
    else l.name == r.name && AlikeValues(l.value, r.value, toDouble) && AlikeDocs(l.rest, r.rest, toDouble)
  }

  lemma SameScalarParts(l: Scalar, r: Scalar, toDouble: int -> Double)
    requires ScalarCanonicalType(l) == ScalarCanonicalType(r) && ScalarParts(l, toDouble) == ScalarParts(r, toDouble)
    ensures AlikeScalars(l, r, toDouble)
  {
    hide NumberDoubleOf, NumberOf, CompareScalars, ScalarBytes, TextKey, DoubleKey, Compare;
    var x, y := ScalarParts(l, toDouble), ScalarParts(r, toDouble);
    if !IsNumber(Plain(l)) && !l.Bool? {
      assert x != [] ==> x[0] == y[0];
      assert l.RegEx? ==> x[1] == y[1];
      if l.BinData? {
        SameBinData(l, r);
      }
      assert SortKey(l) == SortKey(r);
      ScalarsCompareByKey(l, r);
      CompareZero(SortKey(l), SortKey(r));
    }
  }

  lemma SameBinData(l: Scalar, r: Scalar)
    requires l.BinData? && r.BinData? && ScalarBytes(l) == ScalarBytes(r)
    ensures l == r
  {
    hide Int32Bytes;
    var x, y := ScalarBytes(l), ScalarBytes(r);
    assert |l.data| == |r.data|;
    assert x[4] == l.subtype && y[4] == r.subtype;
    assert x[5..] == l.data && y[5..] == r.data;
  }

  lemma SplitParts(ln: cstring, l: Value, rn: cstring, r: Value, combine: Combine, toDouble: int -> Double)
    requires HeadParts(ln, l) + ValueParts(l, combine, toDouble) == HeadParts(rn, r) + ValueParts(r, combine, toDouble)
    ensures CanonicalType(l) == CanonicalType(r) && ln == rn
    ensures ValueParts(l, combine, toDouble) == ValueParts(r, combine, toDouble)
  {
    hide NumberDoubleOf, DocHash, ScalarBytes;
    var hl, hr := HeadParts(ln, l), HeadParts(rn, r);
    var vl, vr := ValueParts(l, combine, toDouble), ValueParts(r, combine, toDouble);
    assert (hl + vl)[0] == hl[0] && (hr + vr)[0] == hr[0];
    assert |vl| == |vr|;
    assert (hl + vl)[..|hl|] == hl && (hr + vr)[..|hl|] == hr;
    assert (hl + vl)[|hl|..] == vl && (hr + vr)[|hl|..] == vr;
    assert ln != [] ==> hl[1] == hr[1];
  }

  /** Elements that hash equal have one name and values that are alike. */
  lemma {:induction false} HashTellsElements(ln: cstring, l: Value, rn: cstring, r: Value,
                                             combine: Combine, toDouble: int -> Double)
    requires Injective(combine) && ElementHash(ln, l, combine, toDouble) == ElementHash(rn, r, combine, toDouble)
    ensures ln == rn && AlikeValues(l, r, toDouble)
    decreases l, 1
  {
    hide ElementHash, Fold, HeadParts, ScalarParts, AlikeScalars, DocHash, Injective;
    ElementHashParts(ln, l, combine, toDouble);
    ElementHashParts(rn, r, combine, toDouble);
    var vl, vr := ValueParts(l, combine, toDouble), ValueParts(r, combine, toDouble);
    FoldInjective(HeadParts(ln, l) + vl, HeadParts(rn, r) + vr, combine);
    SplitParts(ln, l, rn, r, combine, toDouble);
    if l.Plain? {
      SameScalarParts(l.s, r.s, toDouble);
    } else if l.CodeWScope? {
      assert vl[0] == vr[0] && vl[1] == vr[1];
      assert (l.code + [0])[..|l.code|] == l.code && (r.code + [0])[..|r.code|] == r.code;
      assert |l.code + [0]| == |r.code + [0]|;
      HashTellsDocs(l.scope, r.scope, combine, toDouble);
    } else {
      assert vl[0] == vr[0];
      HashTellsDocs(l.doc, r.doc, combine, toDouble);
    }
  }

  function DocParts(d: Doc, combine: Combine, toDouble: int -> Double): seq<Part> {
    match d
    case Nil => []
    case Field(name, v, rest) =>
      [HashPart(ElementHash(name, v, combine, toDouble))] + DocParts(rest, combine, toDouble)
  }

  lemma {:induction false} DocHashParts(h: nat, d: Doc, combine: Combine, toDouble: int -> Double)
    ensures DocHash(h, d, combine, toDouble) == Fold(h, DocParts(d, combine, toDouble), combine)
    decreases d
  {
    hide ElementHash;
    if d.Field? {
      var p := HashPart(ElementHash(d.name, d.value, combine, toDouble));
      DocHashParts(combine(h, p), d.rest, combine, toDouble);
      FoldJoined(h, [p], DocParts(d.rest, combine, toDouble), combine);
      FoldTwo(h, p, p, combine);
    }
  }

  /** Documents that hash equal are alike field by field. */
  lemma {:induction false} HashTellsDocs(l: Doc, r: Doc, combine: Combine, toDouble: int -> Double)
    requires Injective(combine) && DocHash(0, l, combine, toDouble) == DocHash(0, r, combine, toDouble)
    ensures AlikeDocs(l, r, toDouble)
    decreases l, 1
  {
    hide DocHash, Fold, Injective;
    DocHashParts(0, l, combine, toDouble);
    DocHashParts(0, r, combine, toDouble);
    FoldInjective(DocParts(l, combine, toDouble), DocParts(r, combine, toDouble), combine);
    PartsTellDocs(l, r, combine, toDouble);
  }

  lemma {:induction false} PartsTellDocs(l: Doc, r: Doc, combine: Combine, toDouble: int -> Double)
    requires Injective(combine) && DocParts(l, combine, toDouble) == DocParts(r, combine, toDouble)
    ensures AlikeDocs(l, r, toDouble)
    decreases l, 0
  {
    hide ElementHash, Injective, AlikeValues;
    var x, y := DocParts(l, combine, toDouble), DocParts(r, combine, toDouble);
    if l.Field? && r.Field? {
      assert x[0] == y[0] && x[1..] == y[1..];
      HashTellsElements(l.name, l.value, r.name, r.value, combine, toDouble);
      PartsTellDocs(l.rest, r.rest, combine, toDouble);
    }
  }

  /** Longs that round to one double hash alike, and so does an int with the double of its value. */
  lemma HashRounds(name: cstring, m: int64, n: int64, i: int32, bits: uint64, combine: Combine, toDouble: int -> Double)
    ensures toDouble(m) == toDouble(n) ==>
      ElementHash(name, Plain(NumberLong(m)), combine, toDouble)
      == ElementHash(name, Plain(NumberLong(n)), combine, toDouble)
    ensures DecodeDouble(bits) == FromLong(i) ==>
      ElementHash(name, Plain(NumberInt(i)), combine, toDouble)
      == ElementHash(name, Plain(NumberDouble(bits)), combine, toDouble)
  {
    hide DecodeDouble, FromLong;
  }
}
