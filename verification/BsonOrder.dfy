/**
 The order of BSON: by canonical type, then field name, then value, mutually with the order
 of documents. It is the lexicographic order of one key per document, and so a total preorder
 over every type, the mixed numbers included.
 */
module BsonOrder {
  import opened Bytes
  import opened Arithmetic
  import opened BsonTree
  import opened CompareNumbers
  import opened Lexicographic

  /** canonicalizeBSONType, on the values that can stand in a document. */
  function CanonicalType(v: Value): int {
    match v
    case Plain(s) => ScalarCanonicalType(s)
    case Object(_) => 20
    case Array(_) => 25
    case CodeWScope(_, _) => 65
  }

  function ScalarCanonicalType(s: Scalar): int {
    match s
    case MinKey => -1
    case MaxKey => 127
    case Undefined => 0
    case Null => 5
    case NumberDouble(_) => 10
    case NumberInt(_) => 10
    case NumberLong(_) => 10
    case String(_) => 15
    case Symbol(_) => 15
    case BinData(_, _) => 30
    case ObjectId(_) => 35
    case Bool(_) => 40
    case Date(_) => 45
    case Timestamp(_) => 47
    case RegEx(_, _) => 50
    case DBRef(_, _) => 55
    case Code(_) => 60
  }

  predicate IsNumber(v: Value) {
    v.Plain? && (v.s.NumberDouble? || v.s.NumberInt? || v.s.NumberLong?)
  }

  /** A plain char, which is signed. */
  function SignedChar(x: byte): int {
    if x < 128 then x else x - 256
  }

  function StrCmp(a: seq<int>, b: seq<int>): int {
    if a == [] then (if b == [] then 0 else -b[0])
    else if b == [] then a[0]
    else if a[0] != b[0] then a[0] - b[0]
    else StrCmp(a[1..], b[1..])
  }

  /** Sized strings, the NUL included in the sizes. */
  function CompareText(l: seq<byte>, r: seq<byte>): int {
    var lsz, rsz := |l| + 1, |r| + 1;
    var common := if lsz < rsz then lsz else rsz;
    Then(MemCompare(l + [0], r + [0], common), lsz - rsz)
  }

  /** StringData::compare */
  function CompareStringData(l: seq<byte>, r: seq<byte>): int {
    var common := if |l| < |r| then |l| else |r|;
    var res := MemCompare(l, r, common);
    if res != 0 then (if res > 0 then 1 else -1)
    else if |l| == |r| then 0
    else if |l| > |r| then 1 else -1
  }

  function CompareNumeric(l: Scalar, r: Scalar): int
    requires IsNumber(Plain(l)) && IsNumber(Plain(r))
  {
    match l
    case NumberInt(a) =>
      (match r
       case NumberInt(b) => CompareLongs(a, b)
       case NumberLong(b) => CompareLongs(a, b)
       case NumberDouble(b) => CompareDoubles(FromLong(a), DecodeDouble(b)))
    case NumberLong(a) =>
      (match r
       case NumberLong(b) => CompareLongs(a, b)
       case NumberInt(b) => CompareLongs(a, b)
       case NumberDouble(b) => CompareLongToDouble(a, DecodeDouble(b)))
    case NumberDouble(a) =>
      (match r
       case NumberDouble(b) => CompareDoubles(DecodeDouble(a), DecodeDouble(b))
       case NumberInt(b) => CompareDoubles(DecodeDouble(a), FromLong(b))
       case NumberLong(b) => CompareDoubleToLong(DecodeDouble(a), b))
  }

  /** compareElementValues without the nested cases; the types are canonically the same. */
  function CompareScalars(l: Scalar, r: Scalar): int
    requires ScalarCanonicalType(l) == ScalarCanonicalType(r)
  {
    if IsNumber(Plain(l)) then CompareNumeric(l, r)
    else if l.Bool? then SignedChar(l.flag) - SignedChar(r.flag)
    else if l.Timestamp? then CompareLongs(l.stamp, r.stamp)
    else if l.Date? then CompareLongs(l.millis, r.millis)
    else if l.ObjectId? then MemCompare(l.id, r.id, 12)
    else if l.Code? || l.Symbol? || l.String? then CompareText(l.text, r.text)
    else if l.DBRef? then
      var x, y := ScalarBytes(l), ScalarBytes(r);
      if |x| != |y| then |x| - |y| else MemCompare(x, y, |x|)
    else if l.BinData? then
      if |l.data| != |r.data| then |l.data| - |r.data|
      else MemCompare([l.subtype] + l.data, [r.subtype] + r.data, |l.data| + 1)
    else if l.RegEx? then Then(StrCmp(l.pattern, r.pattern), StrCmp(l.options, r.options))
    else 0
  }

  function CompareValues(l: Value, r: Value): int
    requires CanonicalType(l) == CanonicalType(r)
    decreases l, 0
  {
    match l
    case Plain(s) => CompareScalars(s, r.s)
    case Object(d) => CompareDocs(d, r.doc)
    case Array(d) => CompareDocs(d, r.doc)
    case CodeWScope(code, scope) =>
      Then(CompareStringData(code, r.code), CompareDocs(scope, r.scope))
  }

  /** BSONElement::woCompare */
  function CompareElements(ln: cstring, l: Value, rn: cstring, r: Value, considerFieldName: bool): int
    decreases l, 1
  {
    var x := CanonicalType(l) - CanonicalType(r);
    if x != 0 && (!IsNumber(l) || !IsNumber(r)) then x
    else
      var y := if considerFieldName then StrCmp(ln, rn) else 0;
      if y != 0 then y else CompareValues(l, r)
  }

  /** BSONObj::woCompare with no key pattern. */
  function CompareDocs(l: Doc, r: Doc): int
    decreases l, 0
  {
    if l.Nil? then (if r.Nil? then 0 else -1)
    else if r.Nil? then 1
    else Then(CompareElements(l.name, l.value, r.name, r.value, true), CompareDocs(l.rest, r.rest))
  }

  // Scalars compare as their keys do.

  function NumberOf(s: Scalar): Double
    requires IsNumber(Plain(s))
  {
    match s
    case NumberInt(n) => FromLong(n)
    case NumberLong(n) => FromLong(n)
    case NumberDouble(bits) => DecodeDouble(bits)
  }

  function DoubleKey(d: Double): seq<int> {
    [Place(d), if d.Finite? then d.units else 0]
  }

  /** A sequence of integers that stands for a scalar among those of its canonical type. */
  function SortKey(s: Scalar): seq<int> {
    if IsNumber(Plain(s)) then DoubleKey(NumberOf(s))
    else if s.Bool? then [SignedChar(s.flag)]
    else if s.Timestamp? then [s.stamp]
    else if s.Date? then [s.millis]
    else if s.ObjectId? then s.id
    else if s.Code? || s.Symbol? || s.String? then TextKey(s.text)
    else if s.DBRef? then [|ScalarBytes(s)|] + ScalarBytes(s)
    else if s.BinData? then [|s.data|] + ([s.subtype] + s.data)
    else if s.RegEx? then TextKey(s.pattern) + TextKey(s.options)
    else []
  }

  lemma CompareLongsScaled(a: int, b: int)
    ensures CompareLongs(a, b) == Order(FromLong(a), FromLong(b))
  {
    hide Unit;
    ScaleOrder(a, b, Unit());
    ScaleOrder(b, a, Unit());
  }

  lemma OrderMirror(a: Double, b: Double)
    ensures Order(a, b) == -Order(b, a)
  {
  }

  /** Whatever their types, two numbers compare as numbers. */
  lemma CompareNumericExact(l: Scalar, r: Scalar)
    requires IsNumber(Plain(l)) && IsNumber(Plain(r))
    ensures CompareNumeric(l, r) == Order(NumberOf(l), NumberOf(r))
  {
    hide Unit, DecodeDouble, FromLong, CompareLongToDouble, CompareDoubles, Order;
    CompareDoublesExact(NumberOf(l), NumberOf(r));
    if l.NumberDouble? {
      if r.NumberLong? {
        CompareLongToDoubleExact(r.l, l.bits);
        OrderMirror(NumberOf(l), NumberOf(r));
      }
    } else if r.NumberDouble? {
      if l.NumberLong? {
        CompareLongToDoubleExact(l.l, r.bits);
      }
    } else {
      var a := if l.NumberInt? then l.i else l.l;
      var b := if r.NumberInt? then r.i else r.l;
      CompareLongsScaled(a, b);
    }
  }

  lemma {:induction false} StrCmpIsCompare(a: seq<int>, b: seq<int>)
    requires forall i :: 0 <= i < |a| ==> a[i] > 0
    requires forall i :: 0 <= i < |b| ==> b[i] > 0
    ensures Sign(StrCmp(a, b)) == Sign(Compare(a, b))
  {
    if a != [] && b != [] && a[0] == b[0] {
      StrCmpIsCompare(a[1..], b[1..]);
    }
  }

  lemma CStringPositive(s: cstring)
    ensures forall i :: 0 <= i < |s| ==> s[i] > 0
  {
    forall i | 0 <= i < |s| ensures s[i] > 0 {
      assert s[i] in s;
    }
  }

  lemma NamesCompare(a: cstring, b: cstring)
    ensures Sign(StrCmp(a, b)) == Sign(Compare(a, b))
    ensures Apart(TextKey(a), TextKey(b)) && Sign(StrCmp(a, b)) == Sign(Compare(TextKey(a), TextKey(b)))
  {
    CStringPositive(a);
    CStringPositive(b);
    StrCmpIsCompare(a, b);
    TextKeyOrder(a, b);
  }

  lemma DoubleKeyOrder(a: Double, b: Double)
    ensures Sign(Order(a, b)) == Sign(Compare(DoubleKey(a), DoubleKey(b)))
    ensures Apart(DoubleKey(a), DoubleKey(b))
  {
    var x, y := DoubleKey(a), DoubleKey(b);
    assert x[1..] == [x[1]] && y[1..] == [y[1]];
    assert Compare([x[1]], [y[1]]) == if x[1] != y[1] then x[1] - y[1] else Compare([], []);
  }

  lemma SingleCompare(a: int, b: int, x: seq<int>, y: seq<int>)
    ensures Compare([a] + x, [b] + y) == if a != b then a - b else Compare(x, y)
  {
    assert ([a] + x)[1..] == x && ([b] + y)[1..] == y;
  }

  lemma OneCompare(a: int, b: int)
    ensures Compare([a], [b]) == a - b && Sign(CompareLongs(a, b)) == Sign(a - b)
  {
  }

  /** memcmp of two equally long strings is their order. */
  lemma SameLengthCompare(a: seq<int>, b: seq<int>)
    requires |a| == |b|
    ensures Sign(MemCompare(a, b, |a|)) == Sign(Compare(a, b))
  {
    MemCompareThenLength(a, b);
  }

  lemma SizedCompare(a: seq<int>, b: seq<int>, m: int, n: int)
    requires m == n ==> |a| == |b|
    ensures Sign(if m != n then m - n else MemCompare(a, b, |a|)) == Sign(Compare([m] + a, [n] + b))
    ensures Apart([m] + a, [n] + b)
  {
    SingleCompare(m, n, a, b);
    ApartJoined([m], a, [n], b);
    if m == n {
      SameLengthCompare(a, b);
    }
  }

  /** A terminator does not change how strings compare, NULs in them or not. */
  lemma {:induction false} EndedCompare(a: seq<int>, b: seq<int>)
    requires forall i :: 0 <= i < |a| ==> a[i] >= 0
    requires forall i :: 0 <= i < |b| ==> b[i] >= 0
    ensures Sign(Compare(a + [0], b + [0])) == Sign(Compare(a, b))
  {
    if a != [] && b != [] {
      EndedCompare(a[1..], b[1..]);
      assert (a + [0])[1..] == a[1..] + [0] && (b + [0])[1..] == b[1..] + [0];
    } else if a != [] {
      assert (a + [0])[1..] != [];
    } else if b != [] {
      assert (b + [0])[1..] != [];
    }
  }

  lemma TextCompare(l: seq<byte>, r: seq<byte>)
    ensures Sign(CompareText(l, r)) == Sign(Compare(TextKey(l), TextKey(r)))
    ensures Apart(TextKey(l), TextKey(r))
  {
    MemCompareThenLength(l + [0], r + [0]);
    EndedCompare(l, r);
    TextKeyOrder(l, r);
  }

  lemma RegExCompare(lp: cstring, lo: cstring, rp: cstring, ro: cstring)
    ensures var x, y := TextKey(lp) + TextKey(lo), TextKey(rp) + TextKey(ro);
      Apart(x, y) && Sign(Then(StrCmp(lp, rp), StrCmp(lo, ro))) == Sign(Compare(x, y))
  {
    hide StrCmp, TextKey, Compare;
    NamesCompare(lp, rp);
    NamesCompare(lo, ro);
    CompareJoined(TextKey(lp), TextKey(lo), TextKey(rp), TextKey(ro));
    ApartJoined(TextKey(lp), TextKey(lo), TextKey(rp), TextKey(ro));
  }

  /** Scalars of one canonical type compare as their sort keys do. */
  lemma ScalarsCompareByKey(l: Scalar, r: Scalar)
    requires ScalarCanonicalType(l) == ScalarCanonicalType(r)
    ensures Apart(SortKey(l), SortKey(r)) && Sign(CompareScalars(l, r)) == Sign(Compare(SortKey(l), SortKey(r)))
  {
    hide MemCompare, CompareText, ScalarBytes, CompareNumeric, DoubleKey, NumberOf, CompareLongs, SignedChar, Then;
    hide TextKey;
    if IsNumber(Plain(l)) {
      CompareNumericExact(l, r);
      DoubleKeyOrder(NumberOf(l), NumberOf(r));
    } else if l.Bool? {
      OneCompare(SignedChar(l.flag), SignedChar(r.flag));
    } else if l.Timestamp? {
      OneCompare(l.stamp, r.stamp);
    } else if l.Date? {
      OneCompare(l.millis, r.millis);
    } else if l.ObjectId? {
      SameLengthCompare(l.id, r.id);
    } else if l.Code? || l.Symbol? || l.String? {
      TextCompare(l.text, r.text);
    } else if l.DBRef? || l.BinData? || l.RegEx? {
      CompoundsCompareByKey(l, r);
    } else {
      assert SortKey(l) == [] && SortKey(r) == [];
    }
  }

  lemma CompoundsCompareByKey(l: Scalar, r: Scalar)
    requires ScalarCanonicalType(l) == ScalarCanonicalType(r)
    requires l.DBRef? || l.BinData? || l.RegEx?
    ensures Apart(SortKey(l), SortKey(r)) && Sign(CompareScalars(l, r)) == Sign(Compare(SortKey(l), SortKey(r)))
  {
    hide MemCompare, StrCmp, ScalarBytes, Compare, Then, TextKey, Apart;
    if l.DBRef? {
      SizedCompare(ScalarBytes(l), ScalarBytes(r), |ScalarBytes(l)|, |ScalarBytes(r)|);
    } else if l.BinData? {
      SizedCompare([l.subtype] + l.data, [r.subtype] + r.data, |l.data|, |r.data|);
    } else {
      RegExCompare(l.pattern, l.options, r.pattern, r.options);
    }
  }

  lemma CodesCompare(a: seq<byte>, b: seq<byte>)
    ensures CompareStringData(a, b) == Sign(Compare(a, b))
    ensures Apart(TextKey(a), TextKey(b)) && Sign(CompareStringData(a, b)) == Sign(Compare(TextKey(a), TextKey(b)))
  {
    MemCompareThenLength(a, b);
    TextKeyOrder(a, b);
  }

  /** The comparison of elements, part by part. */
  lemma ElementParts(ln: cstring, l: Value, rn: cstring, r: Value, considerFieldName: bool)
    ensures CompareElements(ln, l, rn, r, considerFieldName)
         == Then(CanonicalType(l) - CanonicalType(r),
              Then(if considerFieldName then StrCmp(ln, rn) else 0,
                if CanonicalType(l) == CanonicalType(r) then CompareValues(l, r) else 0))
  {
    hide CompareValues, StrCmp;
  }

  // Documents compare as their keys do.

  /** Lower than every canonical type. */
  const END: int := -2

  function ValueKey(v: Value): seq<int>
    decreases v, 0
  {
    match v
    case Plain(s) => SortKey(s)
    case Object(d) => DocKey(d)
    case Array(d) => DocKey(d)
    case CodeWScope(code, scope) => TextKey(code) + DocKey(scope)
  }

  function ElementKey(name: cstring, v: Value, considerFieldName: bool): seq<int>
    decreases v, 1
  {
    [CanonicalType(v)] + ((if considerFieldName then TextKey(name) else []) + ValueKey(v))
  }

  function DocKey(d: Doc): seq<int>
    decreases d, 0
  {
    match d
    case Nil => [END]
    case Field(name, v, rest) => ElementKey(name, v, true) + DocKey(rest)
  }

  lemma {:induction false} ValuesCompareByKey(l: Value, r: Value)
    requires CanonicalType(l) == CanonicalType(r)
    ensures Apart(ValueKey(l), ValueKey(r)) && Sign(CompareValues(l, r)) == Sign(Compare(ValueKey(l), ValueKey(r)))
    decreases l, 0
  {
    hide CompareScalars, CompareDocs, SortKey, CompareStringData, DocKey, TextKey, Compare;
    if l.Plain? {
      ScalarsCompareByKey(l.s, r.s);
    } else if l.CodeWScope? {
      CodesCompare(l.code, r.code);
      DocsCompareByKey(l.scope, r.scope);
      CompareJoined(TextKey(l.code), DocKey(l.scope), TextKey(r.code), DocKey(r.scope));
      ApartJoined(TextKey(l.code), DocKey(l.scope), TextKey(r.code), DocKey(r.scope));
    } else {
      DocsCompareByKey(l.doc, r.doc);
    }
  }

  /** BSONElement::woCompare has the sign of the lexicographic order of the elements' keys. */
  lemma {:induction false} ElementsCompareByKey(ln: cstring, l: Value, rn: cstring, r: Value, considerFieldName: bool)
    ensures var x, y := ElementKey(ln, l, considerFieldName), ElementKey(rn, r, considerFieldName);
      Apart(x, y) && Sign(CompareElements(ln, l, rn, r, considerFieldName)) == Sign(Compare(x, y))
    decreases l, 1
  {
    hide CompareElements, CompareValues, StrCmp, CanonicalType, ValueKey, TextKey;
    var lk, rk := if considerFieldName then TextKey(ln) else [], if considerFieldName then TextKey(rn) else [];
    var x, y := lk + ValueKey(l), rk + ValueKey(r);
    ElementParts(ln, l, rn, r, considerFieldName);
    SingleCompare(CanonicalType(l), CanonicalType(r), x, y);
    if CanonicalType(l) == CanonicalType(r) {
      NamesCompare(ln, rn);
      ValuesCompareByKey(l, r);
      CompareJoined(lk, ValueKey(l), rk, ValueKey(r));
      ApartJoined(lk, ValueKey(l), rk, ValueKey(r));
    }
    ApartJoined([CanonicalType(l)], x, [CanonicalType(r)], y);
  }

  /** BSONObj::woCompare has the sign of the lexicographic order of the documents' keys. */
  lemma {:induction false} DocsCompareByKey(l: Doc, r: Doc)
    ensures Apart(DocKey(l), DocKey(r)) && Sign(CompareDocs(l, r)) == Sign(Compare(DocKey(l), DocKey(r)))
    decreases l, 0
  {
    hide CompareElements, CanonicalType, ValueKey, TextKey;
    if l.Field? && r.Field? {
      hide ElementKey;
      ElementsCompareByKey(l.name, l.value, r.name, r.value, true);
      DocsCompareByKey(l.rest, r.rest);
      var x, y := ElementKey(l.name, l.value, true), ElementKey(r.name, r.value, true);
      CompareJoined(x, DocKey(l.rest), y, DocKey(r.rest));
      ApartJoined(x, DocKey(l.rest), y, DocKey(r.rest));
    } else if l.Field? {
      AboveEnd(l);
    } else if r.Field? {
      AboveEnd(r);
    }
  }

  lemma AboveEnd(d: Doc)
    requires d.Field?
    ensures DocKey(d) != [] && DocKey(d)[0] > END
  {
    hide ValueKey, TextKey;
    var e := ElementKey(d.name, d.value, true);
    assert e[0] == CanonicalType(d.value);
    assert DocKey(d) == e + DocKey(d.rest);
  }

  /** Comparing elements the other way round gives the opposite sign. */
  lemma ElementsMirror(an: cstring, a: Value, bn: cstring, b: Value, considerFieldName: bool)
    ensures Mirror(CompareElements(an, a, bn, b, considerFieldName), CompareElements(bn, b, an, a, considerFieldName))
  {
    hide CompareElements, ElementKey, Compare;
    ElementsCompareByKey(an, a, bn, b, considerFieldName);
    ElementsCompareByKey(bn, b, an, a, considerFieldName);
    CompareMirror(ElementKey(an, a, considerFieldName), ElementKey(bn, b, considerFieldName));
  }

  lemma ElementsChain(an: cstring, a: Value, bn: cstring, b: Value, cn: cstring, c: Value, considerFieldName: bool)
    ensures Chain(CompareElements(an, a, bn, b, considerFieldName), CompareElements(bn, b, cn, c, considerFieldName),
                  CompareElements(an, a, cn, c, considerFieldName))
  {
    hide CompareElements, ElementKey, Compare;
    ElementsCompareByKey(an, a, bn, b, considerFieldName);
    ElementsCompareByKey(bn, b, cn, c, considerFieldName);
    ElementsCompareByKey(an, a, cn, c, considerFieldName);
    CompareChain(ElementKey(an, a, considerFieldName), ElementKey(bn, b, considerFieldName),
                 ElementKey(cn, c, considerFieldName));
  }

  lemma ElementsReflexive(n: cstring, v: Value, considerFieldName: bool)
    ensures CompareElements(n, v, n, v, considerFieldName) == 0
  {
    ElementsMirror(n, v, n, v, considerFieldName);
  }

  /** woCompare is a total preorder on documents. */
  lemma CompareIsTotalPreorder(a: Doc, b: Doc, c: Doc)
    ensures CompareDocs(a, a) == 0
    ensures CompareDocs(a, b) <= 0 || CompareDocs(b, a) <= 0
    ensures CompareDocs(a, b) < 0 <==> CompareDocs(b, a) > 0
    ensures CompareDocs(a, b) <= 0 && CompareDocs(b, c) <= 0 ==> CompareDocs(a, c) <= 0
    ensures CompareDocs(a, b) < 0 && CompareDocs(b, c) <= 0 ==> CompareDocs(a, c) < 0
    ensures CompareDocs(a, b) == 0 ==> Sign(CompareDocs(a, c)) == Sign(CompareDocs(b, c))
  {
    hide CompareDocs, DocKey, Compare;
    DocsCompareByKey(a, a);
    DocsCompareByKey(a, b);
    DocsCompareByKey(b, a);
    DocsCompareByKey(b, c);
    DocsCompareByKey(a, c);
    CompareZero(DocKey(a), DocKey(a));
    CompareZero(DocKey(a), DocKey(b));
    CompareMirror(DocKey(a), DocKey(b));
    CompareChain(DocKey(a), DocKey(b), DocKey(c));
  }

  // Which kinds of values come before which.

  function Kind(v: Value): nat {
    match v
    case Object(_) => 5
    case Array(_) => 6
    case CodeWScope(_, _) => 15
    case Plain(s) =>
      match s
      case MinKey => 0
      case Undefined => 1
      case Null => 2
      case NumberDouble(_) => 3
      case NumberInt(_) => 3
      case NumberLong(_) => 3
      case String(_) => 4
      case Symbol(_) => 4
      case BinData(_, _) => 7
      case ObjectId(_) => 8
      case Bool(_) => 9
      case Date(_) => 10
      case Timestamp(_) => 11
      case RegEx(_, _) => 12
      case DBRef(_, _) => 13
      case Code(_) => 14
      case MaxKey => 16
  }

  /** The canonical types of the kinds, in their order. */
  const CANONICAL: seq<int> := [-1, 0, 5, 10, 15, 20, 25, 30, 35, 40, 45, 47, 50, 55, 60, 65, 127]

  /** A value of an earlier kind comes before any value of a later one, whatever their names. */
  lemma KindsInOrder(ln: cstring, l: Value, rn: cstring, r: Value, considerFieldName: bool)
    ensures Kind(l) < Kind(r) ==> CompareElements(ln, l, rn, r, considerFieldName) < 0
    ensures Kind(l) > Kind(r) ==> CompareElements(ln, l, rn, r, considerFieldName) > 0
    ensures Kind(l) < |CANONICAL| && CanonicalType(l) == CANONICAL[Kind(l)]
    ensures Kind(l) == Kind(r) <==> CanonicalType(l) == CanonicalType(r)
  {
    hide CompareValues, StrCmp;
  }

  /** The byte of a Bool is compared as a signed char. */
  lemma BoolsCompareSigned(a: byte, b: byte)
    ensures CompareScalars(Bool(a), Bool(b)) == (a + 128) % 256 - (b + 128) % 256
  {
  }
}
