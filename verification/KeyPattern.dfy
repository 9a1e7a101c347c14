/**
 Comparing documents under a key pattern: woCompare with a pattern document, woCompare with
 the bitmask of Ordering, woSortOrder and extractFields. A failed `verify` is None.
 */
module KeyPattern {
  import opened Wrappers
  import opened Bytes
  import opened Arithmetic
  import opened BsonTree
  import opened CompareNumbers
  import opened BsonOrder
  import opened Lexicographic
  import opened DottedPath

  /** e.number() < 0, where only the sign of a number matters. */
  predicate IsNegative(v: Value) {
    v.Plain? &&
    match v.s
    case NumberInt(n) => n < 0
    case NumberLong(n) => n < 0
    case NumberDouble(bits) => Lt(DecodeDouble(bits), FromLong(0))
    case _ => false
  }

  /** A number that is less than zero, by its value. */
  predicate BelowZero(v: Value) {
    IsNumber(v) && (NumberOf(v.s).NegInf? || (NumberOf(v.s).Finite? && NumberOf(v.s).units < 0))
  }

  lemma NegativeIsBelowZero(v: Value)
    ensures IsNegative(v) == BelowZero(v)
  {
    hide Unit;
    if IsNumber(v) && !v.s.NumberDouble? {
      var n := if v.s.NumberInt? then v.s.i else v.s.l;
      ScaleOrder(n, 0, Unit());
      assert 0 * Unit() == 0;
    }
    assert 0 * Unit() == 0;
  }

  function FieldAt(d: Doc, i: nat): (r: Doc)
    requires i < Length(d)
    ensures r.Field?
  {
    if i == 0 then d else FieldAt(d.rest, i - 1)
  }

  function Directed(x: int, descending: bool): int {
    if descending then -x else x
  }

  /** An iterator on a pattern: what is left of it, None once it is past the closing element. */
  type PatternPosition = Option<Doc>

  /** The loop of woCompare from some point on; `k` is the key iterator. */
  function CompareFrom(l: Doc, r: Doc, k: PatternPosition, ordered: bool, considerFieldName: bool): (x: Option<int>)
    decreases l
  {
    if ordered && k.None? then None
    else if l.Nil? then Some(if r.Nil? then 0 else -1)
    else if r.Nil? then Some(1)
    else
      var descending := ordered && k.value.Field? && IsNegative(k.value.value);
      var x := Directed(CompareElements(l.name, l.value, r.name, r.value, considerFieldName), descending);
      if x != 0 then Some(x)
      else CompareFrom(l.rest, r.rest, Advance(k), ordered, considerFieldName)
  }

  function Advance(k: PatternPosition): PatternPosition {
    if k.None? || k.value.Nil? then None else Some(k.value.rest)
  }

  function WoCompareSpec(l: Doc, r: Doc, idxKey: Doc, considerFieldName: bool): Option<int> {
    if l.Nil? then Some(if r.Nil? then 0 else -1)
    else if r.Nil? then Some(1)
    else CompareFrom(l, r, Some(idxKey), idxKey.Field?, considerFieldName)
  }

  /** BSONObj::woCompare with a key pattern: three iterators advancing together. */
  method WoCompare(l: Doc, r: Doc, idxKey: Doc, considerFieldName: bool) returns (x: Option<int>)
    ensures x == WoCompareSpec(l, r, idxKey, considerFieldName)
  {
    if l.Nil? {
      return Some(if r.Nil? then 0 else -1);
    }
    if r.Nil? {
      return Some(1);
    }
    var ordered := idxKey.Field?;
    var i, j, k: PatternPosition := l, r, Some(idxKey);
    while true
      invariant CompareFrom(i, j, k, ordered, considerFieldName) == WoCompareSpec(l, r, idxKey, considerFieldName)
      decreases i
    {
      var o := None;
      if ordered {
        if k.None? {
          return None;
        }
        o := k;
      }
      k := Advance(k);
      if i.Nil? {
        return Some(if j.Nil? then 0 else -1);
      }
      if j.Nil? {
        return Some(1);
      }
      var c := CompareElements(i.name, i.value, j.name, j.value, considerFieldName);
      if o.Some? && o.value.Field? && IsNegative(o.value.value) {
        c := -c;
      }
      if c != 0 {
        return Some(c);
      }
      i, j := i.rest, j.rest;
    }
  }

  /** Both documents have n fields more, and they compare equal pairwise. */
  predicate EqualFields(l: Doc, r: Doc, n: nat, considerFieldName: bool)
    decreases n
  {
    n == 0 ||
    (l.Field? && r.Field? && CompareElements(l.name, l.value, r.name, r.value, considerFieldName) == 0
     && EqualFields(l.rest, r.rest, n - 1, considerFieldName))
  }

  lemma {:induction false} CompareFromFails(l: Doc, r: Doc, k: Doc, considerFieldName: bool)
    ensures CompareFrom(l, r, Some(k), true, considerFieldName).None?
       <==> EqualFields(l, r, Length(k) + 1, considerFieldName)
    decreases k
  {
    hide CompareElements;
    if l.Field? && r.Field? {
      if k.Nil? {
        assert EqualFields(l.rest, r.rest, 0, considerFieldName);
      } else {
        CompareFromFails(l.rest, r.rest, k.rest, considerFieldName);
      }
    }
  }

  /** woCompare runs off its key pattern exactly when the documents agree on one field more than it has. */
  lemma WoCompareFailsExactly(l: Doc, r: Doc, idxKey: Doc, considerFieldName: bool)
    ensures WoCompareSpec(l, r, idxKey, considerFieldName).None?
       <==> idxKey.Field? && EqualFields(l, r, Length(idxKey) + 1, considerFieldName)
  {
    if idxKey.Field? {
      CompareFromFails(l, r, idxKey, considerFieldName);
    } else {
      UnorderedIs(l, r, Some(idxKey), considerFieldName);
    }
  }

  /** It does for a document of two fields and a pattern of one. */
  lemma WoCompareRunsOff(a: cstring, b: cstring)
    ensures var d := Field(a, Plain(Null), Field(b, Plain(Null), Nil));
      WoCompareSpec(d, d, Field(a, Plain(NumberInt(1)), Nil), true) == None
  {
    var d := Field(a, Plain(Null), Field(b, Plain(Null), Nil));
    ElementsReflexive(a, Plain(Null), true);
    ElementsReflexive(b, Plain(Null), true);
    assert EqualFields(d, d, 2, true);
    WoCompareFailsExactly(d, d, Field(a, Plain(NumberInt(1)), Nil), true);
  }

  lemma {:induction false} UnorderedIs(l: Doc, r: Doc, k: PatternPosition, considerFieldName: bool)
    ensures CompareFrom(l, r, k, false, considerFieldName).Some?
    ensures considerFieldName ==> CompareFrom(l, r, k, false, true) == Some(CompareDocs(l, r))
    decreases l
  {
    if l.Field? && r.Field? {
      UnorderedIs(l.rest, r.rest, Advance(k), considerFieldName);
    }
  }

  /** With no pattern it is the order of documents. */
  lemma WoCompareWithoutPattern(l: Doc, r: Doc)
    ensures WoCompareSpec(l, r, Nil, true) == Some(CompareDocs(l, r))
  {
    UnorderedIs(l, r, Some(Nil), true);
  }

  // Ordering: the pattern's signs as bits.

  const WORD: nat := 0x1_0000_0000

  /** bits & mask, for a mask of at most one bit. */
  predicate Descending(bits: nat, mask: nat) {
    mask != 0 && bits / mask % 2 == 1
  }

  /** The bits of the signs, the first field lowest. */
  function SignBits(k: Doc): nat {
    match k
    case Nil => 0
    case Field(_, v, rest) => (if IsNegative(v) then 1 else 0) + 2 * SignBits(rest)
  }

  lemma NoSigns()
    ensures SignBits(Nil) == 0
  {
  }

  lemma Pow2Below(n: nat)
    requires n <= 31
    ensures Pow2(n) <= 0x8000_0000
    ensures n == 0 ==> Pow2(n) == 1
  {
    hide Pow2;
    Pow2Sum(n, 31 - n);
    Pow2At31();
    ScaleBound(Pow2(n), Pow2(31 - n));
  }

  lemma Pow2At31()
    ensures Pow2(0) == 1 && Pow2(31) == 0x8000_0000
  {
    assert Pow2(8) == 256;
    assert Pow2(16) == 65536;
    assert Pow2(24) == 0x100_0000;
  }

  lemma SignBitsStep(k: Doc, n: nat)
    requires k.Field?
    ensures Pow2(n) * SignBits(k) == (if IsNegative(k.value) then Pow2(n) else 0) + Pow2(n + 1) * SignBits(k.rest)
  {
    hide IsNegative;
    var p, s := Pow2(n), SignBits(k.rest);
    assert Pow2(n + 1) == 2 * p;
    var bit := if IsNegative(k.value) then 1 else 0;
    assert p * (bit + 2 * s) == p * bit + 2 * p * s;
  }

  /** Bit i is set exactly when the i-th field holds a number below zero. */
  lemma {:induction false} SignBitsAt(k: Doc, i: nat)
    requires i < Length(k)
    ensures SignBits(k) / Pow2(i) % 2 == if BelowZero(FieldAt(k, i).value) then 1 else 0
  {
    hide IsNegative, BelowZero, Pow2;
    NegativeIsBelowZero(k.value);
    var bit := if IsNegative(k.value) then 1 else 0;
    if i == 0 {
      Pow2At31();
      assert SignBits(k) / 1 == bit + 2 * SignBits(k.rest);
    } else {
      SignBitsAt(k.rest, i - 1);
      Pow2Step(i - 1);
      HalfQuotient(bit, SignBits(k.rest), Pow2(i - 1));
    }
  }

  lemma HalfQuotient(bit: nat, s: nat, p: nat)
    requires bit < 2 && p > 0
    ensures (bit + 2 * s) / (2 * p) == s / p
  {
    var q, m := s / p, s % p;
    assert s == q * p + m;
    assert bit + 2 * s == q * (2 * p) + (bit + 2 * m);
    DivideUnique(bit + 2 * s, 2 * p, q, bit + 2 * m);
  }

  lemma {:induction false} SignBitsBounded(k: Doc)
    ensures SignBits(k) < Pow2(Length(k))
  {
    if k.Field? {
      SignBitsBounded(k.rest);
    }
  }

  /** The bits of a pattern: bit i for the sign of the i-th field, and no others. */
  ghost predicate SignsOf(bits: nat, k: Doc) {
    && bits < Pow2(Length(k))
    && forall i: nat :: i < Length(k) ==> (bits / Pow2(i) % 2 == 1 <==> BelowZero(FieldAt(k, i).value))
  }

  lemma SignBitsAreSigns(k: Doc)
    ensures SignsOf(SignBits(k), k)
  {
    hide BelowZero, Pow2, SignBits, FieldAt, Length;
    SignBitsBounded(k);
    forall i: nat | i < Length(k)
      ensures SignBits(k) / Pow2(i) % 2 == 1 <==> BelowZero(FieldAt(k, i).value)
    {
      SignBitsAt(k, i);
    }
  }

  /** Ordering::make, None when the pattern has more than 32 fields. */
  method MakeOrdering(obj: Doc) returns (bits: Option<nat>)
    ensures bits == if Length(obj) <= 32 then Some(SignBits(obj)) else None
    ensures bits.Some? ==> SignsOf(bits.value, obj)
  {
    SignBitsAreSigns(obj);
    hide SignsOf;
    hide IsNegative, Pow2, SignBits;
    var b, n, k := 0, 0, obj;
    assert Pow2(0) == 1 by { Pow2Below(0); }
    while true
      invariant n <= 32 && n + Length(k) == Length(obj)
      invariant b + Pow2(n) * SignBits(k) == SignBits(obj)
      decreases k
    {
      if k.Nil? {
        NoSigns();
        break;
      }
      if n > 31 {
        return None;
      }
      SignBitsStep(k, n);
      if IsNegative(k.value) {
        b := b + Pow2(n);
      }
      n, k := n + 1, k.rest;
    }
    bits := Some(b);
  }

  /** The loop of woCompare under an Ordering. */
  function CompareMaskedFrom(l: Doc, r: Doc, bits: nat, mask: nat, considerFieldName: bool): int
    decreases l
  {
    if l.Nil? then (if r.Nil? then 0 else -1)
    else if r.Nil? then 1
    else
      var x := Directed(CompareElements(l.name, l.value, r.name, r.value, considerFieldName), Descending(bits, mask));
      Then(x, CompareMaskedFrom(l.rest, r.rest, bits, 2 * mask % WORD, considerFieldName))
  }

  method WoCompareOrdered(l: Doc, r: Doc, bits: nat, considerFieldName: bool) returns (x: int)
    ensures x == CompareMaskedFrom(l, r, bits, 1, considerFieldName)
  {
    if l.Nil? {
      return if r.Nil? then 0 else -1;
    }
    if r.Nil? {
      return 1;
    }
    var i, j, mask: nat := l, r, 1;
    while true
      invariant CompareMaskedFrom(i, j, bits, mask, considerFieldName)
             == CompareMaskedFrom(l, r, bits, 1, considerFieldName)
      decreases i
    {
      if i.Nil? {
        return if j.Nil? then 0 else -1;
      }
      if j.Nil? {
        return 1;
      }
      x := CompareElements(i.name, i.value, j.name, j.value, considerFieldName);
      if Descending(bits, mask) {
        x := -x;
      }
      if x != 0 {
        return;
      }
      mask := 2 * mask % WORD;
      i, j := i.rest, j.rest;
    }
  }

  // extractFields and woSortOrder.

  function FieldOrNull(d: Doc, path: seq<byte>): Value {
    match GetFieldDotted(d, path)
    case Some(e) => e.value
    case None => Plain(Null)
  }

  function Extracted(d: Doc, pattern: Doc): Doc {
    match pattern
    case Nil => Nil
    case Field(name, _, rest) => Field(name, FieldOrNull(d, name), Extracted(d, rest))
  }

  /** extractFields with fillWithNull. */
  method ExtractFields(d: Doc, pattern: Doc) returns (r: Doc)
    ensures r == Extracted(d, pattern)
  {
    r := Nil;
    var i := pattern;
    while i.Field?
      invariant Append(r, Extracted(d, i)) == Extracted(d, pattern)
      decreases i
    {
      var x := GetFieldDotted(d, i.name);
      var v := if x.Some? then x.value.value else Plain(Null);
      AppendAssociative(r, Field(i.name, v, Nil), Extracted(d, i.rest));
      r := Append(r, Field(i.name, v, Nil));
      i := i.rest;
    }
  }

  /** woSortOrder from some field of the sort key on. */
  function SortFrom(l: Doc, r: Doc, key: Doc): int {
    match key
    case Nil => 0
    case Field(name, v, rest) =>
      Then(Directed(CompareElements([], FieldOrNull(l, name), [], FieldOrNull(r, name), false), IsNegative(v)),
           SortFrom(l, r, rest))
  }

  /** woSortOrder with dotted lookup; None for an empty sort key. */
  function WoSortOrderSpec(l: Doc, r: Doc, key: Doc): Option<int> {
    if l.Nil? then Some(if r.Nil? then 0 else -1)
    else if r.Nil? then Some(1)
    else if key.Nil? then None
    else Some(SortFrom(l, r, key))
  }

  method WoSortOrder(l: Doc, r: Doc, key: Doc) returns (x: Option<int>)
    ensures x == WoSortOrderSpec(l, r, key)
  {
    if l.Nil? {
      return Some(if r.Nil? then 0 else -1);
    }
    if r.Nil? {
      return Some(1);
    }
    if key.Nil? {
      return None;
    }
    var f := key;
    while f.Field?
      invariant SortFrom(l, r, f) == SortFrom(l, r, key)
      decreases f
    {
      var le, re := GetFieldDotted(l, f.name), GetFieldDotted(r, f.name);
      var lv := if le.Some? then le.value.value else Plain(Null);
      var rv := if re.Some? then re.value.value else Plain(Null);
      var c := CompareElements([], lv, [], rv, false);
      if IsNegative(f.value) {
        c := -c;
      }
      if c != 0 {
        return Some(c);
      }
      f := f.rest;
    }
    x := Some(0);
  }

  // What decides: the first field that differs, the other way round for a key below zero.

  function KeyCompare(l: Doc, r: Doc, key: Doc, i: nat): int
    requires i < Length(key)
  {
    CompareElements([], FieldOrNull(l, FieldAt(key, i).name), [], FieldOrNull(r, FieldAt(key, i).name), false)
  }

  lemma {:induction false} SortFromDecided(l: Doc, r: Doc, key: Doc, i: nat)
    requires i < Length(key) && KeyCompare(l, r, key, i) != 0
    requires forall j: nat :: j < i ==> KeyCompare(l, r, key, j) == 0
    ensures Sign(SortFrom(l, r, key))
         == if BelowZero(FieldAt(key, i).value) then -Sign(KeyCompare(l, r, key, i)) else Sign(KeyCompare(l, r, key, i))
    decreases i
  {
    NegativeIsBelowZero(key.value);
    hide CompareElements, FieldOrNull, IsNegative, BelowZero;
    if i > 0 {
      assert KeyCompare(l, r, key, 0) == 0;
      forall j: nat | j < i ensures KeyCompare(l, r, key.rest, j) == KeyCompare(l, r, key, j + 1) {
      }
      SortFromDecided(l, r, key.rest, i - 1);
    }
  }

  lemma {:induction false} SortFromEven(l: Doc, r: Doc, key: Doc)
    requires forall j: nat :: j < Length(key) ==> KeyCompare(l, r, key, j) == 0
    ensures SortFrom(l, r, key) == 0
    decreases key
  {
    hide CompareElements, FieldOrNull, IsNegative;
    if key.Field? {
      assert KeyCompare(l, r, key, 0) == 0;
      forall j: nat | j < Length(key.rest) ensures KeyCompare(l, r, key.rest, j) == 0 {
        assert KeyCompare(l, r, key, j + 1) == 0;
      }
      SortFromEven(l, r, key.rest);
    }
  }

  /** woSortOrder is decided by the first field of the key on which the documents differ. */
  lemma SortDecided(l: Doc, r: Doc, key: Doc, i: nat)
    requires l.Field? && r.Field? && key.Field? && i <= Length(key)
    requires forall j: nat :: j < i ==> KeyCompare(l, r, key, j) == 0
    ensures i == Length(key) ==> WoSortOrderSpec(l, r, key) == Some(0)
    ensures i < Length(key) && KeyCompare(l, r, key, i) != 0 ==>
      var x := WoSortOrderSpec(l, r, key);
      x.Some? && Sign(x.value)
        == if BelowZero(FieldAt(key, i).value) then -Sign(KeyCompare(l, r, key, i)) else Sign(KeyCompare(l, r, key, i))
  {
    hide SortFrom, KeyCompare, BelowZero;
    if i == Length(key) {
      SortFromEven(l, r, key);
    } else if KeyCompare(l, r, key, i) != 0 {
      SortFromDecided(l, r, key, i);
    }
  }

  function PairCompare(l: Doc, r: Doc, i: nat, considerFieldName: bool): int
    requires i < Length(l) && i < Length(r)
  {
    var a, b := FieldAt(l, i), FieldAt(r, i);
    CompareElements(a.name, a.value, b.name, b.value, considerFieldName)
  }

  lemma {:induction false} CompareFromDecided(l: Doc, r: Doc, k: Doc, i: nat, considerFieldName: bool)
    requires i < Length(l) && i < Length(r) && i <= Length(k) && PairCompare(l, r, i, considerFieldName) != 0
    requires forall j: nat :: j < i ==> PairCompare(l, r, j, considerFieldName) == 0
    ensures var x, c := CompareFrom(l, r, Some(k), true, considerFieldName), PairCompare(l, r, i, considerFieldName);
      x.Some? && Sign(x.value) == if i < Length(k) && BelowZero(FieldAt(k, i).value) then -Sign(c) else Sign(c)
    decreases i
  {
    if k.Field? {
      NegativeIsBelowZero(k.value);
    }
    hide CompareElements, IsNegative, BelowZero;
    if i > 0 {
      assert PairCompare(l, r, 0, considerFieldName) == 0;
      forall j: nat | j < i
        ensures PairCompare(l.rest, r.rest, j, considerFieldName) == PairCompare(l, r, j + 1, considerFieldName)
      {
      }
      CompareFromDecided(l.rest, r.rest, k.rest, i - 1, considerFieldName);
    }
  }

  /** woCompare under a pattern is decided by the first pair of fields that differ, as the pattern directs. */
  lemma PatternDecided(l: Doc, r: Doc, idxKey: Doc, i: nat, considerFieldName: bool)
    requires idxKey.Field? && i < Length(l) && i < Length(r) && i <= Length(idxKey)
    requires PairCompare(l, r, i, considerFieldName) != 0
    requires forall j: nat :: j < i ==> PairCompare(l, r, j, considerFieldName) == 0
    ensures var x, c := WoCompareSpec(l, r, idxKey, considerFieldName), PairCompare(l, r, i, considerFieldName);
      && x.Some?
      && Sign(x.value) == if i < Length(idxKey) && BelowZero(FieldAt(idxKey, i).value) then -Sign(c) else Sign(c)
  {
    hide CompareFrom, PairCompare, BelowZero;
    CompareFromDecided(l, r, idxKey, i, considerFieldName);
  }

  /** The mask of woCompare for the n-th pair of fields: one bit, and none from the 33rd on. */
  lemma {:induction false} MaskedDecidedFrom(l: Doc, r: Doc, bits: nat, n: nat, i: nat, considerFieldName: bool)
    requires i < Length(l) && i < Length(r) && PairCompare(l, r, i, considerFieldName) != 0
    requires forall j: nat :: j < i ==> PairCompare(l, r, j, considerFieldName) == 0
    ensures var mask := if n < 32 then Pow2(n) else 0; var c := PairCompare(l, r, i, considerFieldName);
      Sign(CompareMaskedFrom(l, r, bits, mask, considerFieldName))
      == if n + i < 32 && bits / Pow2(n + i) % 2 == 1 then -Sign(c) else Sign(c)
    decreases i
  {
    hide CompareElements, Pow2;
    if n < 32 {
      NextMask(n);
    }
    if i > 0 {
      assert PairCompare(l, r, 0, considerFieldName) == 0;
      forall j: nat | j < i
        ensures PairCompare(l.rest, r.rest, j, considerFieldName) == PairCompare(l, r, j + 1, considerFieldName)
      {
      }
      MaskedDecidedFrom(l.rest, r.rest, bits, n + 1, i - 1, considerFieldName);
      assert n + 1 + (i - 1) == n + i;
    }
  }

  lemma NextMask(n: nat)
    requires n < 32
    ensures 2 * Pow2(n) % WORD == if n + 1 < 32 then Pow2(n + 1) else 0
  {
    hide Pow2;
    Pow2Step(n);
    Pow2At31();
    if n + 1 < 32 {
      Pow2Below(n + 1);
    }
  }

  /** woCompare under an Ordering is decided by the first pair of fields that differ, as its bit directs. */
  lemma MaskedDecided(l: Doc, r: Doc, bits: nat, i: nat, considerFieldName: bool)
    requires i < Length(l) && i < Length(r) && PairCompare(l, r, i, considerFieldName) != 0
    requires forall j: nat :: j < i ==> PairCompare(l, r, j, considerFieldName) == 0
    ensures var c := PairCompare(l, r, i, considerFieldName);
      Sign(CompareMaskedFrom(l, r, bits, 1, considerFieldName))
      == if i < 32 && bits / Pow2(i) % 2 == 1 then -Sign(c) else Sign(c)
  {
    hide Pow2, CompareMaskedFrom, PairCompare;
    Pow2At31();
    MaskedDecidedFrom(l, r, bits, 0, i, considerFieldName);
  }

  /** An ascending and a descending key, on the numbers one and two. */
  lemma SortExamples(a: cstring)
    ensures var one, two := Field(a, Plain(NumberInt(1)), Nil), Field(a, Plain(NumberInt(2)), Nil);
      var up, down := Field(a, Plain(NumberInt(1)), Nil), Field(a, Plain(NumberInt(-1)), Nil);
      WoSortOrderSpec(one, two, up) == Some(-1) && WoSortOrderSpec(one, two, down) == Some(1)
  {
  }

  // The three agree.

  lemma SameNameSameComparison(n: cstring, a: Value, b: Value)
    ensures CompareElements(n, a, n, b, true) == CompareElements([], a, [], b, false)
  {
    NamesCompare(n, n);
    CompareZero(n, n);
  }

  lemma {:induction false} SortIsPatternCompare(l: Doc, r: Doc, key: Doc)
    ensures CompareFrom(Extracted(l, key), Extracted(r, key), Some(key), true, true) == Some(SortFrom(l, r, key))
    decreases key
  {
    hide CompareElements, FieldOrNull, IsNegative;
    if key.Field? {
      SameNameSameComparison(key.name, FieldOrNull(l, key.name), FieldOrNull(r, key.name));
      SortIsPatternCompare(l, r, key.rest);
    }
  }

  lemma BitOfSigns(k: Doc, low: nat, n: nat)
    requires k.Field? && low < Pow2(n)
    ensures Descending(low + Pow2(n) * SignBits(k), Pow2(n)) == IsNegative(k.value)
  {
    hide IsNegative, Pow2;
    var p, s := Pow2(n), SignBits(k);
    DivideShifted(low, p, s);
  }

  lemma Pow2Step(n: nat)
    ensures Pow2(n + 1) == 2 * Pow2(n)
  {
  }

  lemma {:induction false} SortIsMaskedCompare(l: Doc, r: Doc, key: Doc, bits: nat, low: nat, n: nat)
    requires n + Length(key) <= 32 && low < Pow2(n) && bits == low + Pow2(n) * SignBits(key)
    ensures CompareMaskedFrom(Extracted(l, key), Extracted(r, key), bits, Pow2(n) % WORD, true) == SortFrom(l, r, key)
    decreases key
  {
    hide CompareElements, FieldOrNull, IsNegative, Pow2, SignBits, Descending;
    if key.Field? {
      SameNameSameComparison(key.name, FieldOrNull(l, key.name), FieldOrNull(r, key.name));
      BitOfSigns(key, low, n);
      Pow2Below(n);
      SignBitsStep(key, n);
      assert Pow2(n + 1) == 2 * Pow2(n) by { Pow2Step(n); }
      var bit := if IsNegative(key.value) then Pow2(n) else 0;
      SortIsMaskedCompare(l, r, key.rest, bits, low + bit, n + 1);
    }
  }

  /**
   For documents that are not empty and a pattern that is not either, sorting by dotted fields and
   comparing the extracted fields under the pattern give one result; comparing them under its
   Ordering gives it too, where there is an Ordering.
   */
  lemma ThreeComparisonsAgree(l: Doc, r: Doc, key: Doc)
    requires l.Field? && r.Field? && key.Field?
    ensures var a, b := Extracted(l, key), Extracted(r, key);
      && WoSortOrderSpec(l, r, key) == WoCompareSpec(a, b, key, true)
      && (Length(key) <= 32 ==> WoSortOrderSpec(l, r, key) == Some(CompareMaskedFrom(a, b, SignBits(key), 1, true)))
  {
    Pow2At31();
    SortIsPatternCompare(l, r, key);
    if Length(key) <= 32 {
      SortIsMaskedCompare(l, r, key, SignBits(key), 0, 0);
    }
  }

  /** For an empty document they need not: woSortOrder puts it first, extraction makes it all nulls. */
  lemma EmptyDocumentsDiffer(name: cstring)
    ensures var l, r, key := Nil, Field(name, Plain(Null), Nil), Field(name, Plain(NumberInt(1)), Nil);
      && WoSortOrderSpec(l, r, key) == Some(-1)
      && WoCompareSpec(Extracted(l, key), Extracted(r, key), key, true) == Some(0)
  {
    var l, r, key := Nil, Field(name, Plain(Null), Nil), Field(name, Plain(NumberInt(1)), Nil);
    assert GetField(r, name) == Some(Found(name, Plain(Null)));
    assert FieldOrNull(r, name) == Plain(Null);
    NothingInEmpty(name);
    SortIsPatternCompare(l, r, key);
    assert SortFrom(l, r, key.rest) == 0;
  }

  lemma NothingInEmpty(path: seq<byte>)
    ensures GetFieldDotted(Nil, path) == None
  {
  }

  // BSONObj::equal

  /** The loop of equal; `r` is None once its iterator is past the closing element. */
  function EqualFrom(l: Doc, r: PatternPosition): Option<bool>
    decreases l
  {
    if r.None? then None
    else if l.Nil? then Some(r.value.Nil?)
    else if r.value.Nil? then
      // the closing element has the canonical type of Undefined and no name
      if CanonicalType(l.value) == 0 && l.name == [] then EqualFrom(l.rest, None) else Some(false)
    else if CompareElements(l.name, l.value, r.value.name, r.value.value, true) == 0 then
      EqualFrom(l.rest, Some(r.value.rest))
    else Some(false)
  }

  method EqualDocs(l: Doc, r: Doc) returns (x: Option<bool>)
    ensures x == EqualFrom(l, Some(r))
  {
    var i, j: PatternPosition := l, Some(r);
    while true
      invariant EqualFrom(i, j) == EqualFrom(l, Some(r))
      decreases i
    {
      if j.None? {
        return None;
      }
      if i.Nil? {
        return Some(j.value.Nil?);
      }
      var same := if j.value.Nil? then CanonicalType(i.value) == 0 && i.name == []
                  else CompareElements(i.name, i.value, j.value.name, j.value.value, true) == 0;
      if !same {
        return Some(false);
      }
      i, j := i.rest, Advance(j);
    }
  }

  function Drop(d: Doc, n: nat): Doc {
    if n == 0 || d.Nil? then d else Drop(d.rest, n - 1)
  }

  /**
   equal runs off the end exactly when the left document goes on, after all that equals the right
   one, with an unnamed Undefined; otherwise it says whether the documents compare equal.
   */
  lemma {:induction false} EqualExactly(l: Doc, r: Doc)
    ensures EqualFrom(l, Some(r)).None?
       <==> EqualFields(l, r, Length(r), true)
            && var rest := Drop(l, Length(r)); rest.Field? && rest.name == [] && rest.value == Plain(Undefined)
    ensures EqualFrom(l, Some(r)).Some? ==> EqualFrom(l, Some(r)).value == (CompareDocs(l, r) == 0)
    decreases r
  {
    hide CompareElements;
    if l.Field? && r.Field? {
      EqualExactly(l.rest, r.rest);
    } else if l.Field? {
      OnlyUndefined(l.value);
    }
  }

  /** It does for a lone unnamed Undefined and the empty document. */
  lemma EqualRunsOff()
    ensures EqualFrom(Field([], Plain(Undefined), Nil), Some(Nil)) == None
  {
  }

  lemma OnlyUndefined(v: Value)
    ensures CanonicalType(v) == 0 <==> v == Plain(Undefined)
  {
  }
}
