/** Arrays: decimal index names written by BSONArrayBuilder and read back by BSONElement::Array. */
module ArrayIndex {
  import opened Wrappers
  import opened Bytes
  import opened BsonTree
  import opened ParseNumber
  import opened BsonBuild
  import opened BsonIterate

  const UNSIGNED := Limits(0, 0xffff_ffff)
  const ARRAY_LIMIT: nat := 1000000

  /** BSONObjBuilder::numStr */
  function NumStr(i: nat): (s: cstring)
    ensures s != [] && forall j :: 0 <= j < |s| ==> 48 <= s[j] <= 57
  {
    if i < 10 then [48 + i] else NumStr(i / 10) + [48 + i % 10]
  }

  lemma {:induction false} NumStrValue(i: nat)
    ensures DigitsValue(NumStr(i), 10) == i
    ensures i > 0 ==> NumStr(i)[0] != ZERO
    ensures i < 10 ==> NumStr(i) == [48 + i]
  {
    var s := NumStr(i);
    if i < 10 {
      assert s[..0] == [];
    } else {
      NumStrValue(i / 10);
      assert s[..|s| - 1] == NumStr(i / 10);
    }
  }

  /** The numeral that an index name is, read with base 0: never octal, never hexadecimal. */
  function IndexNumeral(i: nat): Numeral {
    Numeral(NoSign, NoPrefix, if i == 0 then 8 else 10, NumStr(i))
  }

  lemma NumStrFits(i: nat)
    requires i <= 0xffff_ffff
    ensures Fits(NumStr(i), 0, UNSIGNED, IndexNumeral(i)) && IndexNumeral(i).Meaning() == i
  {
    hide NumStr, DigitsValue;
    NumStrValue(i);
    var n := IndexNumeral(i);
    assert n.Spelling() == NumStr(i);
    if i == 0 {
      LoneZero(8, 10);
    }
  }

  /** The index a field name is, if it parses as an unsigned number. */
  ghost function IndexOf(name: cstring): (r: Option<int>)
    ensures r.Some? <==> exists n :: Fits(name, 0, UNSIGNED, n)
  {
    if exists n :: Fits(name, 0, UNSIGNED, n) then
      var n :| Fits(name, 0, UNSIGNED, n);
      Some(n.Meaning())
    else None
  }

  type Slots = seq<Option<Value>>

  /** v[u] = e, after v.resize(u + 1) where it is too short. */
  function Put(v: Slots, u: nat, e: Value): (r: Slots)
    ensures |r| == if u < |v| then |v| else u + 1
    ensures r[u] == Some(e)
    ensures forall j :: 0 <= j < |v| && j != u ==> r[j] == v[j]
    ensures forall j :: |v| <= j < u ==> r[j] == None
  {
    var w := if u >= |v| then v + seq(u + 1 - |v|, _ => None) else v;
    w[u := Some(e)]
  }

  /** BSONElement::Array from some field on; None where the index is too large to allow. */
  ghost function ReadFrom(d: Doc, v: Slots): Option<Slots>
    decreases d
  {
    match d
    case Nil => Some(v)
    case Field(name, e, rest) =>
      match IndexOf(name)
      case None => ReadFrom(rest, v)
      case Some(u) => if 0 <= u < ARRAY_LIMIT then ReadFrom(rest, Put(v, u, e)) else None
  }

  /** A gap reads as missing elements, a repeated index as its last value, a name that is no index as nothing. */
  lemma GapsAndRepeats(x: Value, y: Value, z: Value)
    ensures ReadFrom(Field([48], x, Field([50], y, Nil)), []) == Some([Some(x), None, Some(y)])
    ensures ReadFrom(Field([48], x, Field([48], y, Nil)), []) == Some([Some(y)])
    ensures ReadFrom(Field([97], x, Field([48], y, Nil)), []) == Some([Some(y)])
  {
    hide IndexOf, ReadFrom, Put, NumStr;
    NumStrValue(0);
    NumStrValue(2);
    assert Put([], 0, x) == [Some(x)] && Put([], 0, y) == [Some(y)];
    assert Put([Some(x)], 2, y) == [Some(x), None, Some(y)];
    assert Put([Some(x)], 0, y) == [Some(y)];
    ReadIndex(0, x, Field([50], y, Nil), []);
    ReadIndex(2, y, Nil, [Some(x)]);
    ReadIndex(0, x, Field([48], y, Nil), []);
    ReadIndex(0, y, Nil, [Some(x)]);
    ReadIndex(0, y, Nil, []);
    ReadLetter(x, Field([48], y, Nil), []);
    ReadEnd([Some(x), None, Some(y)]);
    ReadEnd([Some(y)]);
  }

  lemma ReadIndex(i: nat, e: Value, rest: Doc, v: Slots)
    requires i < ARRAY_LIMIT
    ensures ReadFrom(Field(NumStr(i), e, rest), v) == ReadFrom(rest, Put(v, i, e))
  {
    hide IndexOf, NumStr, Put;
    IndexOfNumStr(i);
  }

  lemma ReadLetter(e: Value, rest: Doc, v: Slots)
    ensures ReadFrom(Field([97], e, rest), v) == ReadFrom(rest, v)
  {
    hide IndexOf, Put;
    LetterIsNoIndex();
  }

  lemma ReadEnd(v: Slots)
    ensures ReadFrom(Nil, v) == Some(v)
  {
  }

  lemma LetterIsNoIndex()
    ensures IndexOf([97]) == None
  {
    hide Fits, DigitsValue;
    FitsByDigits([97], 0, UNSIGNED);
    assert !AreDigits([97], 10);
  }

  /** A number of more than 32 unsigned bits is no index, and its element is passed over. */
  lemma BeyondUnsigned(i: nat, e: Value, rest: Doc, v: Slots)
    requires i > 0xffff_ffff
    ensures IndexOf(NumStr(i)) == None && ReadFrom(Field(NumStr(i), e, rest), v) == ReadFrom(rest, v)
  {
    hide Fits, NumStr, DigitsValue, AreDigits, Numeral.Meaning, Put;
    NumStrValue(i);
    FitsByDigits(NumStr(i), 0, UNSIGNED);
  }

  /** An index is let through exactly below a million. */
  lemma IndexLimit(i: nat, v: Value)
    requires i <= 0xffff_ffff
    ensures ReadFrom(Field(NumStr(i), v, Nil), []).Some? <==> i < 1000000
  {
    hide IndexOf, NumStr;
    IndexOfNumStr(i);
  }

  method ReadArray(d: Doc) returns (r: Option<Slots>)
    ensures r == ReadFrom(d, [])
  {
    hide Fits, IndexOf;
    var v: Slots := [];
    var i := d;
    while i.Field?
      invariant ReadFrom(i, v) == ReadFrom(d, [])
      decreases i
    {
      var u := ParseNumberFromString(i.name, 0, UNSIGNED);
      ParsedIsIndex(i.name, u);
      if u.Parsed? {
        if !(0 <= u.value < ARRAY_LIMIT) {
          return None;
        }
        v := Put(v, u.value, i.value);
      }
      i := i.rest;
    }
    r := Some(v);
  }

  lemma ParsedIsIndex(name: cstring, r: ParseResult)
    requires r.Parsed? ==> exists n :: Fits(name, 0, UNSIGNED, n)
    requires forall n :: Fits(name, 0, UNSIGNED, n) ==> r == Parsed(n.Meaning())
    ensures IndexOf(name) == if r.Parsed? then Some(r.value) else None
  {
  }

  /** The fields that BSONArrayBuilder writes, numbered from i on. */
  function ArrayDoc(i: nat, values: seq<Value>): Doc
    decreases |values|
  {
    if values == [] then Nil else Field(NumStr(i), values[0], ArrayDoc(i + 1, values[1..]))
  }

  function AllSome(values: seq<Value>): (r: Slots)
    ensures |r| == |values| && forall i :: 0 <= i < |values| ==> r[i] == Some(values[i])
  {
    seq(|values|, i requires 0 <= i < |values| => Some(values[i]))
  }

  lemma IndexOfNumStr(i: nat)
    requires i <= 0xffff_ffff
    ensures IndexOf(NumStr(i)) == Some(i)
  {
    hide Fits, NumStr, Numeral.Meaning, ExtractSign, ExtractBase, DigitsValue, AreDigits;
    NumStrFits(i);
    FitsByDigits(NumStr(i), 0, UNSIGNED);
  }

  lemma {:induction false} ArrayReadsBack(done: seq<Value>, left: seq<Value>)
    requires |done| + |left| <= ARRAY_LIMIT
    ensures ReadFrom(ArrayDoc(|done|, left), AllSome(done)) == Some(AllSome(done + left))
    decreases |left|
  {
    hide IndexOf, NumStr;
    if left == [] {
      assert done + left == done;
    } else {
      IndexOfNumStr(|done|);
      assert Put(AllSome(done), |done|, left[0]) == AllSome(done + [left[0]]);
      ArrayReadsBack(done + [left[0]], left[1..]);
      assert done + [left[0]] + left[1..] == done + left;
    }
  }

  class BsonArrayBuilder {
    const b: BsonObjBuilder
    var i: nat

    constructor (buf: BufBuilder)
      modifies buf
      ensures fresh(b) && b.b == buf && i == 0 && !b.doneCalled && b.offset == |old(buf.data)|
      ensures |buf.data| == b.offset + 4
    {
      b := new BsonObjBuilder(buf);
      i := 0;
    }

    method Append(v: Value)
      modifies this, b.b
      ensures i == old(i) + 1 && b.b.data == old(b.b.data) + ElementBytes(NumStr(old(i)), v)
    {
      var name := NumStr(i);
      i := i + 1;
      var ok := b.Append(name, v);
      RawElementIs(name, v);
    }
  }

  lemma {:induction false} ArrayDocExtends(i: nat, values: seq<Value>, v: Value)
    ensures ArrayDoc(i, values + [v]) == Append(ArrayDoc(i, values), Field(NumStr(i + |values|), v, Nil))
    decreases |values|
  {
    if values == [] {
      assert [v][1..] == [] && values + [v] == [v];
    } else {
      assert (values + [v])[1..] == values[1..] + [v];
      ArrayDocExtends(i + 1, values[1..], v);
    }
  }

  /** One more value makes the array longer by its element. */
  lemma ArrayGrows(values: seq<Value>, v: Value)
    ensures FieldsBytes(ArrayDoc(0, values + [v]))
         == FieldsBytes(ArrayDoc(0, values)) + ElementBytes(NumStr(|values|), v)
  {
    hide FieldsBytes, ElementBytes, NumStr, ArrayDoc, Append;
    ArrayDocExtends(0, values, v);
    FieldsBytesOfAppend(ArrayDoc(0, values), Field(NumStr(|values|), v, Nil));
    SingleField(NumStr(|values|), v);
  }

  function Pow10(k: nat): nat {
    if k == 0 then 1 else 10 * Pow10(k - 1)
  }

  lemma {:induction false} NumStrLength(i: nat, k: nat)
    requires k > 0 && i < Pow10(k)
    ensures |NumStr(i)| <= k
  {
    if i >= 10 {
      NumStrLength(i / 10, k - 1);
    }
  }

  /** Written by the array builder, read from its bytes, and taken apart again: the same values. */
  method ArrayRoundTrip(values: seq<Value>) returns (r: Option<Slots>)
    requires |values| <= ARRAY_LIMIT && |DocBytes(ArrayDoc(0, values))| < INT32_LIMIT
    ensures r == Some(AllSome(values))
  {
    hide DocBytes, FieldsBytes, ElementBytes, Finished, ReadFrom;
    var buf := new BufBuilder();
    var arr := new BsonArrayBuilder(buf);
    assert buf.data[4..] == [];
    EmptyFields();
    for k := 0 to |values|
      invariant arr.i == k && |buf.data| >= 4 && !arr.b.doneCalled
      invariant buf.data[4..] == FieldsBytes(ArrayDoc(0, values[..k]))
    {
      assert values[..k + 1] == values[..k] + [values[k]];
      ArrayGrows(values[..k], values[k]);
      ghost var before := buf.data;
      arr.Append(values[k]);
      assert buf.data[4..] == before[4..] + ElementBytes(NumStr(k), values[k]);
    }
    assert values[..|values|] == values;
    FinishedIsDoc(buf.data, 0, ArrayDoc(0, values));
    arr.b.Done();
    assert buf.data == DocBytes(ArrayDoc(0, values));
    assert buf.data[0..|buf.data|] == buf.data;
    var tree := ReadTree(buf.data, 0, false, ArrayDoc(0, values));
    r := ReadArray(tree);
    ArrayReadsBack([], values);
    assert [] + values == values && AllSome([]) == [];
  }
}
