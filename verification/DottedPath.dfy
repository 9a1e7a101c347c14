/** Finding fields by name and by dotted path, in one element and in all of them. */
module DottedPath {
  import opened Wrappers
  import opened Bytes
  import opened BsonTree

  const DOT: byte := 46

  datatype Found = Found(name: cstring, value: Value)

  function GetField(d: Doc, name: seq<byte>): (r: Option<Found>)
    ensures r.Some? ==> r.value.name == name
  {
    match d
    case Nil => None
    case Field(n, v, rest) => if n == name then Some(Found(n, v)) else GetField(rest, name)
  }

  /** BSONObj::getField, an iterator moving over the fields. */
  method FindField(d: Doc, name: seq<byte>) returns (r: Option<Found>)
    ensures r == GetField(d, name)
  {
    var i := d;
    while i.Field?
      invariant GetField(i, name) == GetField(d, name)
      decreases i
    {
      if i.name == name {
        return Some(Found(i.name, i.value));
      }
      i := i.rest;
    }
    r := None;
  }

  /** The first field of a name is found, and only a name that is there. */
  lemma {:induction false} FirstIsFound(before: Doc, name: cstring, v: Value, rest: Doc)
    requires !HasName(before, name)
    ensures GetField(Append(before, Field(name, v, rest)), name) == Some(Found(name, v))
    ensures GetField(before, name) == None
  {
    if before.Field? {
      FirstIsFound(before.rest, name, v, rest);
    }
  }

  /** Index of the first dot. */
  function FindDot(s: seq<byte>): (r: Option<nat>)
    ensures r.Some? ==> r.value < |s| && s[r.value] == DOT && DOT !in s[..r.value]
  {
    if s == [] then None
    else if s[0] == DOT then Some(0)
    else
      match FindDot(s[1..])
      case None => None
      case Some(i) =>
        assert s[..i + 1] == [s[0]] + s[1..][..i];
        Some(i + 1)
  }

  /** The object or array of that name, or the empty document. */
  function GetObjectField(d: Doc, name: seq<byte>): Doc {
    match GetField(d, name)
    case Some(Found(_, Object(e))) => e
    case Some(Found(_, Array(e))) => e
    case _ => Nil
  }

  function GetFieldDotted(d: Doc, path: seq<byte>): Option<Found>
    decreases |path|
  {
    var e := GetField(d, path);
    if e.Some? then e
    else
      match FindDot(path)
      case None => None
      case Some(i) =>
        var sub := GetObjectField(d, path[..i]);
        if sub.Nil? then None else GetFieldDotted(sub, path[i + 1..])
  }

  predicate IsDigit(c: byte) { 48 <= c <= 57 }

  /** The characters that matter in a path. */
  lemma PathCharacters(c: byte)
    ensures c == DOT <==> c as char == '.'
    ensures IsDigit(c) <==> c as char in "0123456789"
  {
  }

  /** How many digits stand at the front. */
  function DigitRun(s: seq<byte>): (n: nat)
    ensures n <= |s|
    ensures n < |s| ==> !IsDigit(s[n])
  {
    if s != [] && IsDigit(s[0]) then 1 + DigitRun(s[1..]) else 0
  }

  /** The path goes on with an array index. */
  predicate StartsWithIndex(s: seq<byte>) {
    var n := DigitRun(s);
    n > 0 && (n == |s| || s[n] == DOT)
  }

  function AllFields(d: Doc): seq<Found> {
    match d
    case Nil => []
    case Field(n, v, rest) => [Found(n, v)] + AllFields(rest)
  }

  /** _getFieldsDotted: every element the path reaches, arrays spread out. */
  function GetFieldsDotted(d: Doc, path: seq<byte>, expandLastArray: bool): seq<Found>
    decreases |path|, 1
  {
    match GetField(d, path)
    case Some(e) =>
      if e.value.Array? && expandLastArray then AllFields(e.value.doc) else [e]
    case None =>
      match FindDot(path)
      case None => []
      case Some(i) =>
        var next := path[i + 1..];
        match GetField(d, path[..i])
        case Some(Found(_, Object(e))) => GetFieldsDotted(e, next, expandLastArray)
        case Some(Found(_, Array(e))) =>
          if StartsWithIndex(next) then GetFieldsDotted(e, next, expandLastArray)
          else FromEach(e, next, expandLastArray)
        case _ => []
  }

  /** The same path tried in every object and array of d. */
  function FromEach(d: Doc, path: seq<byte>, expandLastArray: bool): seq<Found>
    decreases |path|, 2, d
  {
    match d
    case Nil => []
    case Field(_, v, rest) =>
      (if v.Object? || v.Array? then GetFieldsDotted(v.doc, path, expandLastArray) else [])
      + FromEach(rest, path, expandLastArray)
  }

  /** _getFieldsDotted as it runs, adding to what was collected before. */
  method CollectFieldsDotted(d: Doc, path: seq<byte>, expandLastArray: bool, ret: seq<Found>) returns (all: seq<Found>)
    ensures all == ret + GetFieldsDotted(d, path, expandLastArray)
    decreases |path|, 0
  {
    hide FromEach, StartsWithIndex, FindDot;
    all := ret;
    var e := FindField(d, path);
    if e.Some? {
      all := all + if e.value.value.Array? && expandLastArray then AllFields(e.value.value.doc) else [e.value];
      return;
    }
    var dot := FindDot(path);
    if dot.None? {
      return;
    }
    var next := path[dot.value + 1..];
    e := FindField(d, path[..dot.value]);
    if e.Some? && e.value.value.Object? {
      all := CollectFieldsDotted(e.value.value.doc, next, expandLastArray, all);
    } else if e.Some? && e.value.value.Array? {
      if StartsWithIndex(next) {
        all := CollectFieldsDotted(e.value.value.doc, next, expandLastArray, all);
      } else {
        all := CollectFromEach(e.value.value.doc, next, expandLastArray, all);
      }
    }
  }

  method CollectFromEach(d: Doc, path: seq<byte>, expandLastArray: bool, ret: seq<Found>) returns (all: seq<Found>)
    ensures all == ret + FromEach(d, path, expandLastArray)
    decreases |path|, 1
  {
    hide GetFieldsDotted;
    all := ret;
    var i := d;
    while i.Field?
      invariant all + FromEach(i, path, expandLastArray) == ret + FromEach(d, path, expandLastArray)
      decreases i
    {
      if i.value.Object? || i.value.Array? {
        all := CollectFieldsDotted(i.value.doc, path, expandLastArray, all);
      }
      i := i.rest;
    }
  }

  // A path is its names one after the other.

  predicate NoDots(d: Doc) {
    match d
    case Nil => true
    case Field(n, v, rest) => DOT !in n && NoDots(rest) && (v.Object? || v.Array? ==> NoDots(v.doc))
  }

  function Joined(names: seq<seq<byte>>): seq<byte>
    requires names != []
  {
    if |names| == 1 then names[0] else names[0] + [DOT] + Joined(names[1..])
  }

  /** One name at a time, from document to document. */
  function Follow(d: Doc, names: seq<seq<byte>>): Option<Found>
    requires names != []
    decreases |names|
  {
    if |names| == 1 then GetField(d, names[0])
    else
      match GetField(d, names[0])
      case Some(Found(_, Object(e))) => Follow(e, names[1..])
      case Some(Found(_, Array(e))) => Follow(e, names[1..])
      case _ => None
  }

  lemma {:induction false} NothingInNil(names: seq<seq<byte>>)
    requires names != []
    ensures Follow(Nil, names) == None
  {
    if |names| > 1 {
      NothingInNil(names[1..]);
    }
  }

  lemma {:induction false} NoDottedField(d: Doc, name: seq<byte>)
    requires NoDots(d)
    ensures DOT in name ==> GetField(d, name) == None
    ensures NoDots(GetObjectField(d, name))
  {
    if d.Field? {
      NoDottedField(d.rest, name);
    }
  }

  lemma {:induction false} FirstDot(left: seq<byte>, right: seq<byte>)
    requires DOT !in left
    ensures FindDot(left + [DOT] + right) == Some(|left|)
  {
    var s := left + [DOT] + right;
    if left != [] {
      FirstDot(left[1..], right);
      assert s[1..] == left[1..] + [DOT] + right;
    }
  }

  /** Where field names hold no dots, getFieldDotted follows the names of the path one by one. */
  lemma {:induction false} DottedFollowsNames(d: Doc, names: seq<seq<byte>>)
    requires NoDots(d) && names != [] && forall i :: 0 <= i < |names| ==> DOT !in names[i]
    ensures GetFieldDotted(d, Joined(names)) == Follow(d, names)
    decreases |names|
  {
    var path := Joined(names);
    if |names| == 1 {
      assert FindDot(path).None?;
    } else {
      var left, right := names[0], Joined(names[1..]);
      FirstDot(left, right);
      NoDottedField(d, path);
      NoDottedField(d, left);
      assert path[..|left|] == left && path[|left| + 1..] == right && path[|left|] == DOT;
      NothingInNil(names[1..]);
      DottedFollowsNames(GetObjectField(d, left), names[1..]);
    }
  }

  predicate AllDigits(s: seq<byte>) { s != [] && forall c :: c in s ==> IsDigit(c) }

  predicate NamesAreIndexes(d: Doc) {
    d.Nil? || (AllDigits(d.name) && NamesAreIndexes(d.rest))
  }

  /** Wherever an array is nested, its fields are named by numbers. */
  predicate ArraysAreIndexed(d: Doc) {
    match d
    case Nil => true
    case Field(_, v, rest) =>
      && ArraysAreIndexed(rest)
      && (v.Object? ==> ArraysAreIndexed(v.doc))
      && (v.Array? ==> NamesAreIndexes(v.doc) && ArraysAreIndexed(v.doc))
  }

  lemma {:induction false} FieldOfArray(d: Doc, name: seq<byte>)
    requires NamesAreIndexes(d) && GetField(d, name).Some?
    ensures AllDigits(name)
  {
    if d.name != name {
      FieldOfArray(d.rest, name);
    }
  }

  lemma {:induction false} FieldOfIndexed(d: Doc, name: seq<byte>)
    requires ArraysAreIndexed(d) && GetField(d, name).Some?
    ensures var v := GetField(d, name).value.value;
      (v.Object? ==> ArraysAreIndexed(v.doc)) && (v.Array? ==> NamesAreIndexes(v.doc) && ArraysAreIndexed(v.doc))
  {
    if d.name != name {
      FieldOfIndexed(d.rest, name);
    }
  }

  lemma {:induction false} DigitsThenEnd(s: seq<byte>, n: nat)
    requires n <= |s| && (forall i :: 0 <= i < n ==> IsDigit(s[i])) && (n < |s| ==> !IsDigit(s[n]))
    ensures DigitRun(s) == n
  {
    if n > 0 {
      DigitsThenEnd(s[1..], n - 1);
    }
  }

  /** A path that finds something inside an indexed array starts with an index. */
  lemma PathIntoArray(d: Doc, path: seq<byte>)
    requires NamesAreIndexes(d) && GetFieldDotted(d, path).Some?
    ensures StartsWithIndex(path)
  {
    if GetField(d, path).Some? {
      FieldOfArray(d, path);
      DigitsThenEnd(path, |path|);
    } else {
      var i := FindDot(path).value;
      FieldOfArray(d, path[..i]);
      assert forall j :: 0 <= j < i ==> path[j] in path[..i];
      assert path[..i] != [];
      DigitsThenEnd(path, i);
    }
  }

  /** What the one-element lookup finds is all that the spreading lookup collects. */
  lemma {:induction false} DottedLookupsAgree(d: Doc, path: seq<byte>)
    requires ArraysAreIndexed(d) && GetFieldDotted(d, path).Some?
    ensures GetFieldsDotted(d, path, false) == [GetFieldDotted(d, path).value]
    decreases |path|
  {
    if GetField(d, path).None? {
      var i := FindDot(path).value;
      var sub := GetObjectField(d, path[..i]);
      FieldOfIndexed(d, path[..i]);
      var v := GetField(d, path[..i]).value.value;
      if v.Array? {
        PathIntoArray(sub, path[i + 1..]);
      }
      DottedLookupsAgree(sub, path[i + 1..]);
    }
  }

  /** An element of an array is found under its index. */
  lemma IntoArray(a: cstring, v: Value)
    requires DOT !in a
    ensures GetFieldDotted(Field(a, Array(Field([48], v, Nil)), Nil), a + [DOT, 48]) == Some(Found([48], v))
  {
    var d := Field(a, Array(Field([48], v, Nil)), Nil);
    var path := a + [DOT, 48];
    FirstDot(a, [48]);
    assert path == a + [DOT] + [48];
    assert path[|a|] == DOT && GetField(d, path) == None;
    assert path[..|a|] == a && path[|a| + 1..] == [48];
    assert GetObjectField(d, a) == Field([48], v, Nil);
  }

  // Which elements a path reaches.

  /** The path up to its first dot. */
  function FirstName(path: seq<byte>): (name: seq<byte>)
    ensures |name| <= |path| && name == path[..|name|] && DOT !in name
    ensures |name| < |path| ==> path[|name|] == DOT
  {
    if path == [] || path[0] == DOT then [] else [path[0]] + FirstName(path[1..])
  }

  /** What the last step takes: the field, or the elements of its array. */
  ghost predicate Taken(f: Found, expandLastArray: bool, e: Found) {
    if expandLastArray && f.value.Array? then HasField(f.value.doc, e) else e == f
  }

  /** The document has this field. */
  predicate HasField(d: Doc, e: Found) {
    d.Field? && (Found(d.name, d.value) == e || HasField(d.rest, e))
  }

  /**
   A walk along a path. Where the document has a field of the whole path, that field is the end of it.
   Otherwise the first name leads on: into an object; into an array as well where the next name is an
   index; and where it is not, into any object or array that is an element of the array.
   */
  ghost predicate Reached(d: Doc, path: seq<byte>, expandLastArray: bool, e: Found)
    decreases |path|
  {
    if GetField(d, path).Some? then Taken(GetField(d, path).value, expandLastArray, e)
    else
      var name := FirstName(path);
      |name| < |path| && GetField(d, name).Some? &&
      var v := GetField(d, name).value.value;
      var next := path[|name| + 1..];
      if v.Object? || (v.Array? && AllDigits(FirstName(next))) then Reached(v.doc, next, expandLastArray, e)
      else
        v.Array? && exists g: Found ::
          HasField(v.doc, g) && (g.value.Object? || g.value.Array?) && Reached(g.value.doc, next, expandLastArray, e)
  }

  lemma {:induction false} FirstNameIsFirstDot(path: seq<byte>)
    ensures FindDot(path) == if |FirstName(path)| < |path| then Some(|FirstName(path)|) else None
  {
    if path != [] && path[0] != DOT {
      FirstNameIsFirstDot(path[1..]);
    }
  }

  lemma IndexByName(path: seq<byte>)
    ensures StartsWithIndex(path) <==> AllDigits(FirstName(path))
  {
    var name, n := FirstName(path), DigitRun(path);
    DigitsInFront(path);
    if AllDigits(name) {
      assert forall i :: 0 <= i < |name| ==> path[i] == name[i] && name[i] in name;
      DigitsThenEnd(path, |name|);
    }
    if StartsWithIndex(path) {
      FirstNameIs(path, n);
      assert forall i :: 0 <= i < |name| ==> name[i] == path[i];
    }
  }

  lemma {:induction false} FirstNameIs(path: seq<byte>, n: nat)
    requires n <= |path| && (forall i :: 0 <= i < n ==> path[i] != DOT) && (n < |path| ==> path[n] == DOT)
    ensures |FirstName(path)| == n
  {
    if n > 0 {
      assert forall i :: 0 <= i < |path| - 1 ==> path[1..][i] == path[i + 1];
      FirstNameIs(path[1..], n - 1);
    }
  }

  lemma {:induction false} DigitsInFront(s: seq<byte>)
    ensures forall i :: 0 <= i < DigitRun(s) ==> IsDigit(s[i])
  {
    if s != [] && IsDigit(s[0]) {
      DigitsInFront(s[1..]);
      assert forall i :: 1 <= i < |s| ==> s[i] == s[1..][i - 1];
    }
  }

  lemma {:induction false} FieldsAreElements(d: Doc, e: Found)
    ensures e in AllFields(d) <==> HasField(d, e)
  {
    if d.Field? {
      FieldsAreElements(d.rest, e);
    }
  }

  /** getFieldsDotted collects exactly the elements that a walk along the path reaches. */
  lemma {:induction false} CollectsExactly(d: Doc, path: seq<byte>, expandLastArray: bool, e: Found)
    ensures e in GetFieldsDotted(d, path, expandLastArray) <==> Reached(d, path, expandLastArray, e)
    decreases |path|, 1
  {
    hide FindDot, FirstName, StartsWithIndex, AllDigits, AllFields, HasField, FromEach;
    if GetField(d, path).Some? {
      FieldsAreElements(if GetField(d, path).value.value.Array? then GetField(d, path).value.value.doc else Nil, e);
    } else {
      FirstNameIsFirstDot(path);
      var name := FirstName(path);
      if |name| < |path| && GetField(d, name).Some? {
        var v, next := GetField(d, name).value.value, path[|name| + 1..];
        assert path[..|name|] == name;
        IndexByName(next);
        if v.Object? || v.Array? {
          CollectsExactly(v.doc, next, expandLastArray, e);
          CollectsFromEach(v.doc, next, expandLastArray, e);
        }
      }
    }
  }

  lemma {:induction false} CollectsFromEach(d: Doc, path: seq<byte>, expandLastArray: bool, e: Found)
    ensures e in FromEach(d, path, expandLastArray)
       <==> exists g: Found :: HasField(d, g) && (g.value.Object? || g.value.Array?)
                               && Reached(g.value.doc, path, expandLastArray, e)
    decreases |path|, 2, d
  {
    hide GetFieldsDotted, Reached;
    if d.Field? {
      CollectsFromEach(d.rest, path, expandLastArray, e);
      var f := Found(d.name, d.value);
      assert HasField(d, f);
      assert forall g: Found :: HasField(d, g) <==> g == f || HasField(d.rest, g);
      if d.value.Object? || d.value.Array? {
        CollectsExactly(d.value.doc, path, expandLastArray, e);
      }
    }
  }

  /** A name below an array is looked for in each of its elements. */
  lemma SpreadExample(a: cstring, b: cstring, v: Value)
    requires DOT !in a && b != [] && DOT !in b && !IsDigit(b[0])
    ensures var inner := Field(b, v, Nil);
      GetFieldsDotted(Field(a, Array(Field([48], Object(inner), Nil)), Nil), a + [DOT] + b, false) == [Found(b, v)]
  {
    var inner := Field(b, v, Nil);
    var d, path := Field(a, Array(Field([48], Object(inner), Nil)), Nil), a + [DOT] + b;
    FirstDot(a, b);
    assert path[|a|] == DOT && GetField(d, path) == None;
    assert path[..|a|] == a && path[|a| + 1..] == b;
    var elements := Field([48], Object(inner), Nil);
    assert GetFieldsDotted(inner, b, false) == [Found(b, v)];
    assert FromEach(elements, b, false) == [Found(b, v)] + FromEach(Nil, b, false);
    assert GetField(d, a) == Some(Found(a, Array(elements))) && DigitRun(b) == 0;
    assert GetFieldsDotted(d, path, false) == FromEach(elements, b, false);
  }
}
