/**
 BSONObjBuilder: appends and nested builders that share one buffer, lengths patched in when
 a builder is done. Every well-nested run leaves the encoding of the tree it describes.
 */
module BsonBuild {
  import opened Wrappers
  import opened Bytes
  import opened BsonTree
  import opened BsonParse
  import opened BsonIterate

  class BufBuilder {
    var data: seq<byte>

    constructor ()
      ensures data == []
    {
      data := [];
    }

    method AppendBuf(s: seq<byte>)
      modifies this
      ensures data == old(data) + s
    {
      data := data + s;
    }

    method AppendStr(s: seq<byte>)
      modifies this
      ensures data == old(data) + (s + [0])
    {
      data := data + (s + [0]);
    }

    /** Room to be filled in later; nothing is known about what it holds. */
    method Skip(n: nat)
      modifies this
      ensures |data| == |old(data)| + n && old(data) <= data
    {
      data := data + seq(n, _ => 0);
    }

    method SetLen(n: nat)
      requires n <= |data|
      modifies this
      ensures data == old(data)[..n]
    {
      data := data[..n];
    }

    /** DataView(data + at).writeLE(x) */
    method WriteInt(at: nat, x: int)
      requires at + 4 <= |data|
      modifies this
      ensures data == Patch(old(data), at, x)
    {
      data := Patch(data, at, x);
    }
  }

  function Patch(s: seq<byte>, at: nat, x: int): (r: seq<byte>)
    requires at + 4 <= |s|
    ensures |r| == |s|
  {
    s[..at] + Int32Bytes(x) + s[at + 4..]
  }

  lemma PatchOutside(s: seq<byte>, at: nat, x: int, lo: nat, hi: nat)
    requires at + 4 <= |s| && lo <= hi <= |s| && (hi <= at || at + 4 <= lo)
    ensures Patch(s, at, x)[lo..hi] == s[lo..hi]
  {
  }

  lemma PatchPrefix(s: seq<byte>, at: nat, x: int, n: nat)
    requires at + 4 <= n <= |s|
    ensures Patch(s, at, x)[..n] == Patch(s[..n], at, x)
  {
  }

  /** What appendDate and appendUndefined write: they do not look for NULs in the field name. */
  predicate NameUnchecked(v: Value) {
    v.Plain? && (v.s.Date? || v.s.Undefined?)
  }

  /** What an append writes for any name at all. */
  function RawElement(name: seq<byte>, v: Value): seq<byte> {
    [TypeByte(v)] + (name + [0]) + ValueBytes(v)
  }

  /** What appendRegex writes for any pattern and options. */
  function RawRegEx(name: seq<byte>, pattern: seq<byte>, options: seq<byte>): seq<byte> {
    [11] + (name + [0]) + ((pattern + [0]) + (options + [0]))
  }

  /** What the append of a string with its size writes: the bytes as they come. */
  function RawSized(name: seq<byte>, text: seq<byte>): seq<byte> {
    [2] + (name + [0]) + (Int32Bytes(|text|) + text)
  }

  /** A time_t in milliseconds, computed in 64 unsigned bits. */
  function TimeT(seconds: int64): Scalar {
    Date(ToSigned64(ToUnsigned64(seconds) * 1000 % 0x1_0000_0000_0000_0000))
  }

  /** Where the milliseconds fit a long they are a thousand times the seconds. */
  lemma TimeTExact(seconds: int64)
    requires -0x8000_0000_0000_0000 <= seconds * 1000 < 0x8000_0000_0000_0000
    ensures TimeT(seconds) == Date(seconds * 1000)
  {
  }

  class BsonObjBuilder {
    const b: BufBuilder
    const offset: nat
    var doneCalled: bool

    /** A builder on a buffer, its own or a parent's: four bytes are left for the length. */
    constructor (b: BufBuilder)
      modifies b
      ensures this.b == b && offset == |old(b.data)| && !doneCalled
      ensures |b.data| == offset + 4 && old(b.data) <= b.data
    {
      this.b := b;
      offset := |b.data|;
      doneCalled := false;
      new;
      b.Skip(4);
    }

    /** The append overloads, one per kind of value; a date by appendDate. */
    method Append(name: seq<byte>, v: Value) returns (ok: bool)
      modifies b
      ensures ok == (0 !in name || NameUnchecked(v))
      ensures ok <==> 0 !in name || v == Plain(Undefined) || (v.Plain? && v.s.Date?)
      ensures b.data == old(b.data) + if ok then RawElement(name, v) else []
    {
      hide ValueBytes, TypeByte;
      if !NameUnchecked(v) && 0 in name {
        return false;
      }
      b.AppendBuf([TypeByte(v)]);
      b.AppendStr(name);
      AppendValue(v);
      ok := true;
      assert b.data == old(b.data) + ([TypeByte(v)] + (name + [0]) + ValueBytes(v));
    }

    /** appendTimeT: a date whose name is checked. */
    method AppendTimeT(name: seq<byte>, seconds: int64) returns (ok: bool)
      modifies b
      ensures ok == (0 !in name)
      ensures b.data == old(b.data) + if ok then RawElement(name, Plain(TimeT(seconds))) else []
      ensures -0x8000_0000_0000_0000 <= seconds * 1000 < 0x8000_0000_0000_0000 ==>
        TimeT(seconds) == Date(seconds * 1000)
    {
      hide ValueBytes, TypeByte;
      if 0 in name {
        return false;
      }
      ok := Append(name, Plain(TimeT(seconds)));
    }

    /** appendRegex: the name and the pattern are checked, the options are not. */
    method AppendRegEx(name: seq<byte>, pattern: seq<byte>, options: seq<byte>) returns (ok: bool)
      modifies b
      ensures ok == (0 !in name && 0 !in pattern)
      ensures b.data == old(b.data) + if ok then RawRegEx(name, pattern, options) else []
    {
      if 0 in name || 0 in pattern {
        return false;
      }
      b.AppendBuf([11]);
      b.AppendStr(name);
      b.AppendStr(pattern);
      b.AppendStr(options);
      ok := true;
      assert b.data == old(b.data) + ([11] + (name + [0]) + ((pattern + [0]) + (options + [0])));
    }

    /** append of a string with its size, the terminator left to the caller. */
    method AppendSized(name: seq<byte>, text: seq<byte>) returns (ok: bool)
      modifies b
      ensures ok == (0 !in name)
      ensures b.data == old(b.data) + if ok then RawSized(name, text) else []
    {
      hide Int32Bytes;
      if 0 in name {
        return false;
      }
      b.AppendBuf([2]);
      b.AppendStr(name);
      b.AppendBuf(Int32Bytes(|text|));
      b.AppendBuf(text);
      ok := true;
      assert b.data == old(b.data) + ([2] + (name + [0]) + (Int32Bytes(|text|) + text));
    }

    method AppendText(s: seq<byte>)
      modifies b
      ensures b.data == old(b.data) + TextBytes(s)
    {
      b.AppendBuf(Int32Bytes(|s| + 1));
      b.AppendStr(s);
      assert b.data == old(b.data) + (Int32Bytes(|s| + 1) + (s + [0]));
    }

    method AppendValue(v: Value)
      modifies b
      ensures b.data == old(b.data) + ValueBytes(v)
    {
      match v
      case Object(d) => b.AppendBuf(DocBytes(d));
      case Array(d) => b.AppendBuf(DocBytes(d));
      case CodeWScope(code, scope) => AppendCodeWScope(code, scope);
      case Plain(s) => AppendScalar(s);
    }

    method AppendCodeWScope(code: seq<byte>, scope: Doc)
      modifies b
      ensures b.data == old(b.data) + ValueBytes(CodeWScope(code, scope))
    {
      hide DocBytes, Int32Bytes, TextBytes;
      var scopeBytes := DocBytes(scope);
      b.AppendBuf(Int32Bytes(4 + 4 + |code| + 1 + |scopeBytes|));
      AppendText(code);
      b.AppendBuf(scopeBytes);
      assert b.data == old(b.data) + (Int32Bytes(9 + |code| + |scopeBytes|) + (TextBytes(code) + scopeBytes));
    }

    method AppendScalar(s: Scalar)
      modifies b
      ensures b.data == old(b.data) + ScalarBytes(s)
    {
      hide Int32Bytes, TextBytes, Uint64Bytes;
      if s.String? || s.Code? || s.Symbol? {
        AppendText(s.text);
      } else if s.RegEx? {
        b.AppendStr(s.pattern);
        b.AppendStr(s.options);
        assert b.data == old(b.data) + (CStringBytes(s.pattern) + CStringBytes(s.options));
      } else if s.DBRef? {
        AppendText(s.ns);
        b.AppendBuf(s.id);
        assert b.data == old(b.data) + (TextBytes(s.ns) + s.id);
      } else if s.BinData? {
        b.AppendBuf(Int32Bytes(|s.data|));
        b.AppendBuf([s.subtype]);
        b.AppendBuf(s.data);
        assert b.data == old(b.data) + (Int32Bytes(|s.data|) + ([s.subtype] + s.data));
      } else {
        b.AppendBuf(ScalarBytes(s));
      }
    }

    /** Header of a nested object or array; the caller builds its body on the same buffer. */
    method SubStart(name: seq<byte>, isArray: bool) returns (ok: bool)
      modifies b
      ensures ok == (0 !in name)
      ensures b.data == old(b.data) + if ok then [if isArray then 4 else 3] + (name + [0]) else []
    {
      if 0 in name {
        return false;
      }
      b.AppendBuf([if isArray then 4 else 3]);
      b.AppendStr(name);
      ok := true;
    }

    /** Closing byte and length, once. */
    method Done()
      requires offset + 4 <= |b.data|
      modifies this, b
      ensures doneCalled
      ensures b.data == if old(doneCalled) then old(b.data) else Finished(old(b.data), offset)
    {
      if !doneCalled {
        doneCalled := true;
        b.AppendBuf([0]);
        b.WriteInt(offset, |b.data| - offset);
      }
    }

    /** A look at the document so far; the builder stays open, and a finished one is open again. */
    method AsTempObj() returns (temp: seq<byte>)
      requires offset + 4 <= |b.data|
      modifies this, b
      ensures !doneCalled
      ensures !old(doneCalled) ==> temp == Finished(old(b.data), offset)[offset..]
      ensures !old(doneCalled) ==> b.data == Patch(old(b.data), offset, |old(b.data)| + 1 - offset)
      ensures old(doneCalled) ==> temp == old(b.data)[offset..] && b.data == old(b.data)[..|old(b.data)| - 1]
    {
      Done();
      temp := b.data[offset..];
      b.SetLen(|b.data| - 1);
      doneCalled := false;
    }

    /** Whether a field was appended, read off the unfinished buffer. */
    method HasField(name: seq<byte>, ghost d: Doc) returns (found: bool)
      requires offset + 4 <= |b.data| && b.data[offset + 4..] == FieldsBytes(d) && |FieldsBytes(d)| < INT32_LIMIT
      ensures found == HasName(d, name)
    {
      hide Unclosed, FieldsBytes, ElementBytes, ElementSize;
      var it := new BsonObjIterator(b.data, offset, |b.data|);
      ghost var left := d;
      assert Unclosed(b.data, it.pos, left) by { UnclosedStart(b.data, offset + 4, d); }
      UnclosedStep(b.data, it.pos, left);
      while it.More()
        invariant it.b == b.data && it.pos >= 0 && it.last == |b.data| - 1
        invariant Unclosed(b.data, it.pos, left)
        invariant left.Field? <==> it.pos < it.last
        invariant HasName(d, name) == HasName(left, name)
        decreases left
      {
        UnclosedStep(b.data, it.pos, left);
        var e := it.Next(false);
        if name == FieldName(b.data, e.value) {
          return true;
        }
        left := left.rest;
        UnclosedStep(b.data, it.pos, left);
      }
      found := false;
    }
  }

  function FieldName(s: seq<byte>, p: nat): seq<byte> {
    if p + 1 > |s| then []
    else
      match FindNul(s, p + 1)
      case None => []
      case Some(q) => s[p + 1..q]
  }

  /** The fields of d are all that lies ahead, with no closing byte. */
  ghost predicate Unclosed(s: seq<byte>, p: nat, d: Doc) {
    p <= |s| && s[p..] == FieldsBytes(d) && |FieldsBytes(d)| < INT32_LIMIT
  }

  lemma UnclosedStart(s: seq<byte>, p: nat, d: Doc)
    requires p <= |s| && s[p..] == FieldsBytes(d) && |FieldsBytes(d)| < INT32_LIMIT
    ensures Unclosed(s, p, d)
  {
  }

  lemma UnclosedElement(s: seq<byte>, p: nat, d: Doc)
    requires Unclosed(s, p, d) && d.Field?
    ensures Holds(s, p, ElementBytes(d.name, d.value)) && |ElementBytes(d.name, d.value)| < INT32_LIMIT
    ensures Unclosed(s, p + |ElementBytes(d.name, d.value)|, d.rest)
  {
    hide ElementBytes;
    var e := ElementBytes(d.name, d.value);
    assert s[p..][..|e|] == e && s[p..][|e|..] == FieldsBytes(d.rest);
  }

  lemma UnclosedStep(s: seq<byte>, p: nat, d: Doc)
    requires Unclosed(s, p, d)
    ensures d.Nil? ==> p == |s|
    ensures d.Field? ==> p + 2 <= |s|
    ensures d.Field? ==> ElementSize(s, p) == Some(|ElementBytes(d.name, d.value)|)
    ensures d.Field? ==> FieldName(s, p) == d.name
    ensures d.Field? ==> Unclosed(s, p + |ElementBytes(d.name, d.value)|, d.rest)
  {
    hide ElementSize, ElementBytes;
    if d.Field? {
      hide FieldsBytes, Unclosed;
      UnclosedElement(s, p, d);
      ElementSizeExact(s, p, d.name, d.value, |ElementBytes(d.name, d.value)|);
      HoldsElement(s, p, d.name, d.value);
      FindNulUnique(s, p + 1, d.name);
      HoldsSplit(s, p + 1, d.name, [0]);
    }
  }

  /** The buffer after the builder at offset is done. */
  function Finished(s: seq<byte>, offset: nat): (r: seq<byte>)
    requires offset + 4 <= |s|
    ensures |r| == |s| + 1
  {
    Patch(s + [0], offset, |s| + 1 - offset)
  }

  // Runs of several builders on one buffer.

  /** An open builder: how its parent named it, and the fields it holds so far. */
  datatype Level = Level(name: cstring, isArray: bool, doc: Doc)

  datatype Op =
    | Add(name: cstring, value: Value)
    | Open(name: cstring, isArray: bool)
    | Close
    | Peek(level: nat)
    | Ask(name: cstring)

  function SubHeader(l: Level): (s: seq<byte>)
    ensures |s| == |l.name| + 2
  {
    [if l.isArray then 4 else 3] + CStringBytes(l.name)
  }

  function Closed(l: Level): Value {
    if l.isArray then Array(l.doc) else Object(l.doc)
  }

  function AddField(levels: seq<Level>, name: cstring, v: Value): seq<Level>
    requires levels != []
  {
    var i := |levels| - 1;
    levels[i := levels[i].(doc := Append(levels[i].doc, Field(name, v, Nil)))]
  }

  /** Only the innermost builder is written to, and the outermost is not closed by the run. */
  predicate Allowed(levels: seq<Level>, op: Op) {
    && levels != []
    && (op.Close? ==> |levels| > 1)
    && (op.Peek? ==> op.level < |levels|)
    && (op.Ask? ==> |FieldsBytes(levels[|levels| - 1].doc)| < INT32_LIMIT)
  }

  /** What an operation means for the documents under construction. */
  function Meaning(levels: seq<Level>, op: Op): (r: seq<Level>)
    requires Allowed(levels, op)
    ensures r != []
  {
    match op
    case Add(name, v) => AddField(levels, name, v)
    case Open(name, isArray) => levels + [Level(name, isArray, Nil)]
    case Close =>
      var top := levels[|levels| - 1];
      AddField(levels[..|levels| - 1], top.name, Closed(top))
    case Peek(_) => levels
    case Ask(_) => levels
  }

  /** The buffer holds these levels, the builders of which start at these offsets. */
  ghost predicate Layout(s: seq<byte>, levels: seq<Level>, offsets: seq<nat>)
    decreases |levels|
  {
    && levels != [] && |levels| == |offsets|
    && var i := |levels| - 1;
       var at := offsets[i];
       && at + 4 <= |s| && s[at + 4..] == FieldsBytes(levels[i].doc)
       && (i > 0 ==>
             var h := |SubHeader(levels[i])|;
             h <= at && s[at - h..at] == SubHeader(levels[i]) && Layout(s[..at - h], levels[..i], offsets[..i]))
  }

  lemma LayoutAdd(s: seq<byte>, levels: seq<Level>, offsets: seq<nat>, name: cstring, v: Value)
    requires Layout(s, levels, offsets)
    ensures Layout(s + ElementBytes(name, v), AddField(levels, name, v), offsets)
  {
    hide FieldsBytes, ElementBytes, Append;
    var i := |levels| - 1;
    var at := offsets[i];
    var e := ElementBytes(name, v);
    var s', levels' := s + e, AddField(levels, name, v);
    FieldsBytesOfAppend(levels[i].doc, Field(name, v, Nil));
    SingleField(name, v);
    assert s'[at + 4..] == s[at + 4..] + e;
    if i > 0 {
      var h := |SubHeader(levels[i])|;
      assert s'[..at - h] == s[..at - h] && s'[at - h..at] == s[at - h..at];
      assert levels'[..i] == levels[..i];
    }
  }

  lemma LayoutOpen(s: seq<byte>, levels: seq<Level>, offsets: seq<nat>, l: Level, s': seq<byte>)
    requires Layout(s, levels, offsets) && l.doc == Nil
    requires s + SubHeader(l) <= s' && |s'| == |s| + |SubHeader(l)| + 4
    ensures Layout(s', levels + [l], offsets + [|s| + |SubHeader(l)|])
  {
    hide SubHeader, FieldsBytes;
    var i := |levels|;
    var at := |s| + |SubHeader(l)|;
    assert (levels + [l])[..i] == levels && (offsets + [at])[..i] == offsets;
    assert s'[..at] == s + SubHeader(l);
    assert s'[..|s|] == s'[..at][..|s|] == s;
    assert s'[|s|..at] == s'[..at][|s|..] == SubHeader(l);
    assert FieldsBytes(Nil) == [] by { EmptyFields(); }
    assert s'[at + 4..] == [];
  }

  lemma SingleField(name: cstring, v: Value)
    ensures FieldsBytes(Field(name, v, Nil)) == ElementBytes(name, v)
  {
  }

  lemma EmptyFields()
    ensures FieldsBytes(Nil) == []
  {
  }

  lemma ClosedBytes(l: Level)
    ensures SubHeader(l) + DocBytes(l.doc) == ElementBytes(l.name, Closed(l))
  {
    hide DocBytes;
  }

  /** Finishing the innermost builder leaves its document where it began. */
  lemma FinishedIsDoc(s: seq<byte>, at: nat, d: Doc)
    requires at + 4 <= |s| && s[at + 4..] == FieldsBytes(d)
    ensures Finished(s, at) == s[..at] + DocBytes(d)
  {
    hide FieldsBytes, Int32Bytes;
    assert (s + [0])[..at] == s[..at];
    assert (s + [0])[at + 4..] == FieldsBytes(d) + [0];
    var size := Int32Bytes(|s| + 1 - at);
    assert s[..at] + size + (FieldsBytes(d) + [0]) == s[..at] + (size + (FieldsBytes(d) + [0]));
  }

  lemma LayoutClose(s: seq<byte>, levels: seq<Level>, offsets: seq<nat>)
    requires Layout(s, levels, offsets) && |levels| > 1
    ensures Layout(Finished(s, offsets[|offsets| - 1]), Meaning(levels, Close), offsets[..|offsets| - 1])
  {
    hide DocBytes, FieldsBytes, SubHeader, ElementBytes, Finished, Closed;
    var i := |levels| - 1;
    var at, top := offsets[i], levels[i];
    var h := |SubHeader(top)|;
    FinishedIsDoc(s, at, top.doc);
    var inner := s[..at - h];
    ClosedBytes(top);
    assert s[..at] == inner + SubHeader(top);
    assert Finished(s, at) == inner + ElementBytes(top.name, Closed(top));
    LayoutAdd(inner, levels[..i], offsets[..i], top.name, Closed(top));
  }

  /** Rewriting the length of any open builder changes nothing that matters. */
  lemma {:induction false} LayoutPatch(s: seq<byte>, levels: seq<Level>, offsets: seq<nat>, k: nat, x: int)
    requires Layout(s, levels, offsets) && k < |levels|
    ensures offsets[k] + 4 <= |s| && Layout(Patch(s, offsets[k], x), levels, offsets)
    decreases |levels|
  {
    hide Patch, SubHeader, FieldsBytes;
    var i := |levels| - 1;
    var at := offsets[i];
    var h := |SubHeader(levels[i])|;
    if k < i {
      LayoutPatch(s[..at - h], levels[..i], offsets[..i], k, x);
      PatchPrefix(s, offsets[k], x, at - h);
    }
    PatchOutside(s, offsets[k], x, at + 4, |s|);
    if i > 0 {
      PatchOutside(s, offsets[k], x, at - h, at);
      PatchOutside(s, at, x, 0, at - h);
    }
  }

  lemma LayoutRoom(s: seq<byte>, levels: seq<Level>, offsets: seq<nat>)
    requires Layout(s, levels, offsets)
    ensures |levels| == |offsets| && forall k :: 0 <= k < |offsets| ==> offsets[k] + 4 <= |s|
  {
    forall k | 0 <= k < |offsets| ensures offsets[k] + 4 <= |s| {
      LayoutPatch(s, levels, offsets, k, 0);
    }
  }

  predicate AllowedRun(levels: seq<Level>, ops: seq<Op>)
    decreases |ops|
  {
    ops == [] || (Allowed(levels, ops[0]) && AllowedRun(Meaning(levels, ops[0]), ops[1..]))
  }

  function RunMeaning(levels: seq<Level>, ops: seq<Op>): (r: seq<Level>)
    requires levels != [] && AllowedRun(levels, ops)
    ensures r != []
    decreases |ops|
  {
    if ops == [] then levels else RunMeaning(Meaning(levels, ops[0]), ops[1..])
  }

  /** Builders that share a buffer and are all still open. */
  ghost predicate AllOpen(builders: seq<BsonObjBuilder>, b: BufBuilder, offsets: seq<nat>)
    reads builders
  {
    && |builders| == |offsets|
    && (forall i :: 0 <= i < |builders| ==>
          builders[i].b == b && builders[i].offset == offsets[i] && !builders[i].doneCalled)
    && (forall i, j :: 0 <= i < j < |builders| ==> builders[i] != builders[j])
  }

  /** One operation of a run, carried out by the builders themselves. */
  method Perform(builders: seq<BsonObjBuilder>, b: BufBuilder, op: Op,
                 ghost levels: seq<Level>, ghost offsets: seq<nat>)
    returns (left: seq<BsonObjBuilder>, found: bool, ghost starts: seq<nat>)
    requires AllOpen(builders, b, offsets) && Allowed(levels, op) && Layout(b.data, levels, offsets)
    modifies b, builders
    ensures AllOpen(left, b, starts) && Layout(b.data, Meaning(levels, op), starts)
    ensures forall x :: x in left && x !in builders ==> fresh(x)
    ensures left != [] && builders != [] && starts[0] == offsets[0] && left[0] == builders[0]
    ensures op.Ask? ==> found == HasName(levels[|levels| - 1].doc, op.name)
  {
    hide Layout, Finished, Patch, ElementBytes, FieldsBytes, HasName;
    found := false;
    LayoutRoom(b.data, levels, offsets);
    var top := builders[|builders| - 1];
    match op
    case Add(name, v) =>
      var ok := top.Append(name, v);
      RawElementIs(name, v);
      LayoutAdd(old(b.data), levels, offsets, name, v);
      left, starts := builders, offsets;
    case Open(name, isArray) =>
      var ok := top.SubStart(name, isArray);
      var sub := new BsonObjBuilder(top.b);
      left, starts := builders + [sub], offsets + [sub.offset];
      LayoutOpen(old(b.data), levels, offsets, Level(name, isArray, Nil), b.data);
    case Close =>
      top.Done();
      left, starts := builders[..|builders| - 1], offsets[..|builders| - 1];
      LayoutClose(old(b.data), levels, offsets);
    case Peek(k) =>
      var temp := builders[k].AsTempObj();
      left, starts := builders, offsets;
      LayoutPatch(old(b.data), levels, offsets, k, |old(b.data)| + 1 - offsets[k]);
    case Ask(name) =>
      LayoutTop(b.data, levels, offsets);
      found := top.HasField(name, levels[|levels| - 1].doc);
      left, starts := builders, offsets;
  }

  /** The innermost builder's fields are all that follows its length. */
  lemma LayoutTop(s: seq<byte>, levels: seq<Level>, offsets: seq<nat>)
    requires Layout(s, levels, offsets)
    ensures var i := |levels| - 1; offsets[i] + 4 <= |s| && s[offsets[i] + 4..] == FieldsBytes(levels[i].doc)
  {
  }

  /** What the questions of a run are to be answered: whether the innermost document has the field so far. */
  function RunAnswers(levels: seq<Level>, ops: seq<Op>): seq<bool>
    requires levels != [] && AllowedRun(levels, ops)
    decreases |ops|
  {
    if ops == [] then []
    else
      (if ops[0].Ask? then [HasName(levels[|levels| - 1].doc, ops[0].name)] else [])
      + RunAnswers(Meaning(levels, ops[0]), ops[1..])
  }

  lemma RawElementIs(name: cstring, v: Value)
    ensures RawElement(name, v) == ElementBytes(name, v)
  {
    hide ValueBytes;
  }

  /** A whole run on a fresh buffer, whose first bytes are kept for the holder. */
  method Build(ops: seq<Op>, holder: nat) returns (bytes: seq<byte>, answers: seq<bool>)
    requires AllowedRun([Level([], false, Nil)], ops)
    requires |RunMeaning([Level([], false, Nil)], ops)| == 1
    ensures bytes == DocBytes(RunMeaning([Level([], false, Nil)], ops)[0].doc)
    ensures answers == RunAnswers([Level([], false, Nil)], ops)
  {
    hide Layout, DocBytes, Meaning, Finished, HasName, Allowed, FieldsBytes;
    answers := [];
    var b := new BufBuilder();
    b.Skip(holder);
    var root := new BsonObjBuilder(b);
    var builders := [root];
    ghost var levels, offsets := [Level([], false, Nil)], [root.offset];
    LayoutRoot(b.data, root.offset);
    for i := 0 to |ops|
      invariant AllOpen(builders, b, offsets) && Layout(b.data, levels, offsets)
      invariant fresh(b) && forall x :: x in builders ==> fresh(x)
      invariant AllowedRun(levels, ops[i..]) && levels != [] && offsets != [] && offsets[0] == holder
      invariant RunMeaning(levels, ops[i..]) == RunMeaning([Level([], false, Nil)], ops)
      invariant answers + RunAnswers(levels, ops[i..]) == RunAnswers([Level([], false, Nil)], ops)
      invariant builders != [] && builders[0] == root
    {
      assert ops[i..][0] == ops[i] && ops[i..][1..] == ops[i + 1..];
      ghost var next := Meaning(levels, ops[i]);
      var found;
      builders, found, offsets := Perform(builders, b, ops[i], levels, offsets);
      if ops[i].Ask? {
        answers := answers + [found];
      }
      levels := next;
    }
    LayoutTop(b.data, levels, offsets);
    FinishedIsDoc(b.data, holder, levels[0].doc);
    root.Done();
    bytes := b.data[holder..];
  }

  lemma LayoutRoot(s: seq<byte>, at: nat)
    requires |s| == at + 4
    ensures Layout(s, [Level([], false, Nil)], [at])
  {
    EmptyFields();
  }

  /** asTempObj of the innermost builder is the document it holds so far. */
  lemma PeekShowsTop(s: seq<byte>, levels: seq<Level>, offsets: seq<nat>)
    requires Layout(s, levels, offsets)
    ensures var i := |levels| - 1;
      offsets[i] + 4 <= |s| && Finished(s, offsets[i])[offsets[i]..] == DocBytes(levels[i].doc)
  {
    var i := |levels| - 1;
    FinishedIsDoc(s, offsets[i], levels[i].doc);
  }

  predicate OnlyLooks(op: Op) { op.Peek? || op.Ask? }

  function WithoutPeeks(ops: seq<Op>): seq<Op> {
    if ops == [] then []
    else (if OnlyLooks(ops[0]) then [] else [ops[0]]) + WithoutPeeks(ops[1..])
  }

  /** Looks and questions on the way do not change what a run builds. */
  lemma {:induction false} PeeksChangeNothing(levels: seq<Level>, ops: seq<Op>)
    requires levels != [] && AllowedRun(levels, ops)
    ensures AllowedRun(levels, WithoutPeeks(ops))
    ensures RunMeaning(levels, WithoutPeeks(ops)) == RunMeaning(levels, ops)
    decreases |ops|
  {
    if ops != [] {
      var rest := WithoutPeeks(ops[1..]);
      PeeksChangeNothing(Meaning(levels, ops[0]), ops[1..]);
      if !OnlyLooks(ops[0]) {
        assert WithoutPeeks(ops)[0] == ops[0] && WithoutPeeks(ops)[1..] == rest;
      } else {
        assert WithoutPeeks(ops) == rest;
      }
    }
  }

  // What the appends accept without a check.

  /** A finished builder that wrote some fields, then these bytes, then more fields. */
  function Around(d: Doc, raw: seq<byte>, e: Doc): (s: seq<byte>)
    ensures |s| == 5 + |FieldsBytes(d)| + |raw| + |FieldsBytes(e)|
  {
    var body := FieldsBytes(d) + raw + FieldsBytes(e);
    Int32Bytes(5 + |body|) + (body + [0])
  }

  lemma FinishedAround(s: seq<byte>, at: nat, d: Doc, raw: seq<byte>, e: Doc)
    requires at + 4 <= |s| && s[at + 4..] == FieldsBytes(d) + raw + FieldsBytes(e)
    ensures Finished(s, at) == s[..at] + Around(d, raw, e)
  {
    hide FieldsBytes, Int32Bytes;
    var body := s[at + 4..];
    assert (s + [0])[..at] == s[..at];
    assert (s + [0])[at + 4..] == body + [0];
    var size := Int32Bytes(|s| + 1 - at);
    assert s[..at] + size + (body + [0]) == s[..at] + (size + (body + [0]));
  }

  /** The document reads back with this field in the place of the bytes, all else as it was. */
  predicate ReadsBack(d: Doc, raw: seq<byte>, e: Doc, name: cstring, v: Value) {
    ParseDoc(Around(d, raw, e), 0) == Got(BsonTree.Append(d, Field(name, v, e)), |Around(d, raw, e)|)
  }

  /** Bytes in a document read back as a field exactly when they are its encoding. */
  lemma ReadsBackExactly(d: Doc, raw: seq<byte>, e: Doc, name: cstring, v: Value)
    requires |Around(d, raw, e)| < INT32_LIMIT
    ensures ReadsBack(d, raw, e, name, v) <==> raw == ElementBytes(name, v)
  {
    hide FieldsBytes, ParseDoc, ElementBytes, Int32Bytes;
    var s, tree := Around(d, raw, e), BsonTree.Append(d, Field(name, v, e));
    ParseDocExact(s, 0, tree, |s|);
    assert s[0..|s|] == s;
    AppendedBytes(d, name, v, e);
    if |s| == |DocBytes(tree)| {
      SameMiddle(FieldsBytes(d), raw, ElementBytes(name, v), FieldsBytes(e));
    }
  }

  lemma AppendedBytes(d: Doc, name: cstring, v: Value, e: Doc)
    ensures FieldsBytes(BsonTree.Append(d, Field(name, v, e)))
         == FieldsBytes(d) + ElementBytes(name, v) + FieldsBytes(e)
  {
    FieldsBytesOfAppend(d, Field(name, v, e));
  }

  lemma SameMiddle(front: seq<byte>, x: seq<byte>, y: seq<byte>, back: seq<byte>)
    requires |x| == |y|
    ensures var n := Int32Bytes(5 + |front| + |x| + |back|);
      n + ((front + x + back) + [0]) == n + ((front + y + back) + [0]) <==> x == y
  {
    hide Int32Bytes;
    var n := Int32Bytes(5 + |front| + |x| + |back|);
    var s, t := n + ((front + x + back) + [0]), n + ((front + y + back) + [0]);
    var at := 4 + |front|;
    assert s[at..at + |x|] == x && t[at..at + |x|] == y;
  }

  /** A date or an undefined reads back under its name exactly when the name has no NUL. */
  lemma UncheckedName(d: Doc, name: seq<byte>, v: Value, e: Doc)
    requires NameUnchecked(v) && |Around(d, RawElement(name, v), e)| < INT32_LIMIT
    ensures (exists n: cstring :: ReadsBack(d, RawElement(name, v), e, n, v)) <==> 0 !in name
    ensures forall n: cstring :: ReadsBack(d, RawElement(name, v), e, n, v) ==> n == name
  {
    hide ReadsBack, Around, ElementBytes;
    if 0 !in name {
      RawElementIs(name, v);
      ReadsBackExactly(d, RawElement(name, v), e, name, v);
    }
    forall n: cstring | ReadsBack(d, RawElement(name, v), e, n, v) ensures n == name {
      ReadsBackExactly(d, RawElement(name, v), e, n, v);
      RawElementIs(n, v);
      SameName(name, n, v);
    }
  }

  lemma SameName(a: seq<byte>, b: seq<byte>, v: Value)
    requires RawElement(a, v) == RawElement(b, v)
    ensures a == b
  {
    hide ValueBytes, TypeByte;
    var s, t := RawElement(a, v), RawElement(b, v);
    assert |a| == |b|;
    assert s[1..1 + |a|] == a && t[1..1 + |a|] == b;
  }

  /** A regular expression reads back exactly when its options have no NUL. */
  lemma UncheckedOptions(d: Doc, name: cstring, pattern: cstring, options: seq<byte>, e: Doc)
    requires |Around(d, RawRegEx(name, pattern, options), e)| < INT32_LIMIT
    ensures (exists o: cstring :: ReadsBack(d, RawRegEx(name, pattern, options), e, name, Plain(RegEx(pattern, o))))
       <==> 0 !in options
    ensures forall o: cstring ::
      ReadsBack(d, RawRegEx(name, pattern, options), e, name, Plain(RegEx(pattern, o))) ==> o == options
  {
    hide ReadsBack, Around, ElementBytes;
    var raw := RawRegEx(name, pattern, options);
    if 0 !in options {
      RegExIs(name, pattern, options);
      ReadsBackExactly(d, raw, e, name, Plain(RegEx(pattern, options)));
    }
    forall o: cstring | ReadsBack(d, raw, e, name, Plain(RegEx(pattern, o))) ensures o == options {
      ReadsBackExactly(d, raw, e, name, Plain(RegEx(pattern, o)));
      RegExIs(name, pattern, o);
      SameOptions(name, pattern, options, o);
    }
  }

  lemma RegExIs(name: cstring, pattern: cstring, options: cstring)
    ensures RawRegEx(name, pattern, options) == ElementBytes(name, Plain(RegEx(pattern, options)))
  {
    hide ElementBytes;
    RawElementIs(name, Plain(RegEx(pattern, options)));
  }

  lemma SameOptions(name: seq<byte>, pattern: seq<byte>, a: seq<byte>, b: seq<byte>)
    requires RawRegEx(name, pattern, a) == RawRegEx(name, pattern, b)
    ensures a == b
  {
    var s, t := RawRegEx(name, pattern, a), RawRegEx(name, pattern, b);
    var at := |name| + |pattern| + 3;
    assert |s| == at + |a| + 1 && |t| == at + |b| + 1;
    assert s[at..at + |a|] == a && t[at..at + |a|] == b;
  }

  /** Options with a NUL, a type byte and a name after it write a field of their own. */
  lemma NulInOptions(name: cstring, pattern: cstring, o: cstring, n: cstring)
    ensures RawRegEx(name, pattern, o + [0, 10] + n)
         == ElementBytes(name, Plain(RegEx(pattern, o))) + ElementBytes(n, Plain(Null))
  {
    hide ElementBytes;
    RegExIs(name, pattern, o);
    RawElementIs(n, Plain(Null));
    assert ElementBytes(n, Plain(Null)) == [10] + (n + [0]);
    var left := [11] + (name + [0]) + (pattern + [0]);
    assert RawRegEx(name, pattern, o + [0, 10] + n) == left + o + [0, 10] + n + [0];
    assert RawRegEx(name, pattern, o) + ([10] + (n + [0])) == left + o + [0, 10] + n + [0];
  }

  /** A string of one letter and no terminator is not read at all. */
  lemma NoTerminator(name: cstring)
    ensures ParseElement(RawSized(name, [97]), 0) == Fail
  {
    hide Int32Bytes, ReadInt32;
    var raw := RawSized(name, [97]);
    var at := |name| + 2;
    assert raw[1..at] == name + [0] && raw[at..at + 4] == Int32Bytes(1) && raw[at + 4] == 97;
    FindNulUnique(raw, 1, name);
    ReadInt32OfBytes(1);
  }

  /** A string given with its size reads back exactly when its last byte is the terminator. */
  lemma UncheckedTerminator(d: Doc, name: cstring, text: seq<byte>, e: Doc)
    requires |Around(d, RawSized(name, text), e)| < INT32_LIMIT
    ensures (exists s: seq<byte> :: ReadsBack(d, RawSized(name, text), e, name, Plain(String(s))))
       <==> text != [] && text[|text| - 1] == 0
    ensures forall s: seq<byte> :: ReadsBack(d, RawSized(name, text), e, name, Plain(String(s))) ==> text == s + [0]
  {
    hide ReadsBack, Around, ElementBytes;
    if text != [] && text[|text| - 1] == 0 {
      var s := text[..|text| - 1];
      assert text == s + [0];
      SizedIs(name, s);
      ReadsBackExactly(d, RawSized(name, text), e, name, Plain(String(s)));
    }
    forall s: seq<byte> | ReadsBack(d, RawSized(name, text), e, name, Plain(String(s))) ensures text == s + [0] {
      ReadsBackExactly(d, RawSized(name, text), e, name, Plain(String(s)));
      SizedIs(name, s);
      SameSized(name, text, s + [0]);
    }
  }

  lemma SizedIs(name: cstring, s: seq<byte>)
    ensures RawSized(name, s + [0]) == ElementBytes(name, Plain(String(s)))
  {
    hide Int32Bytes;
    RawElementIs(name, Plain(String(s)));
  }

  lemma SameSized(name: seq<byte>, a: seq<byte>, b: seq<byte>)
    requires RawSized(name, a) == RawSized(name, b)
    ensures a == b
  {
    hide Int32Bytes;
    var s, t := RawSized(name, a), RawSized(name, b);
    var at := |name| + 6;
    assert s[at..] == a && t[at..] == b;
  }

  /** An undefined named a NUL b stands there as one named a; the rest of the name is taken for more fields. */
  lemma NulInName()
    ensures ParseElement(RawElement([97, 0, 98], Plain(Undefined)), 0) == Got(Elem([97], Plain(Undefined)), 3)
  {
    var raw := RawElement([97, 0, 98], Plain(Undefined));
    assert raw == [6, 97, 0, 98, 0];
    assert FindNul(raw, 1) == Some(2);
    assert raw[1..2] == [97];
  }
}
