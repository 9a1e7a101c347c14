/**
 Splitting bulk writes into commands: batches of one type, bounded in number and size, and the
 bulk builder that numbers the operations and sorts them by type.
 */
module CommandWriter {
  import opened Bytes
  import opened BsonTree
  import opened BsonBuild
  import opened ArrayIndex
  import opened Permutations
  import ParseNumber

  const OVERHEAD: nat := 8 * 1024

  /** An operation as its subclass holds it; an insert has been given its _id. */
  datatype Body =
    | Insert(doc: Doc)
    | Update(selector: Doc, update: Doc, multi: bool, upsert: bool)
    | Delete(selector: Doc, justOne: bool)

  datatype WriteOp = WriteOp(body: Body, bulkIndex: nat) {
    /** operationType: the opcodes of the wire protocol. */
    function Kind(): int {
      match body
      case Update(_, _, _, _) => 2001
      case Insert(_) => 2002
      case Delete(_, _) => 2006
    }

    /** incrementalSize: the sizes of the documents given. */
    function Size(): nat {
      match body
      case Insert(doc) => |DocBytes(doc)|
      case Update(selector, update, _, _) => |DocBytes(selector)| + |DocBytes(update)|
      case Delete(selector, _) => |DocBytes(selector)|
    }

    /** appendSelfToCommand: the document that goes into the array. */
    function Element(): Value {
      match body
      case Insert(doc) => Object(doc)
      case Update(selector, update, multi, upsert) =>
        Object(Field(Q, Object(selector), Field(U, Object(update),
          Field(MULTI, Flag(multi), Field(UPSERT, Flag(upsert), Nil)))))
      case Delete(selector, justOne) =>
        Object(Field(Q, Object(selector), Field(LIMIT, Plain(NumberInt(if justOne then 1 else 0)), Nil)))
    }
  }

  // The names of the fields: "q", "u", "multi", "upsert", "limit".
  const Q: cstring := [113]
  const U: cstring := [117]
  const MULTI: cstring := [109, 117, 108, 116, 105]
  const UPSERT: cstring := [117, 112, 115, 101, 114, 116]
  const LIMIT: cstring := [108, 105, 109, 105, 116]

  /** The types are told apart as the constructors are, and sort deletes, inserts, updates. */
  lemma KindIsConstructor(a: WriteOp, b: WriteOp)
    ensures a.Kind() == b.Kind()
       <==> (a.body.Insert? <==> b.body.Insert?) && (a.body.Update? <==> b.body.Update?)
    ensures a.body.Delete? && b.body.Insert? ==> a.Kind() > b.Kind()
    ensures a.body.Insert? && b.body.Update? ==> a.Kind() > b.Kind()
  {
  }

  /** The document a command holds for each operation, with its names spelled out. */
  lemma ElementSpelled(op: WriteOp)
    ensures Q == ParseNumber.Ascii("q") && U == ParseNumber.Ascii("u") && LIMIT == ParseNumber.Ascii("limit")
    ensures MULTI == ParseNumber.Ascii("multi") && UPSERT == ParseNumber.Ascii("upsert")
    ensures op.body.Insert? ==> op.Element() == Object(op.body.doc)
    ensures op.body.Update? ==>
      var multi, upsert := Plain(Bool(if op.body.multi then 1 else 0)), Plain(Bool(if op.body.upsert then 1 else 0));
      op.Element() == Object(Field(Q, Object(op.body.selector), Field(U, Object(op.body.update),
                               Field(MULTI, multi, Field(UPSERT, upsert, Nil)))))
    ensures op.body.Delete? ==>
      op.Element() == Object(Field(Q, Object(op.body.selector),
                               Field(LIMIT, Plain(NumberInt(if op.body.justOne then 1 else 0)), Nil)))
  {
  }

  function Flag(b: bool): Value {
    Plain(Bool(if b then 1 else 0))
  }

  function Elements(batch: seq<WriteOp>): (r: seq<Value>)
    ensures |r| == |batch| && forall i :: 0 <= i < |batch| ==> r[i] == batch[i].Element()
  {
    seq(|batch|, i requires 0 <= i < |batch| => batch[i].Element())
  }

  /** The array of a batch, as the command holds it. */
  function ArrayOf(batch: seq<WriteOp>): Doc {
    ArrayDoc(0, Elements(batch))
  }

  datatype Outcome = Finished | TooLarge(op: WriteOp) | DoesNotFitAlone(op: WriteOp)

  /** What the server allows, and how many bytes a buffer keeps for its holder. */
  datatype Limits = Limits(maxBatch: int, maxSize: int, holder: nat) {

    /** BSONArrayBuilder::len after these operations: holder, length and the elements. */
    function Len(batch: seq<WriteOp>): nat {
      holder + 4 + |FieldsBytes(ArrayOf(batch))|
    }

    /** The test of _fits, once the operation is not too large by itself. */
    predicate Fits(batch: seq<WriteOp>, op: WriteOp) {
      op.Size() <= maxSize && Len(batch) + op.Size() + OVERHEAD <= maxSize
    }

    predicate FitsAlone(op: WriteOp) { Fits([], op) }

    lemma LenGrows(batch: seq<WriteOp>)
      ensures Len(batch) >= Len([]) == holder + 4
    {
      hide FieldsBytes;
      assert Elements([]) == [];
      EmptyFields();
    }

    /** One type, not too many, and each admitted after those before it. */
    predicate GoodBatch(batch: seq<WriteOp>) {
      && batch != []
      && (|batch| <= maxBatch || |batch| == 1)
      && forall i :: 0 <= i < |batch| ==> batch[i].Kind() == batch[0].Kind() && Fits(batch[..i], batch[i])
    }

    /** What the overhead is for: the array of a good batch stays within the maximum. */
    lemma BatchWithin(batch: seq<WriteOp>)
      requires GoodBatch(batch) && |batch| <= 0x8000_0000
      ensures Len(batch) <= maxSize && holder + |DocBytes(ArrayOf(batch))| <= maxSize + 1
    {
      hide FieldsBytes, WriteOp.Size;
      var n := |batch| - 1;
      assert Fits(batch[..n], batch[n]);
      assert batch[..n] + [batch[n]] == batch;
      ElementsAppend(batch[..n], batch[n]);
      ElementCovered(batch[n], n);
    }

    /** The operation that follows could not have been added. */
    predicate Full(batch: seq<WriteOp>, next: WriteOp)
      requires batch != []
    {
      next.Kind() != batch[0].Kind() || |batch| >= maxBatch || !Fits(batch, next)
    }
  }

  lemma ElementsAppend(batch: seq<WriteOp>, op: WriteOp)
    ensures FieldsBytes(ArrayOf(batch + [op]))
         == FieldsBytes(ArrayOf(batch)) + ElementBytes(NumStr(|batch|), op.Element())
  {
    hide FieldsBytes, ElementBytes, NumStr;
    assert Elements(batch + [op]) == Elements(batch) + [op.Element()];
    ArrayGrows(Elements(batch), op.Element());
  }

  /** An operation adds its size and a few bytes, far less than the overhead. */
  lemma ElementCovered(op: WriteOp, i: nat)
    requires i < 0x8000_0000
    ensures op.Size() <= |ElementBytes(NumStr(i), op.Element())| <= op.Size() + 60
  {
    hide NumStr, DocBytes;
    TenDigits(i);
    BodyLength(op);
  }

  lemma TenDigits(i: nat)
    requires i < 0x8000_0000
    ensures |NumStr(i)| <= 10
  {
    assert Pow10(5) == 100000;
    assert Pow10(10) == 100000 * Pow10(5);
    NumStrLength(i, 10);
  }

  lemma BodyLength(op: WriteOp)
    ensures op.Size() <= |ValueBytes(op.Element())| <= op.Size() + 45
  {
    match op.body
    case Insert(_) =>
    case Update(selector, update, multi, upsert) => UpdateLength(selector, update, multi, upsert);
    case Delete(selector, justOne) => DeleteLength(selector, justOne);
  }

  lemma DocLength(d: Doc)
    ensures |DocBytes(d)| == 5 + |FieldsBytes(d)|
  {
  }

  lemma UpdateLength(selector: Doc, update: Doc, multi: bool, upsert: bool)
    ensures |DocBytes(Field(Q, Object(selector), Field(U, Object(update),
              Field(MULTI, Flag(multi), Field(UPSERT, Flag(upsert), Nil)))))|
         == |DocBytes(selector)| + |DocBytes(update)| + 28
  {
    hide Int32Bytes, DocBytes;
    DocLength(Field(Q, Object(selector), Field(U, Object(update),
      Field(MULTI, Flag(multi), Field(UPSERT, Flag(upsert), Nil)))));
    var d3 := Field(UPSERT, Flag(upsert), Nil);
    var d2 := Field(MULTI, Flag(multi), d3);
    var d1 := Field(U, Object(update), d2);
    assert |FieldsBytes(d3)| == 9;
    assert |FieldsBytes(d2)| == 8 + 9;
    assert |FieldsBytes(d1)| == 3 + |DocBytes(update)| + 17;
  }

  lemma DeleteLength(selector: Doc, justOne: bool)
    ensures |DocBytes(Field(Q, Object(selector), Field(LIMIT, Plain(NumberInt(if justOne then 1 else 0)), Nil)))|
         == |DocBytes(selector)| + 19
  {
    hide Int32Bytes, DocBytes;
    DocLength(Field(Q, Object(selector), Field(LIMIT, Plain(NumberInt(if justOne then 1 else 0)), Nil)));
    var d1 := Field(LIMIT, Plain(NumberInt(if justOne then 1 else 0)), Nil);
    assert |FieldsBytes(d1)| == 11;
  }

  function Flatten(batches: seq<seq<WriteOp>>): seq<WriteOp> {
    if batches == [] then [] else Flatten(batches[..|batches| - 1]) + batches[|batches| - 1]
  }

  /** The first operation that does not fit a command of its own. */
  predicate FirstUnfit(l: Limits, ops: seq<WriteOp>, k: nat) {
    k < |ops| && !l.FitsAlone(ops[k]) && forall i :: 0 <= i < k ==> l.FitsAlone(ops[i])
  }

  /** The exception for an operation above the maximum, the abort for one that only lacks the overhead. */
  function Refusal(l: Limits, op: WriteOp): Outcome {
    if op.Size() > l.maxSize then TooLarge(op) else DoesNotFitAlone(op)
  }

  /** Batches that were sent, of operations that lead up to the rest. */
  ghost predicate Sent(l: Limits, batches: seq<seq<WriteOp>>, ops: seq<WriteOp>, n: nat) {
    && n <= |ops| && Flatten(batches) == ops[..n]
    && (forall k :: 0 <= k < |batches| ==> l.GoodBatch(batches[k]))
    && (forall k :: 0 <= k < |batches| - 1 ==> l.Full(batches[k], batches[k + 1][0]))
    && (batches != [] && n < |ops| ==> l.Full(batches[|batches| - 1], ops[n]))
  }

  /** The inner loop: one batch, as long as the next operation can join, and its array. */
  method FillBatch(l: Limits, ops: seq<WriteOp>, begin: nat)
    returns (end: nat, bytes: seq<byte>, outcome: Outcome)
    requires begin < |ops| && l.FitsAlone(ops[begin])
    ensures begin < end <= |ops|
    ensures outcome == Finished ==> l.GoodBatch(ops[begin..end]) && (end < |ops| ==> l.Full(ops[begin..end], ops[end]))
    ensures outcome == Finished ==> bytes == DocBytes(ArrayOf(ops[begin..end]))
    ensures outcome != Finished ==> end < |ops| && outcome == TooLarge(ops[end]) && ops[end].Size() > l.maxSize
    ensures outcome != Finished ==> forall i :: begin <= i < end ==> l.FitsAlone(ops[i])
  {
    hide FieldsBytes, ElementBytes, DocBytes, WriteOp.Size, BsonBuild.Finished, ArrayOf;
    end, bytes, outcome := begin, [], Finished;
    assert ops[begin..begin] == [];
    var buffer := new BufBuilder();
    buffer.Skip(l.holder);
    var batch := new BsonArrayBuilder(buffer);
    EmptyArray(buffer.data, l.holder);
    while true
      invariant begin <= end < |ops| && fresh(batch) && fresh(batch.b) && batch.b.b == buffer && fresh(buffer)
      invariant l.GoodBatch(ops[begin..end + 1])
      invariant batch.i == end - begin && batch.b.offset == l.holder && !batch.b.doneCalled
      invariant Built(buffer.data, l.holder, ops[begin..end])
      decreases |ops| - end
    {
      ghost var before := buffer.data;
      batch.Append(ops[end].Element());
      BuiltGrows(before, l.holder, ops, begin, end);
      end := end + 1;
      if end == |ops| {
        break;
      }
      if ops[end].Kind() != ops[begin].Kind() {
        break;
      }
      if end - begin >= l.maxBatch {
        break;
      }
      if ops[end].Size() > l.maxSize {
        outcome := TooLarge(ops[end]);
        MembersFitAlone(l, ops, begin, end);
        return;
      }
      if |buffer.data| + ops[end].Size() + OVERHEAD > l.maxSize {
        break;
      }
      BatchExtends(l, ops, begin, end);
    }
    FinishedIsDoc(buffer.data, l.holder, ArrayOf(ops[begin..end]));
    batch.b.Done();
    bytes := buffer.data[l.holder..];
  }

  /** The buffer of an array builder that holds a batch. */
  ghost predicate Built(data: seq<byte>, holder: nat, batch: seq<WriteOp>) {
    holder + 4 <= |data| && data[holder + 4..] == FieldsBytes(ArrayOf(batch))
  }

  lemma EmptyArray(data: seq<byte>, holder: nat)
    requires |data| == holder + 4
    ensures Built(data, holder, [])
  {
    hide FieldsBytes;
    assert Elements([]) == [];
    EmptyFields();
  }

  lemma BuiltGrows(data: seq<byte>, holder: nat, ops: seq<WriteOp>, begin: nat, end: nat)
    requires begin <= end < |ops| && Built(data, holder, ops[begin..end])
    ensures Built(data + ElementBytes(NumStr(end - begin), ops[end].Element()), holder, ops[begin..end + 1])
  {
    hide FieldsBytes, ElementBytes, NumStr, ArrayOf;
    assert ops[begin..end + 1] == ops[begin..end] + [ops[end]];
    ElementsAppend(ops[begin..end], ops[end]);
    var e := ElementBytes(NumStr(end - begin), ops[end].Element());
    assert (data + e)[holder + 4..] == data[holder + 4..] + e;
  }

  lemma BatchExtends(l: Limits, ops: seq<WriteOp>, begin: nat, end: nat)
    requires begin < end < |ops| && l.GoodBatch(ops[begin..end])
    requires !l.Full(ops[begin..end], ops[end])
    ensures l.GoodBatch(ops[begin..end + 1])
  {
    hide Limits.Fits, WriteOp.Kind;
    var b, c := ops[begin..end], ops[begin..end + 1];
    assert c == b + [ops[end]] && c[..|b|] == b;
    forall i | 0 <= i < |c| ensures c[i].Kind() == c[0].Kind() && l.Fits(c[..i], c[i]) {
      if i < |b| {
        assert c[i] == b[i] && c[..i] == b[..i];
      }
    }
  }

  /**
   CommandWriter::write. It finishes exactly when every operation fits into a command of its own,
   and otherwise stops for the first one that does not; the batches it has sent are good and as long
   as they can be, and lead up to where it stopped.
   */
  method Write(l: Limits, ops: seq<WriteOp>)
    returns (batches: seq<seq<WriteOp>>, arrays: seq<seq<byte>>, outcome: Outcome, n: nat)
    ensures Sent(l, batches, ops, n)
    ensures outcome == Finished <==> forall i :: 0 <= i < |ops| ==> l.FitsAlone(ops[i])
    ensures outcome == Finished ==> n == |ops| && Flatten(batches) == ops
    ensures |arrays| == |batches| && forall k :: 0 <= k < |batches| ==> arrays[k] == DocBytes(ArrayOf(batches[k]))
    ensures |ops| <= 0x8000_0000 ==> forall k :: 0 <= k < |arrays| ==> l.holder + |arrays[k]| <= l.maxSize + 1
    ensures outcome != Finished ==> exists k: nat :: FirstUnfit(l, ops, k)
    ensures forall k: nat :: FirstUnfit(l, ops, k) ==> n <= k && outcome == Refusal(l, ops[k])
    ensures forall k: nat :: FirstUnfit(l, ops, k) && outcome.DoesNotFitAlone? ==> n == k
  {
    hide Sent, Limits.GoodBatch, FirstUnfit, ArrayOf, DocBytes, WriteOp.Size, Limits.Len;
    batches, arrays, outcome, n := [], [], Finished, 0;
    l.LenGrows([]);
    NothingSent(l, ops);
    while n < |ops|
      invariant n <= |ops| && Sent(l, batches, ops, n)
      invariant outcome == Finished
      invariant forall i :: 0 <= i < n ==> l.FitsAlone(ops[i])
      invariant |arrays| == |batches| && forall k :: 0 <= k < |batches| ==> arrays[k] == DocBytes(ArrayOf(batches[k]))
      invariant |ops| <= 0x8000_0000 ==> forall k :: 0 <= k < |arrays| ==> l.holder + |arrays[k]| <= l.maxSize + 1
      decreases |ops| - n
    {
      if ops[n].Size() > l.maxSize {
        outcome := TooLarge(ops[n]);
        StopsAt(l, ops, n);
        return;
      }
      if l.holder + 4 + ops[n].Size() + OVERHEAD > l.maxSize {
        outcome := DoesNotFitAlone(ops[n]);
        StopsAt(l, ops, n);
        return;
      }
      var end, bytes;
      end, bytes, outcome := FillBatch(l, ops, n);
      if outcome != Finished {
        StopsAt(l, ops, end);
        return;
      }
      MembersFitAlone(l, ops, n, end);
      SendBatch(l, batches, ops, n, end);
      if |ops| <= 0x8000_0000 {
        l.BatchWithin(ops[n..end]);
      }
      batches, arrays := batches + [ops[n..end]], arrays + [bytes];
      n := end;
    }
    AllSent(l, batches, ops, n);
    NoneUnfit(l, ops);
  }

  lemma StopsAt(l: Limits, ops: seq<WriteOp>, k: nat)
    requires k < |ops| && !l.FitsAlone(ops[k]) && forall i :: 0 <= i < k ==> l.FitsAlone(ops[i])
    ensures FirstUnfit(l, ops, k) && forall j: nat :: FirstUnfit(l, ops, j) ==> j == k
  {
    hide Limits.FitsAlone;
  }

  lemma NoneUnfit(l: Limits, ops: seq<WriteOp>)
    requires forall i :: 0 <= i < |ops| ==> l.FitsAlone(ops[i])
    ensures forall j: nat :: !FirstUnfit(l, ops, j)
  {
    hide Limits.FitsAlone;
  }

  lemma NothingSent(l: Limits, ops: seq<WriteOp>)
    ensures Sent(l, [], ops, 0)
  {
  }

  lemma AllSent(l: Limits, batches: seq<seq<WriteOp>>, ops: seq<WriteOp>, n: nat)
    requires Sent(l, batches, ops, n) && n == |ops|
    ensures Flatten(batches) == ops
  {
    assert ops[..n] == ops;
  }

  lemma MembersFitAlone(l: Limits, ops: seq<WriteOp>, begin: nat, end: nat)
    requires begin < end <= |ops| && l.GoodBatch(ops[begin..end])
    ensures forall i :: begin <= i < end ==> l.FitsAlone(ops[i])
  {
    var b := ops[begin..end];
    forall i | begin <= i < end ensures l.FitsAlone(ops[i]) {
      assert b[i - begin] == ops[i];
      l.LenGrows(b[..i - begin]);
    }
  }

  lemma SendBatch(l: Limits, batches: seq<seq<WriteOp>>, ops: seq<WriteOp>, begin: nat, end: nat)
    requires begin < end <= |ops| && Sent(l, batches, ops, begin)
    requires l.GoodBatch(ops[begin..end]) && (end < |ops| ==> l.Full(ops[begin..end], ops[end]))
    ensures Sent(l, batches + [ops[begin..end]], ops, end)
  {
    hide Limits.GoodBatch, Limits.Full;
    var b := ops[begin..end];
    var all := batches + [b];
    assert all[..|batches|] == batches;
    assert ops[..begin] + b == ops[..end];
    assert b[0] == ops[begin];
  }

  /** With a maximum of 16 MiB, an insert whose document is 8 KiB below it stops the write. */
  method AbortsNearMaximum(doc: Doc, index: nat, maxBatch: int, holder: nat) returns (outcome: Outcome)
    requires |DocBytes(doc)| == 16777216 - 8192
    ensures outcome == DoesNotFitAlone(WriteOp(Insert(doc), index))
  {
    hide DocBytes, Limits.Len;
    var l, op := Limits(maxBatch, 16777216, holder), WriteOp(Insert(doc), index);
    l.LenGrows([]);
    assert FirstUnfit(l, [op], 0);
    var batches, arrays, n;
    batches, arrays, outcome, n := Write(l, [op]);
  }

  /** A lone operation goes through exactly when 8 KiB and the empty array leave room for it. */
  lemma FitsAloneExactly(l: Limits, op: WriteOp)
    ensures l.FitsAlone(op) <==> l.holder + 4 + op.Size() + 8192 <= l.maxSize
  {
    hide WriteOp.Size, Limits.Len;
    l.LenGrows([]);
  }

  /** Two inserts of ten million bytes under a maximum of 16 MiB go out as two commands. */
  method TwoLargeInserts(doc: Doc, maxBatch: int, holder: nat) returns (batches: seq<seq<WriteOp>>)
    requires |DocBytes(doc)| == 10000000 && holder <= 1000
    ensures batches == [[WriteOp(Insert(doc), 0)], [WriteOp(Insert(doc), 1)]]
  {
    hide DocBytes, Limits.Len, ArrayOf, FieldsBytes;
    var l, a, b := Limits(maxBatch, 16777216, holder), WriteOp(Insert(doc), 0), WriteOp(Insert(doc), 1);
    FitsAloneExactly(l, a);
    FitsAloneExactly(l, b);
    var arrays, outcome, n;
    batches, arrays, outcome, n := Write(l, [a, b]);
    TwoDoNotFit(l, a, b);
    OneEach(l, batches, a, b);
  }

  lemma TwoDoNotFit(l: Limits, a: WriteOp, b: WriteOp)
    requires a.Size() + b.Size() + OVERHEAD > l.maxSize
    ensures !l.GoodBatch([a, b])
  {
    hide FieldsBytes, WriteOp.Size, ElementBytes;
    assert [a, b][..1] == [] + [a];
    ElementsAppend([], a);
    ElementCovered(a, 0);
    assert !l.Fits([a, b][..1], [a, b][1]);
  }

  lemma OneEach(l: Limits, batches: seq<seq<WriteOp>>, a: WriteOp, b: WriteOp)
    requires Flatten(batches) == [a, b] && !l.GoodBatch([a, b])
    requires forall k :: 0 <= k < |batches| ==> l.GoodBatch(batches[k])
    ensures batches == [[a], [b]]
  {
    hide Limits.GoodBatch, Flatten;
    NonEmpty(l, batches);
    FlattenLength(batches);
    FlattenFew([], []);
    FlattenSingle(batches);
    assert |batches| == 2;
    var x, y := batches[0], batches[1];
    assert batches == [x, y];
    FlattenFew(x, y);
    assert |x| == 1 && |y| == 1;
    assert x[0] == (x + y)[0] && y[0] == (x + y)[1];
    assert x == [a] && y == [b];
  }

  lemma NonEmpty(l: Limits, batches: seq<seq<WriteOp>>)
    requires forall k :: 0 <= k < |batches| ==> l.GoodBatch(batches[k])
    ensures forall k :: 0 <= k < |batches| ==> batches[k] != []
  {
  }

  lemma FlattenSingle(batches: seq<seq<WriteOp>>)
    ensures |batches| == 1 ==> Flatten(batches) == batches[0]
  {
    if |batches| == 1 {
      assert batches == [batches[0]];
      FlattenFew(batches[0], []);
    }
  }

  lemma FlattenFew(x: seq<WriteOp>, y: seq<WriteOp>)
    ensures Flatten([]) == [] && Flatten([x]) == x && Flatten([x, y]) == x + y
  {
    assert [x][..0] == [] && [x, y][..1] == [x];
    assert [] + x == x;
  }

  lemma {:induction false} FlattenLength(batches: seq<seq<WriteOp>>)
    requires forall k :: 0 <= k < |batches| ==> batches[k] != []
    ensures |Flatten(batches)| >= |batches|
  {
    if batches != [] {
      FlattenLength(batches[..|batches| - 1]);
    }
  }

  // The bulk builder.

  ghost predicate HasIndex(ops: seq<WriteOp>, k: int) {
    exists i :: 0 <= i < |ops| && ops[i].bulkIndex == k
  }

  /** Every index below the number of operations occurs exactly once, and no other. */
  ghost predicate IndexesOnce(ops: seq<WriteOp>) {
    && DistinctKeys(ops, (op: WriteOp) => op.bulkIndex)
    && forall k :: 0 <= k < |ops| <==> HasIndex(ops, k)
  }

  predicate SortedByKind(ops: seq<WriteOp>) {
    forall i, j :: 0 <= i < j < |ops| ==> ops[i].Kind() >= ops[j].Kind()
  }

  class BulkOperationBuilder {
    const ordered: bool
    var executed: bool
    var currentIndex: nat
    var operations: seq<WriteOp>

    ghost predicate Valid()
      reads this
    {
      && currentIndex == |operations|
      && (executed || forall i :: 0 <= i < |operations| ==> operations[i].bulkIndex == i)
    }

    constructor (ordered: bool)
      ensures Valid() && !executed && operations == [] && this.ordered == ordered
    {
      this.ordered := ordered;
      executed, currentIndex, operations := false, 0, [];
    }

    method Enqueue(body: Body)
      requires Valid()
      modifies this`currentIndex, this`operations
      ensures Valid() && operations == old(operations) + [WriteOp(body, |old(operations)|)]
    {
      operations := operations + [WriteOp(body, currentIndex)];
      currentIndex := currentIndex + 1;
    }

    /** execute; false where it refuses to run again or with nothing to do. */
    method Execute(l: Limits) returns (ran: bool, batches: seq<seq<WriteOp>>, outcome: Outcome)
      requires Valid()
      modifies this`executed, this`operations
      ensures Valid() && ran == (!old(executed) && old(operations) != [])
      ensures !ran ==> batches == [] && executed == old(executed) && operations == old(operations)
      ensures ran ==> executed && multiset(operations) == multiset(old(operations))
      ensures ran ==> (if ordered then operations == old(operations) else SortedByKind(operations))
      ensures ran ==> (outcome == Finished <==> forall i :: 0 <= i < |operations| ==> l.FitsAlone(operations[i]))
      ensures ran ==> forall k: nat :: FirstUnfit(l, operations, k) ==> outcome == Refusal(l, operations[k])
      ensures ran && outcome == Finished ==> Flatten(batches) == operations && IndexesOnce(Flatten(batches))
    {
      batches, outcome := [], Finished;
      if executed || operations == [] {
        return false, batches, outcome;
      }
      executed := true;
      ghost var before := operations;
      if !ordered {
        operations := SortOperations(operations);
      }
      var arrays, n;
      batches, arrays, outcome, n := Write(l, operations);
      NumberedOnce(before);
      SameLength(before, operations);
      OnceInAnyOrder(before, operations);
      ran := true;
    }
  }

  lemma NumberedOnce(ops: seq<WriteOp>)
    requires forall i :: 0 <= i < |ops| ==> ops[i].bulkIndex == i
    ensures IndexesOnce(ops)
  {
    forall k | 0 <= k < |ops| ensures HasIndex(ops, k) {
      assert ops[k].bulkIndex == k;
    }
  }

  /** Rearranging keeps each index there once. */
  lemma OnceInAnyOrder(ops: seq<WriteOp>, other: seq<WriteOp>)
    requires IndexesOnce(ops) && multiset(ops) == multiset(other)
    ensures IndexesOnce(other)
  {
    SameLength(ops, other);
    DistinctInAnyOrder(ops, other, (op: WriteOp) => op.bulkIndex);
    forall k ensures HasIndex(ops, k) <==> HasIndex(other, k) {
      assert forall op :: op in ops <==> op in multiset(ops);
      assert forall op :: op in other <==> op in multiset(other);
      if i :| 0 <= i < |ops| && ops[i].bulkIndex == k {
        assert ops[i] in other;
      }
      if i :| 0 <= i < |other| && other[i].bulkIndex == k {
        assert other[i] in ops;
      }
    }
  }

  /** std::sort with the comparison of types, higher first; equal types in any order. */
  method SortOperations(ops: seq<WriteOp>) returns (sorted: seq<WriteOp>)
    ensures multiset(sorted) == multiset(ops) && SortedByKind(sorted)
  {
    sorted := [];
    for i := 0 to |ops|
      invariant multiset(sorted) == multiset(ops[..i]) && SortedByKind(sorted)
    {
      assert ops[..i + 1] == ops[..i] + [ops[i]];
      sorted := InsertSorted(sorted, ops[i]);
    }
    assert ops[..|ops|] == ops;
  }

  method InsertSorted(s: seq<WriteOp>, op: WriteOp) returns (r: seq<WriteOp>)
    requires SortedByKind(s)
    ensures multiset(r) == multiset(s) + multiset{op} && SortedByKind(r)
  {
    hide SortedByKind;
    var k := 0;
    while k < |s| && s[k].Kind() >= op.Kind()
      invariant 0 <= k <= |s| && forall i :: 0 <= i < k ==> s[i].Kind() >= op.Kind()
    {
      k := k + 1;
    }
    SortedAround(s, op, k);
    SameElements(s, op, k);
    r := s[..k] + [op] + s[k..];
  }

  lemma SameElements(s: seq<WriteOp>, op: WriteOp, k: nat)
    requires k <= |s|
    ensures multiset(s[..k] + [op] + s[k..]) == multiset(s) + multiset{op}
  {
    assert s == s[..k] + s[k..];
  }

  lemma SortedAround(s: seq<WriteOp>, op: WriteOp, k: nat)
    requires SortedByKind(s) && k <= |s| && (k < |s| ==> s[k].Kind() < op.Kind())
    requires forall i :: 0 <= i < k ==> s[i].Kind() >= op.Kind()
    ensures SortedByKind(s[..k] + [op] + s[k..])
  {
    var r := s[..k] + [op] + s[k..];
    assert forall i :: 0 <= i < k ==> r[i] == s[i];
    assert forall i :: k < i < |r| ==> r[i] == s[i - 1];
  }
}
