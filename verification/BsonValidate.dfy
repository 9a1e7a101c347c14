/**
 The iterative validator: a loop over a frame stack that never builds a tree, proved to
 accept exactly the buffers that start with a document.
 */
module BsonValidate {
  import opened Wrappers
  import opened Bytes
  import opened BsonTree
  import opened BsonParse

  datatype State = BeginObj | WithinObj | EndObj | BeginCodeWScope | EndCodeWScope | Done

  /** An open object or CodeWScope: a 31-bit start position sharing one word with a flag bit. */
  datatype Frame = Frame(word: nat, expectedSize: int32) {
    function StartPosition(): nat { word % 0x8000_0000 }

    predicate IsCodeWithScope() { word / 0x8000_0000 % 2 == 1 }

    function SetStartPosition(pos: nat): (f: Frame) {
      this.(word := word / 0x8000_0000 % 2 * 0x8000_0000 + pos % 0x8000_0000)
    }

    function SetIsCodeWithScope(flag: bool): (f: Frame) {
      this.(word := (if flag then 0x8000_0000 else 0) + word % 0x8000_0000)
    }
  }

  /** The two halves of the word do not disturb each other; the start loses its bit 31. */
  lemma FramePacking(f: Frame, pos: nat, flag: bool)
    ensures var g := f.SetStartPosition(pos);
      g.StartPosition() == pos % 0x8000_0000 && g.IsCodeWithScope() == f.IsCodeWithScope()
    ensures var h := f.SetIsCodeWithScope(flag);
      h.StartPosition() == f.StartPosition() && h.IsCodeWithScope() == flag
    ensures f.SetStartPosition(pos).SetIsCodeWithScope(flag).expectedSize == f.expectedSize
  {
  }

  function NewFrame(pos: nat, flag: bool, size: int32): (f: Frame)
    ensures f.StartPosition() == pos % 0x8000_0000 && f.IsCodeWithScope() == flag && f.expectedSize == size
  {
    FramePacking(Frame(0, size), pos, flag);
    Frame(0, size).SetStartPosition(pos).SetIsCodeWithScope(flag)
  }

  /** What a step that reads one value owes the reader: the same end, unless the buffer is used up. */
  ghost predicate Agrees<T>(b: seq<byte>, r: Parsed<T>, ok: bool, pos: nat) {
    && (ok && pos < |b| ==> r.Got? && r.end == pos)
    && (r.Got? && r.end < |b| ==> ok && pos == r.end)
  }

  class Buffer {
    const bytes: seq<byte>
    var position: nat

    constructor (b: seq<byte>)
      ensures bytes == b && position == 0
    {
      bytes := b;
      position := 0;
    }

    method ReadByte() returns (ok: bool, out: byte)
      modifies this
      ensures ok == (old(position) < |bytes|)
      ensures ok ==> position == old(position) + 1 && out == bytes[old(position)]
      ensures !ok ==> position == old(position)
    {
      if position + 1 > |bytes| {
        return false, 0;
      }
      out := bytes[position];
      position := position + 1;
      ok := true;
    }

    method ReadInt() returns (ok: bool, out: int32)
      modifies this
      ensures ok == (old(position) + 4 <= |bytes|)
      ensures ok ==> position == old(position) + 4
      ensures ok ==> out == ReadInt32(bytes[old(position)..old(position) + 4])
      ensures !ok ==> position == old(position)
    {
      if position + 4 > |bytes| {
        return false, 0;
      }
      out := ReadInt32(bytes[position..position + 4]);
      position := position + 4;
      ok := true;
    }

    /** True only while a byte is left after the skipped ones. */
    method Skip(n: nat) returns (ok: bool)
      modifies this
      ensures position == old(position) + n && ok == (position < |bytes|)
    {
      position := position + n;
      ok := position < |bytes|;
    }

    method ReadCString() returns (ok: bool)
      requires position <= |bytes|
      modifies this
      ensures ok == ParseCString(bytes, old(position)).Got?
      ensures ok ==> position == ParseCString(bytes, old(position)).end <= |bytes|
    {
      var nul := FindNul(bytes, position);
      if nul.None? {
        return false;
      }
      position := nul.value + 1;
      ok := true;
    }

    method ReadUtf8String() returns (ok: bool)
      modifies this
      ensures ok == ParseText(bytes, old(position)).Got?
      ensures ok ==> position == ParseText(bytes, old(position)).end
    {
      var read, size := ReadInt();
      if !read || size <= 0 {
        return false;
      }
      var skipped := Skip(size - 1);
      if !skipped {
        return false;
      }
      var last;
      read, last := ReadByte();
      ok := read && last == 0;
    }
  }

  /** The element that starts here belongs to one of these states once its name is read. */
  function StateAfterType(t: byte): State {
    if t == 0 then EndObj
    else if t == 3 || t == 4 then BeginObj
    else if t == 15 then BeginCodeWScope
    else WithinObj
  }

  /** Type byte and name, then the value if it holds no document. */
  method ValidateElementInfo(buffer: Buffer) returns (ok: bool, next: State)
    modifies buffer
    ensures var p := old(buffer.position); var b := buffer.bytes;
      if p >= |b| then !ok
      else if b[p] == 0 then ok && next == EndObj && buffer.position == p + 1
      else
        && next == StateAfterType(b[p])
        && (ok ==> buffer.position > p)
        && (next == WithinObj ==> Agrees(b, ParseElement(b, p), ok, buffer.position))
        && (next != WithinObj ==> ok == ParseCString(b, p + 1).Got?)
        && (ok && next != WithinObj ==> buffer.position == ParseCString(b, p + 1).end)
  {
    next := WithinObj;
    var t;
    ok, t := buffer.ReadByte();
    if !ok {
      return;
    }
    next := StateAfterType(t);
    if t == 0 {
      return;
    }
    ok := buffer.ReadCString();
    if ok && next == WithinObj {
      ElementWithScalar(buffer.bytes, old(buffer.position));
      ok := ValidateScalar(buffer, t);
    }
  }

  lemma ElementWithScalar(b: seq<byte>, p: nat)
    requires p < |b| && StateAfterType(b[p]) == WithinObj && ParseCString(b, p + 1).Got?
    ensures var r := ParseScalar(b, ParseCString(b, p + 1).end, b[p]); var e := ParseElement(b, p);
      e.Got? == r.Got? && (r.Got? ==> e.end == r.end)
  {
  }

  method ValidateScalar(buffer: Buffer, t: byte) returns (ok: bool)
    requires buffer.position <= |buffer.bytes|
    modifies buffer
    ensures Agrees(buffer.bytes, ParseScalar(buffer.bytes, old(buffer.position), t), ok, buffer.position)
    ensures ok ==> old(buffer.position) <= buffer.position
  {
    if t == 255 || t == 127 || t == 10 || t == 6 {
      ok := true;
    } else if t == 7 {
      ok := buffer.Skip(12);
    } else if t == 16 {
      ok := buffer.Skip(4);
    } else if t == 8 {
      ok := buffer.Skip(1);
    } else if t == 1 || t == 18 || t == 17 || t == 9 {
      ok := buffer.Skip(8);
    } else if t == 12 {
      ok := buffer.ReadUtf8String();
      if ok {
        var ignored := buffer.Skip(12);
      }
    } else if t == 11 {
      ok := buffer.ReadCString();
      if ok {
        ok := buffer.ReadCString();
      }
    } else if t == 13 || t == 14 || t == 2 {
      ok := buffer.ReadUtf8String();
    } else if t == 5 {
      var size;
      ok, size := buffer.ReadInt();
      if !ok || size < 0 || size == 0x7fff_ffff {
        return false;
      }
      ok := buffer.Skip(1 + size);
    } else {
      ok := false;
    }
  }

  /** int actualLength = position - start, in 32 bits. */
  function ActualLength(position: nat, f: Frame): int32 {
    ToSigned32(ToUnsigned32(position - f.StartPosition()))
  }

  // What the rest of the run comes to, said with the recursive reader.

  /** The top object still has fields from p on. */
  ghost function Resume(b: seq<byte>, p: nat, frames: seq<Frame>): (r: Option<nat>)
    requires frames != []
    ensures r.Some? && frames[0].StartPosition() == 0 ==> p <= r.value < INT32_LIMIT
    decreases |frames|, 1
  {
    var top := frames[|frames| - 1];
    match ParseFields(b, p)
    case Fail => None
    case Got(_, e) =>
      if e - top.StartPosition() != top.expectedSize then None
      else AfterDoc(b, e, frames[..|frames| - 1])
  }

  /** A document has just ended at e inside the frames that remain. */
  ghost function AfterDoc(b: seq<byte>, e: nat, frames: seq<Frame>): (r: Option<nat>)
    ensures r.Some? && frames != [] && frames[0].StartPosition() == 0 ==> e <= r.value < INT32_LIMIT
    ensures frames == [] ==> r == Some(e)
    decreases |frames|, 2
  {
    if frames == [] then Some(e)
    else
      var top := frames[|frames| - 1];
      if !top.IsCodeWithScope() then Resume(b, e, frames)
      else if e - top.StartPosition() != top.expectedSize || |frames| == 1 then None
      else Resume(b, e, frames[..|frames| - 1])
  }

  /** What a run that is in this state will answer. */
  ghost function Outcome(b: seq<byte>, state: State, p: nat, frames: seq<Frame>): Option<nat>
    requires state.WithinObj? || state.EndObj? || state.BeginCodeWScope? || state.EndCodeWScope? ==> frames != []
    requires p <= |b| || state.WithinObj?
  {
    match state
    case BeginObj =>
      (match ParseDoc(b, p)
       case Fail => None
       case Got(_, e) => AfterDoc(b, e, frames))
    case WithinObj => Resume(b, p, frames)
    case EndObj =>
      var top := frames[|frames| - 1];
      if p - top.StartPosition() != top.expectedSize then None
      else AfterDoc(b, p, frames[..|frames| - 1])
    case BeginCodeWScope =>
      (match ParseCodeWScope(b, p)
       case Fail => None
       case Got(_, e) => Resume(b, e, frames))
    case EndCodeWScope => AfterDoc(b, p, frames)
    case Done => Some(p)
  }

  lemma OutcomeBounded(b: seq<byte>, state: State, p: nat, frames: seq<Frame>)
    requires frames != [] && frames[0].StartPosition() == 0 && !frames[0].IsCodeWithScope()
    requires p <= |b| || state.WithinObj?
    requires state != Done
    ensures var r := Outcome(b, state, p, frames); r.Some? ==> p <= r.value < INT32_LIMIT
  {
  }

  lemma StepBeginObj(b: seq<byte>, p: nat, frames: seq<Frame>, f: Frame)
    requires p + 4 <= |b| && f.StartPosition() == p && f.expectedSize == ReadInt32(b[p..p + 4])
    ensures Outcome(b, BeginObj, p, frames) == Outcome(b, WithinObj, p + 4, frames + [f])
  {
    assert (frames + [f])[..|frames|] == frames;
  }

  lemma StepElement(b: seq<byte>, p: nat, frames: seq<Frame>, ok: bool, next: State, q: nat)
    requires frames != [] && !frames[|frames| - 1].IsCodeWithScope()
    requires p < |b| && next == StateAfterType(b[p])
    requires next == EndObj ==> ok && q == p + 1
    requires next == WithinObj ==> Agrees(b, ParseElement(b, p), ok, q)
    requires next == BeginObj || next == BeginCodeWScope ==> ok == ParseCString(b, p + 1).Got?
    requires next == BeginObj || next == BeginCodeWScope ==> ok ==> q == ParseCString(b, p + 1).end
    ensures Resume(b, p, frames) == if ok then Outcome(b, next, q, frames) else None
  {
    if next == EndObj {
      assert ParseFields(b, p) == Got(Nil, p + 1);
    } else {
      ResumeAfterElement(b, p, frames);
      if next != WithinObj && ok {
        ElementWithDoc(b, p);
      }
    }
  }

  lemma ResumeAfterElement(b: seq<byte>, p: nat, frames: seq<Frame>)
    requires frames != [] && p < |b| && b[p] != 0
    ensures var r := ParseElement(b, p);
      Resume(b, p, frames) == if r.Fail? then None else Resume(b, r.end, frames)
  {
  }

  lemma ResumeAtEnd(b: seq<byte>, p: nat, frames: seq<Frame>)
    requires frames != [] && p >= |b|
    ensures Resume(b, p, frames) == None
  {
  }

  lemma ElementWithDoc(b: seq<byte>, p: nat)
    requires p < |b| && ParseCString(b, p + 1).Got?
    requires b[p] == 3 || b[p] == 4 || b[p] == 15
    ensures var q := ParseCString(b, p + 1).end; var e := ParseElement(b, p);
      if b[p] == 15 then
        e.Got? == ParseCodeWScope(b, q).Got? && (e.Got? ==> e.end == ParseCodeWScope(b, q).end)
      else
        e.Got? == ParseDoc(b, q).Got? && (e.Got? ==> e.end == ParseDoc(b, q).end)
  {
  }

  lemma StepBeginCodeWScope(b: seq<byte>, p: nat, frames: seq<Frame>, f: Frame)
    requires frames != []
    requires p + 4 <= |b| && f.StartPosition() == p && f.expectedSize == ReadInt32(b[p..p + 4])
    requires f.IsCodeWithScope()
    ensures var r := ParseText(b, p + 4);
      Outcome(b, BeginCodeWScope, p, frames)
      == if r.Fail? then None else Outcome(b, BeginObj, r.end, frames + [f])
  {
    assert (frames + [f])[..|frames|] == frames;
  }

  lemma StepEndObj(b: seq<byte>, p: nat, frames: seq<Frame>, next: State)
    requires frames != [] && p <= |b|
    requires var left := frames[..|frames| - 1];
      next == if left == [] then Done
              else if left[|left| - 1].IsCodeWithScope() then EndCodeWScope else WithinObj
    ensures var top := frames[|frames| - 1];
      Outcome(b, EndObj, p, frames)
      == if p - top.StartPosition() != top.expectedSize then None
         else Outcome(b, next, p, frames[..|frames| - 1])
  {
  }

  lemma StepEndCodeWScope(b: seq<byte>, p: nat, frames: seq<Frame>)
    requires |frames| > 1 && p <= |b| && frames[|frames| - 1].IsCodeWithScope()
    ensures var top := frames[|frames| - 1];
      Outcome(b, EndCodeWScope, p, frames)
      == if p - top.StartPosition() != top.expectedSize then None
         else Outcome(b, WithinObj, p, frames[..|frames| - 1])
  {
  }

  lemma ActualLengthExact(p: nat, f: Frame)
    requires p < INT32_LIMIT
    ensures ActualLength(p, f) == p - f.StartPosition()
  {
    SignedOfUnsigned32(p - f.StartPosition());
  }

  /** The answer of the recursive reader to the whole buffer. */
  ghost function Target(b: seq<byte>): Option<nat> {
    match ParseDoc(b, 0)
    case Fail => None
    case Got(_, e) => Some(e)
  }

  /** Which frames can be open in which state. */
  ghost predicate Shape(b: seq<byte>, state: State, p: nat, frames: seq<Frame>) {
    && (p <= |b| || state.WithinObj?)
    && (frames != [] ==> frames[0].StartPosition() == 0 && !frames[0].IsCodeWithScope())
    && (frames == [] ==> state.Done? || (state.BeginObj? && p == 0))
    && (state.Done? ==> frames == [])
    && (state.WithinObj? || state.EndObj? || state.BeginCodeWScope? ==> !frames[|frames| - 1].IsCodeWithScope())
    && (state.EndCodeWScope? ==> frames[|frames| - 1].IsCodeWithScope())
    && (forall i :: 0 < i < |frames| && frames[i].IsCodeWithScope() ==> !frames[i - 1].IsCodeWithScope())
  }

  /** What holds each time round the loop. */
  ghost predicate OnCourse(b: seq<byte>, state: State, p: nat, frames: seq<Frame>) {
    && Shape(b, state, p, frames)
    && Target(b) == if p < INT32_LIMIT then Outcome(b, state, p, frames) else None
  }

  lemma Advance(b: seq<byte>, state: State, p: nat, frames: seq<Frame>, state': State, p': nat, frames': seq<Frame>)
    requires OnCourse(b, state, p, frames) && Shape(b, state', p', frames') && p <= p'
    requires state'.Done? ==> p' == p
    requires state'.BeginObj? ==> frames' != []
    requires p < INT32_LIMIT ==> Outcome(b, state, p, frames) == Outcome(b, state', p', frames')
    ensures OnCourse(b, state', p', frames')
  {
    hide Outcome, Resume, AfterDoc;
    if p' >= INT32_LIMIT && p < INT32_LIMIT {
      OutcomeBounded(b, state', p', frames');
    }
  }

  /** One case of the switch: it stays on course, or the buffer holds no document. */
  ghost predicate StepDone(b: seq<byte>, ok: bool, state: State, p: nat, frames: seq<Frame>) {
    if ok then OnCourse(b, state, p, frames) else Target(b) == None
  }

  method PushObject(buffer: Buffer, open: seq<Frame>) returns (ok: bool, frames: seq<Frame>)
    requires OnCourse(buffer.bytes, BeginObj, buffer.position, open)
    modifies buffer
    ensures StepDone(buffer.bytes, ok, WithinObj, buffer.position, frames)
    ensures ok ==> old(buffer.position) < buffer.position <= |buffer.bytes|
  {
    hide Resume, AfterDoc, Frame.StartPosition, Frame.IsCodeWithScope;
    ghost var b := buffer.bytes;
    var p := buffer.position;
    var size;
    ok, size := buffer.ReadInt();
    var frame := NewFrame(p, false, size);
    frames := open + [frame];
    if ok {
      if p < INT32_LIMIT {
        StepBeginObj(b, p, open, frame);
      }
      Advance(b, BeginObj, p, open, WithinObj, buffer.position, frames);
    }
  }

  method TakeElement(buffer: Buffer, frames: seq<Frame>) returns (ok: bool, next: State)
    requires OnCourse(buffer.bytes, WithinObj, buffer.position, frames)
    modifies buffer
    ensures StepDone(buffer.bytes, ok, next, buffer.position, frames)
    ensures ok ==> old(buffer.position) < buffer.position && old(buffer.position) < |buffer.bytes|
  {
    hide ParseElement, Resume;
    ghost var p, b := buffer.position, buffer.bytes;
    ok, next := ValidateElementInfo(buffer);
    if p < |b| {
      StepElement(b, p, frames, ok, next, buffer.position);
      if ok {
        Advance(b, WithinObj, p, frames, next, buffer.position, frames);
      }
    } else {
      ResumeAtEnd(b, p, frames);
    }
  }

  method PopObject(position: nat, open: seq<Frame>, ghost b: seq<byte>)
    returns (ok: bool, state: State, frames: seq<Frame>)
    requires OnCourse(b, EndObj, position, open)
    ensures StepDone(b, ok, state, position, frames)
    ensures ok ==> |frames| < |open|
  {
    hide Resume, AfterDoc;
    var curr := open[|open| - 1];
    frames := open[..|open| - 1];
    if frames == [] {
      state := Done;
    } else if frames[|frames| - 1].IsCodeWithScope() {
      state := EndCodeWScope;
    } else {
      state := WithinObj;
    }
    ok := ActualLength(position, curr) == curr.expectedSize;
    StepEndObj(b, position, open, state);
    if position < INT32_LIMIT {
      ActualLengthExact(position, curr);
    }
    if ok {
      Advance(b, EndObj, position, open, state, position, frames);
    }
  }

  method PushCodeWScope(buffer: Buffer, open: seq<Frame>) returns (ok: bool, frames: seq<Frame>)
    requires OnCourse(buffer.bytes, BeginCodeWScope, buffer.position, open)
    modifies buffer
    ensures StepDone(buffer.bytes, ok, BeginObj, buffer.position, frames)
    ensures ok ==> old(buffer.position) < buffer.position <= |buffer.bytes|
  {
    hide Resume, AfterDoc, Frame.StartPosition, Frame.IsCodeWithScope;
    ghost var b := buffer.bytes;
    var p := buffer.position;
    var size;
    ok, size := buffer.ReadInt();
    var frame := NewFrame(p, true, size);
    frames := open + [frame];
    if ok {
      ok := buffer.ReadUtf8String();
      if p < INT32_LIMIT {
        StepBeginCodeWScope(b, p, open, frame);
      }
      if ok {
        Advance(b, BeginCodeWScope, p, open, BeginObj, buffer.position, frames);
      }
    }
  }

  /** The frame left below is never missing: the "unnested" error cannot happen. */
  method PopCodeWScope(position: nat, open: seq<Frame>, ghost b: seq<byte>) returns (ok: bool, frames: seq<Frame>)
    requires OnCourse(b, EndCodeWScope, position, open)
    ensures StepDone(b, ok, WithinObj, position, frames)
    ensures frames != [] && |frames| < |open|
  {
    hide Resume, AfterDoc;
    var curr := open[|open| - 1];
    frames := open[..|open| - 1];
    ok := ActualLength(position, curr) == curr.expectedSize;
    StepEndCodeWScope(b, position, open);
    if position < INT32_LIMIT {
      ActualLengthExact(position, curr);
    }
    if ok {
      Advance(b, EndCodeWScope, position, open, WithinObj, position, frames);
    }
  }

  method ValidateBsonIterative(buffer: Buffer) returns (ok: bool)
    requires buffer.position == 0
    modifies buffer
    ensures ParseDoc(buffer.bytes, 0).Got? <==> ok && buffer.position < INT32_LIMIT
    ensures ParseDoc(buffer.bytes, 0).Got? ==> buffer.position == ParseDoc(buffer.bytes, 0).end
    ensures ok ==> buffer.position <= |buffer.bytes|
  {
    hide Resume, ParseDoc;
    var b := buffer.bytes;
    var frames: seq<Frame> := [];
    var state := BeginObj;
    while state != Done
      invariant OnCourse(b, state, buffer.position, frames)
      decreases if buffer.position <= |b| then |b| - buffer.position else 0, |frames|
    {
      match state {
        case BeginObj =>
          ok, frames := PushObject(buffer, frames);
          state := WithinObj;
        case WithinObj =>
          ok, state := TakeElement(buffer, frames);
        case EndObj =>
          ok, state, frames := PopObject(buffer.position, frames, b);
        case BeginCodeWScope =>
          ok, frames := PushCodeWScope(buffer, frames);
          state := BeginObj;
        case EndCodeWScope =>
          ok, frames := PopCodeWScope(buffer.position, frames, b);
          state := WithinObj;
      }
      if !ok {
        return;
      }
    }
    ok := true;
  }

  method ValidateBson(original: seq<byte>) returns (ok: bool, end: nat)
    ensures (exists d :: IsDocPrefix(original, d)) <==> ok && end < INT32_LIMIT
    ensures forall d :: IsDocPrefix(original, d) ==> ok && end == |DocBytes(d)|
    ensures |original| < INT32_LIMIT ==> (ok <==> exists d :: IsDocPrefix(original, d))
  {
    if |original| < 5 {
      forall d ensures !IsDocPrefix(original, d) {
      }
      return false, 0;
    }
    var buffer := new Buffer(original);
    ok := ValidateBsonIterative(buffer);
    end := buffer.position;
    forall d | IsDocPrefix(original, d)
      ensures ParseDoc(original, 0) == Got(d, |DocBytes(d)|)
    {
      ParseDocExact(original, 0, d, |DocBytes(d)|);
    }
    if ParseDoc(original, 0).Got? {
      var r := ParseDoc(original, 0);
      ParseDocExact(original, 0, r.tree, r.end);
      assert IsDocPrefix(original, r.tree);
    }
  }

  /** The buffer starts with the document d. */
  ghost predicate IsDocPrefix(b: seq<byte>, d: Doc) {
    DocBytes(d) <= b && |DocBytes(d)| < INT32_LIMIT
  }
}
