/**
 GridFS: files cut into numbered chunks. The streaming builder keeps a partial chunk between
 calls and, in one case, drops the end of what it is given.
 */
module GridFs {
  import opened Wrappers
  import opened Bytes
  import opened Arithmetic

  /** A chunk document: which file, which number, which bytes. */
  datatype Chunk = Chunk(fileId: nat, n: nat, data: seq<byte>)

  /** The record insertFile writes. */
  datatype File = File(id: nat, chunkSize: nat, length: nat)

  class GridFS {
    const chunkSize: nat
    var chunks: seq<Chunk>

    constructor (chunkSize: nat)
      ensures this.chunkSize == chunkSize && chunks == []
    {
      this.chunkSize := chunkSize;
      chunks := [];
    }

    method InsertChunk(c: Chunk)
      modifies this
      ensures chunks == old(chunks) + [c]
    {
      chunks := chunks + [c];
    }
  }

  /** data in pieces of the chunk size, numbered from n on; the last may be short. */
  function Cut(id: nat, n: nat, data: seq<byte>, chunkSize: nat): (r: seq<Chunk>)
    requires chunkSize > 0
    decreases |data|
  {
    if data == [] then []
    else if |data| <= chunkSize then [Chunk(id, n, data)]
    else [Chunk(id, n, data[..chunkSize])] + Cut(id, n + 1, data[chunkSize..], chunkSize)
  }

  /** The bytes of the given chunks in turn. */
  function Joined(chunks: seq<Chunk>): seq<byte> {
    if chunks == [] then [] else chunks[0].data + Joined(chunks[1..])
  }

  function CeilDiv(a: nat, b: nat): nat
    requires b > 0
  {
    (a + b - 1) / b
  }

  /** Chunks of one file numbered from n on, all full but perhaps the last, none empty. */
  predicate WellNumbered(chunks: seq<Chunk>, id: nat, n: nat, chunkSize: nat) {
    forall i :: 0 <= i < |chunks| ==>
      && chunks[i].fileId == id && chunks[i].n == n + i
      && 0 < |chunks[i].data| <= chunkSize && (i + 1 < |chunks| ==> |chunks[i].data| == chunkSize)
  }

  lemma {:induction false} CutJoins(id: nat, n: nat, data: seq<byte>, chunkSize: nat)
    requires chunkSize > 0
    ensures Joined(Cut(id, n, data, chunkSize)) == data
    ensures |Cut(id, n, data, chunkSize)| == CeilDiv(|data|, chunkSize)
    ensures WellNumbered(Cut(id, n, data, chunkSize), id, n, chunkSize)
    decreases |data|
  {
    hide CeilDiv;
    CeilDivStep(|data|, chunkSize);
    if 0 < |data| <= chunkSize {
      assert Joined([Chunk(id, n, data)][1..]) == [];
    } else if data != [] {
      hide WellNumbered;
      var rest := Cut(id, n + 1, data[chunkSize..], chunkSize);
      CutJoins(id, n + 1, data[chunkSize..], chunkSize);
      NumberedBefore(Chunk(id, n, data[..chunkSize]), rest, chunkSize);
      assert Cut(id, n, data, chunkSize)[1..] == rest;
      assert data[..chunkSize] + data[chunkSize..] == data;
    }
  }

  lemma NumberedBefore(c: Chunk, rest: seq<Chunk>, chunkSize: nat)
    requires 0 < |c.data| == chunkSize && WellNumbered(rest, c.fileId, c.n + 1, chunkSize)
    ensures WellNumbered([c] + rest, c.fileId, c.n, chunkSize)
  {
    assert forall i :: 0 < i <= |rest| ==> ([c] + rest)[i] == rest[i - 1];
  }

  lemma DivSmall(a: nat, b: nat)
    requires a < b
    ensures a / b == 0
  {
  }

  /** The whole chunks of a piece of data. */
  function WholePart(length: nat, chunkSize: nat): (n: nat)
    requires chunkSize > 0
    ensures n <= length < n + chunkSize
  {
    length - length % chunkSize
  }

  lemma WholePartStep(length: nat, chunkSize: nat)
    requires chunkSize > 0
    ensures length < chunkSize ==> WholePart(length, chunkSize) == 0
    ensures length >= chunkSize ==> WholePart(length, chunkSize) == chunkSize + WholePart(length - chunkSize, chunkSize)
  {
    if length >= chunkSize {
      DivideStep(length - chunkSize, chunkSize);
    } else {
      DivideUnique(length, chunkSize, 0, length);
    }
  }

  lemma CeilDivStep(length: nat, chunkSize: nat)
    requires chunkSize > 0
    ensures length == 0 ==> CeilDiv(length, chunkSize) == 0
    ensures 0 < length <= chunkSize ==> CeilDiv(length, chunkSize) == 1
    ensures length >= chunkSize ==> CeilDiv(length, chunkSize) == 1 + CeilDiv(length - chunkSize, chunkSize)
  {
    if length == 0 {
      DivSmall(chunkSize - 1, chunkSize);
    } else {
      DivideStep(length - 1, chunkSize);
      if length <= chunkSize {
        DivSmall(length - 1, chunkSize);
      }
    }
  }

  lemma CutNext(id: nat, n: nat, s: seq<byte>, len: nat, chunkSize: nat)
    requires 0 < len <= |s| && len <= chunkSize && (len == chunkSize || len == |s|)
    ensures Cut(id, n, s, chunkSize) == [Chunk(id, n, s[..len])] + Cut(id, n + 1, s[len..], chunkSize)
  {
    if |s| == len {
      assert s[..len] == s;
    }
  }

  class GridFileBuilder {
    const grid: GridFS
    const chunkSize: nat
    var currentChunk: nat
    var fileId: nat
    const pendingData: array<byte>
    var pendingDataSize: nat
    var fileLength: nat

    ghost predicate Valid()
      reads this
    {
      chunkSize > 0 && pendingData.Length == chunkSize && pendingDataSize < chunkSize
    }

    function Pending(): seq<byte>
      requires pendingDataSize <= pendingData.Length
      reads this, pendingData
    {
      pendingData[..pendingDataSize]
    }

    constructor (grid: GridFS, id: nat)
      requires grid.chunkSize > 0
      ensures Valid() && fresh(pendingData) && this.grid == grid && chunkSize == grid.chunkSize
      ensures fileId == id && currentChunk == 0 && fileLength == 0 && Pending() == []
    {
      this.grid := grid;
      chunkSize := grid.chunkSize;
      currentChunk := 0;
      pendingData := new byte[grid.chunkSize];
      pendingDataSize := 0;
      fileLength := 0;
      fileId := id;
    }

    /** _appendChunk: stores what fills chunks, all of it when forced, and returns what is left. */
    method StoreChunks(data: seq<byte>, forcePendingInsert: bool) returns (rest: seq<byte>)
      requires chunkSize > 0
      modifies grid, this`currentChunk, this`fileLength
      ensures var n := if forcePendingInsert then |data| else WholePart(|data|, chunkSize);
        && rest == data[n..]
        && grid.chunks == old(grid.chunks) + Cut(fileId, old(currentChunk), data[..n], chunkSize)
        && currentChunk == old(currentChunk) + CeilDiv(n, chunkSize)
        && fileLength == old(fileLength) + n
    {
      hide WholePart, CeilDiv, Cut;
      ghost var n := if forcePendingInsert then |data| else WholePart(|data|, chunkSize);
      var pos := 0;
      CeilDivStep(0, chunkSize);
      while pos < |data|
        invariant 0 <= pos <= n <= |data|
        invariant !forcePendingInsert ==> n == pos + WholePart(|data| - pos, chunkSize)
        invariant grid.chunks + Cut(fileId, currentChunk, data[pos..n], chunkSize)
               == old(grid.chunks) + Cut(fileId, old(currentChunk), data[..n], chunkSize)
        invariant currentChunk + CeilDiv(n - pos, chunkSize) == old(currentChunk) + CeilDiv(n, chunkSize)
        invariant fileLength == old(fileLength) + pos
      {
        var chunkLen := if chunkSize < |data| - pos then chunkSize else |data| - pos;
        WholePartStep(|data| - pos, chunkSize);
        CeilDivStep(n - pos, chunkSize);
        if chunkLen < chunkSize && !forcePendingInsert {
          break;
        }
        CutNext(fileId, currentChunk, data[pos..n], chunkLen, chunkSize);
        assert data[pos..n][..chunkLen] == data[pos..pos + chunkLen];
        assert data[pos..n][chunkLen..] == data[pos + chunkLen..n];
        grid.InsertChunk(Chunk(fileId, currentChunk, data[pos..pos + chunkLen]));
        currentChunk := currentChunk + 1;
        pos := pos + chunkLen;
        fileLength := fileLength + chunkLen;
      }
      rest := data[pos..];
      CeilDivStep(n - pos, chunkSize);
      NothingToCut(fileId, currentChunk, chunkSize);
      assert pos == n && data[pos..n] == [];
    }

    /** _appendPendingData */
    method StorePending()
      requires chunkSize > 0 && pendingDataSize <= pendingData.Length
      modifies grid, this`currentChunk, this`fileLength, this`pendingDataSize
      ensures pendingDataSize == 0
      ensures var p := old(Pending());
        && grid.chunks == old(grid.chunks) + Cut(fileId, old(currentChunk), p, chunkSize)
        && currentChunk == old(currentChunk) + CeilDiv(|p|, chunkSize)
        && fileLength == old(fileLength) + |p|
    {
      CeilDivStep(pendingDataSize, chunkSize);
      if pendingDataSize > 0 {
        var all := Pending();
        var rest := StoreChunks(all, true);
        assert all[..|all|] == all;
        pendingDataSize := 0;
      }
    }

    /** memcpy to the end of the pending bytes. */
    method AddPending(data: seq<byte>)
      requires pendingDataSize + |data| <= pendingData.Length
      modifies pendingData, this`pendingDataSize
      ensures pendingDataSize == old(pendingDataSize) + |data| && Pending() == old(Pending()) + data
    {
      forall i | 0 <= i < |data| {
        pendingData[pendingDataSize + i] := data[i];
      }
      pendingDataSize := pendingDataSize + |data|;
    }

    /** appendChunk: whole chunks are stored; the rest is kept, or dropped if a pending chunk was completed. */
    method AppendChunk(data: seq<byte>)
      requires Valid()
      modifies grid, this`currentChunk, this`fileLength, this`pendingDataSize, pendingData
      ensures Valid()
      ensures var s := Appended(old(Pending()), data, chunkSize);
        && Pending() == s.pending
        && grid.chunks == old(grid.chunks) + Cut(fileId, old(currentChunk), s.stored, chunkSize)
        && currentChunk == old(currentChunk) + CeilDiv(|s.stored|, chunkSize)
        && fileLength == old(fileLength) + |s.stored|
    {
      hide Appended, CeilDiv, Cut;
      if |data| == 0 {
        AppendedCases(Pending(), data, chunkSize);
        CeilDivStep(0, chunkSize);
        NothingToCut(fileId, currentChunk, chunkSize);
      } else if pendingDataSize > 0 {
        FillPending(data);
      } else {
        AppendedCases([], data, chunkSize);
        var rest := StoreChunks(data, false);
        if rest != [] {
          AddPending(rest);
        }
      }
    }

    /** The branch of appendChunk for a pending chunk. */
    method FillPending(data: seq<byte>)
      requires Valid() && pendingDataSize > 0
      modifies grid, this`currentChunk, this`fileLength, this`pendingDataSize, pendingData
      ensures Valid()
      ensures var s := Appended(old(Pending()), data, chunkSize);
        && Pending() == s.pending
        && grid.chunks == old(grid.chunks) + Cut(fileId, old(currentChunk), s.stored, chunkSize)
        && currentChunk == old(currentChunk) + CeilDiv(|s.stored|, chunkSize)
        && fileLength == old(fileLength) + |s.stored|
    {
      hide Appended, CeilDiv, Cut, WholePart;
      ghost var total := Pending() + data;
      AppendedCases(Pending(), data, chunkSize);
      var totalSize := pendingDataSize + |data|;
      var size := (if chunkSize < totalSize then chunkSize else totalSize) - pendingDataSize;
      AddPending(data[..size]);
      assert Pending() == total[..pendingDataSize];
      if pendingDataSize == chunkSize {
        StorePending();
        assert data[size..] == total[chunkSize..];
        CutsTogether(fileId, old(currentChunk), total, chunkSize);
        var ignored := StoreChunks(data[size..], false);
      } else {
        assert Pending() == total;
        CeilDivStep(0, chunkSize);
        NothingToCut(fileId, currentChunk, chunkSize);
      }
    }

    /** buildFile: what is pending becomes the last chunk, and the builder starts a new file. */
    method BuildFile(nextId: nat) returns (file: File)
      requires Valid()
      modifies grid, this`currentChunk, this`fileLength, this`pendingDataSize, this`fileId
      ensures Valid() && Pending() == [] && currentChunk == 0 && fileLength == 0 && fileId == nextId
      ensures file == File(old(fileId), chunkSize, old(fileLength) + |old(Pending())|)
      ensures grid.chunks == old(grid.chunks) + Cut(old(fileId), old(currentChunk), old(Pending()), chunkSize)
    {
      StorePending();
      file := File(fileId, chunkSize, fileLength);
      currentChunk, pendingDataSize, fileLength, fileId := 0, 0, 0, nextId;
    }
  }

  /** What one call of appendChunk stores and what it keeps pending. */
  datatype Kept = Kept(stored: seq<byte>, pending: seq<byte>)

  function Appended(pending: seq<byte>, data: seq<byte>, chunkSize: nat): Kept
    requires chunkSize > 0
  {
    var total := pending + data;
    var n := WholePart(|total|, chunkSize);
    Kept(total[..n], if Loss(pending, data, chunkSize) > 0 then [] else total[n..])
  }

  /** How many bytes a call drops: the leftover, when it completes a chunk that was pending. */
  function Loss(pending: seq<byte>, data: seq<byte>, chunkSize: nat): nat
    requires chunkSize > 0
  {
    if pending != [] && |pending| + |data| >= chunkSize then (|pending| + |data|) % chunkSize else 0
  }

  lemma AppendedCases(pending: seq<byte>, data: seq<byte>, chunkSize: nat)
    requires |pending| < chunkSize
    ensures var total := pending + data; var w := WholePart(|total|, chunkSize);
      Appended(pending, data, chunkSize)
      == if |total| < chunkSize then Kept([], total)
         else if pending == [] then Kept(data[..w], data[w..])
         else Kept(total[..w], [])
  {
    hide WholePart;
    var total := pending + data;
    WholePartStep(|total|, chunkSize);
    assert pending == [] ==> total == data;
    assert |total| % chunkSize == 0 ==> total[WholePart(|total|, chunkSize)..] == [] by {
      WholePartExact(|total|, chunkSize);
    }
  }

  lemma WholePartExact(length: nat, chunkSize: nat)
    requires chunkSize > 0
    ensures length % chunkSize == 0 ==> WholePart(length, chunkSize) == length
  {
  }

  lemma NothingToCut(id: nat, n: nat, chunkSize: nat)
    requires chunkSize > 0
    ensures Cut(id, n, [], chunkSize) == []
  {
  }

  /** A completed pending chunk and the whole chunks after it are the whole chunks of both together. */
  lemma CutsTogether(id: nat, n: nat, total: seq<byte>, chunkSize: nat)
    requires chunkSize > 0 && |total| >= chunkSize
    ensures var m := WholePart(|total| - chunkSize, chunkSize); var w := WholePart(|total|, chunkSize);
      && w == chunkSize + m
      && Cut(id, n, total[..w], chunkSize)
         == Cut(id, n, total[..chunkSize], chunkSize) + Cut(id, n + 1, total[chunkSize..][..m], chunkSize)
      && CeilDiv(chunkSize, chunkSize) == 1 && CeilDiv(w, chunkSize) == 1 + CeilDiv(m, chunkSize)
  {
    hide WholePart, CeilDiv;
    WholePartStep(|total|, chunkSize);
    var w := WholePart(|total|, chunkSize);
    CeilDivStep(chunkSize, chunkSize);
    CeilDivStep(w, chunkSize);
    var whole := total[..w];
    assert whole[..chunkSize] == total[..chunkSize];
    assert whole[chunkSize..] == total[chunkSize..][..w - chunkSize];
  }

  // Runs of the builder.

  function Concat(calls: seq<seq<byte>>): seq<byte> {
    if calls == [] then [] else Concat(calls[..|calls| - 1]) + calls[|calls| - 1]
  }

  /** What a run of appendChunk calls has stored and holds pending. */
  function RunKept(calls: seq<seq<byte>>, chunkSize: nat): Kept
    requires chunkSize > 0
  {
    if calls == [] then Kept([], [])
    else
      var s := RunKept(calls[..|calls| - 1], chunkSize);
      var a := Appended(s.pending, calls[|calls| - 1], chunkSize);
      Kept(s.stored + a.stored, a.pending)
  }

  function RunLoss(calls: seq<seq<byte>>, chunkSize: nat): nat
    requires chunkSize > 0
  {
    if calls == [] then 0
    else
      RunLoss(calls[..|calls| - 1], chunkSize)
      + Loss(RunKept(calls[..|calls| - 1], chunkSize).pending, calls[|calls| - 1], chunkSize)
  }

  lemma AppendedConserves(pending: seq<byte>, data: seq<byte>, chunkSize: nat)
    requires |pending| < chunkSize
    ensures var a := Appended(pending, data, chunkSize);
      && |a.stored| % chunkSize == 0 && |a.pending| < chunkSize
      && |a.stored| + |a.pending| + Loss(pending, data, chunkSize) == |pending| + |data|
      && (Loss(pending, data, chunkSize) == 0 ==> a.stored + a.pending == pending + data)
  {
    var n := |pending| + |data|;
    assert n == n / chunkSize * chunkSize + n % chunkSize;
    DivideUnique(n - n % chunkSize, chunkSize, n / chunkSize, 0);
  }

  lemma MultiplesAdd(a: nat, b: nat, m: nat)
    requires m > 0 && a % m == 0 && b % m == 0
    ensures (a + b) % m == 0
  {
    assert a == a / m * m && b == b / m * m;
    assert a + b == (a / m + b / m) * m;
    DivideUnique(a + b, m, a / m + b / m, 0);
  }

  /** Between calls less than a chunk is pending, and bytes are stored, pending or lost, nothing else. */
  lemma {:induction false} RunConserves(calls: seq<seq<byte>>, chunkSize: nat)
    requires chunkSize > 0
    ensures var s := RunKept(calls, chunkSize);
      && |s.stored| % chunkSize == 0 && |s.pending| < chunkSize
      && |s.stored| + |s.pending| + RunLoss(calls, chunkSize) == |Concat(calls)|
      && (RunLoss(calls, chunkSize) == 0 ==> s.stored + s.pending == Concat(calls))
    decreases |calls|
  {
    hide Appended, Loss;
    if calls == [] {
      DivideUnique(0, chunkSize, 0, 0);
    } else {
      var n := |calls| - 1;
      RunConserves(calls[..n], chunkSize);
      var s := RunKept(calls[..n], chunkSize);
      AppendedConserves(s.pending, calls[n], chunkSize);
      var a := Appended(s.pending, calls[n], chunkSize);
      MultiplesAdd(|s.stored|, |a.stored|, chunkSize);
      assert s.stored + a.stored + a.pending == s.stored + (a.stored + a.pending);
      assert s.stored + (s.pending + calls[n]) == s.stored + s.pending + calls[n];
    }
  }

  /** The bytes that end up in the file. */
  function FileContent(calls: seq<seq<byte>>, chunkSize: nat): seq<byte>
    requires chunkSize > 0
  {
    var s := RunKept(calls, chunkSize);
    s.stored + s.pending
  }

  /** A call that starts on a chunk boundary, stays below the next one, or ends on one. */
  predicate Fitting(before: nat, length: nat, chunkSize: nat)
    requires chunkSize > 0
  {
    before % chunkSize == 0 || before % chunkSize + length < chunkSize || (before + length) % chunkSize == 0
  }

  ghost predicate AllFitting(calls: seq<seq<byte>>, chunkSize: nat)
    requires chunkSize > 0
  {
    forall i :: 0 <= i < |calls| ==> Fitting(|Concat(calls[..i])|, |calls[i]|, chunkSize)
  }

  /** The file holds all that was appended exactly when every call fits the chunks. */
  lemma FileCompleteExactly(calls: seq<seq<byte>>, chunkSize: nat)
    requires chunkSize > 0
    ensures FileContent(calls, chunkSize) == Concat(calls) <==> AllFitting(calls, chunkSize)
    ensures FileContent(calls, chunkSize) == Concat(calls) <==> RunLoss(calls, chunkSize) == 0
  {
    RunConserves(calls, chunkSize);
    LossByLengths(calls, chunkSize);
  }

  lemma {:induction false} LossByLengths(calls: seq<seq<byte>>, chunkSize: nat)
    requires chunkSize > 0
    ensures RunLoss(calls, chunkSize) == 0 <==> AllFitting(calls, chunkSize)
    decreases |calls|
  {
    hide Fitting, Loss;
    if calls != [] {
      var n := |calls| - 1;
      var s := calls[..n];
      LossByLengths(s, chunkSize);
      AllButLast(calls, chunkSize);
      RunConserves(s, chunkSize);
      if RunLoss(s, chunkSize) == 0 {
        FittingLosesNothing(RunKept(s, chunkSize), calls[n], chunkSize);
      }
    }
  }

  lemma AllButLast(calls: seq<seq<byte>>, chunkSize: nat)
    requires chunkSize > 0 && calls != []
    ensures var n := |calls| - 1;
      AllFitting(calls, chunkSize)
      <==> AllFitting(calls[..n], chunkSize) && Fitting(|Concat(calls[..n])|, |calls[n]|, chunkSize)
  {
    hide Fitting, Concat;
    var s := calls[..|calls| - 1];
    assert forall i :: 0 <= i < |s| ==> s[..i] == calls[..i] && s[i] == calls[i];
  }

  lemma FittingLosesNothing(kept: Kept, data: seq<byte>, chunkSize: nat)
    requires chunkSize > 0 && |kept.stored| % chunkSize == 0 && |kept.pending| < chunkSize
    ensures Loss(kept.pending, data, chunkSize) == 0
       <==> Fitting(|kept.stored + kept.pending|, |data|, chunkSize)
  {
    WholeAndRest(|kept.stored|, |kept.pending|, chunkSize);
    WholeAndRest(|kept.stored|, |kept.pending| + |data|, chunkSize);
    DivSmall(|kept.pending|, chunkSize);
  }

  lemma WholeAndRest(whole: nat, rest: nat, m: nat)
    requires m > 0 && whole % m == 0
    ensures (whole + rest) % m == rest % m
  {
    assert whole + rest == (whole / m + rest / m) * m + rest % m;
    DivideUnique(whole + rest, m, whole / m + rest / m, rest % m);
  }

  lemma RunExtends(calls: seq<seq<byte>>, data: seq<byte>, chunkSize: nat)
    requires chunkSize > 0
    ensures var s := RunKept(calls, chunkSize); var a := Appended(s.pending, data, chunkSize);
      RunKept(calls + [data], chunkSize) == Kept(s.stored + a.stored, a.pending)
    ensures Concat(calls + [data]) == Concat(calls) + data
  {
    hide Appended;
    assert (calls + [data])[..|calls|] == calls;
  }

  /** It can happen: with chunks of two bytes, one byte and then two lose the last. */
  lemma LossHappens(x: byte, y: byte, z: byte)
    ensures var calls := [] + [[x]] + [[y, z]];
      FileContent(calls, 2) == [x, y] && Concat(calls) == [x, y, z]
  {
    hide Appended, RunKept, Concat;
    NoCalls(2);
    RunExtends([], [x], 2);
    AppendedCases([], [x], 2);
    var nothing: seq<byte> := [];
    assert nothing + nothing == nothing && nothing + [x] == [x];
    var first: seq<seq<byte>> := [] + [[x]];
    assert RunKept(first, 2) == Kept([], [x]) && Concat(first) == [x];
    RunExtends(first, [y, z], 2);
    AppendedCases([x], [y, z], 2);
    assert [x] + [y, z] == [x, y, z] && WholePart(3, 2) == 2;
    assert nothing + [x, y, z][..2] == [x, y] && [x, y] + nothing == [x, y];
  }

  lemma NoCalls(chunkSize: nat)
    requires chunkSize > 0
    ensures RunKept([], chunkSize) == Kept([], []) && Concat([]) == []
  {
  }

  lemma {:induction false} CutAppend(id: nat, n: nat, s: seq<byte>, x: seq<byte>, chunkSize: nat)
    requires chunkSize > 0 && |s| % chunkSize == 0
    ensures CeilDiv(|s + x|, chunkSize) == CeilDiv(|s|, chunkSize) + CeilDiv(|x|, chunkSize)
    ensures Cut(id, n, s + x, chunkSize)
         == Cut(id, n, s, chunkSize) + Cut(id, n + CeilDiv(|s|, chunkSize), x, chunkSize)
    decreases |s|
  {
    hide CeilDiv, Cut;
    CeilDivStep(|s|, chunkSize);
    if s == [] {
      assert s + x == x;
      NothingToCut(id, n, chunkSize);
    } else {
      assert |s| >= chunkSize by {
        if |s| < chunkSize {
          DivideUnique(|s|, chunkSize, 0, |s|);
        }
      }
      var t := s[chunkSize..];
      DivideStep(|t|, chunkSize);
      CeilDivStep(|s + x|, chunkSize);
      CutAppend(id, n + 1, t, x, chunkSize);
      assert (s + x)[..chunkSize] == s[..chunkSize] && (s + x)[chunkSize..] == t + x;
      CutNext(id, n, s, chunkSize, chunkSize);
      CutNext(id, n, s + x, chunkSize, chunkSize);
    }
  }

  /** A whole upload through the builder: its chunks are the file's content cut up. */
  method StreamFile(grid: GridFS, id: nat, calls: seq<seq<byte>>) returns (file: File)
    requires grid.chunkSize > 0
    modifies grid
    ensures var content := FileContent(calls, grid.chunkSize);
      && file == File(id, grid.chunkSize, |content|)
      && grid.chunks == old(grid.chunks) + Cut(id, 0, content, grid.chunkSize)
  {
    hide Cut, CeilDiv, Appended;
    var builder := new GridFileBuilder(grid, id);
    ghost var size := grid.chunkSize;
    NothingToCut(id, 0, size);
    CeilDivStep(0, size);
    for i := 0 to |calls|
      invariant builder.Valid() && builder.grid == grid && builder.chunkSize == size && builder.fileId == id
      invariant fresh(builder) && fresh(builder.pendingData)
      invariant var s := RunKept(calls[..i], size);
        && builder.Pending() == s.pending && builder.fileLength == |s.stored|
        && builder.currentChunk == CeilDiv(|s.stored|, size)
        && grid.chunks == old(grid.chunks) + Cut(id, 0, s.stored, size)
    {
      ghost var s := RunKept(calls[..i], size);
      ghost var a := Appended(s.pending, calls[i], size);
      assert calls[..i + 1][..i] == calls[..i];
      RunConserves(calls[..i], size);
      CutAppend(id, 0, s.stored, a.stored, size);
      builder.AppendChunk(calls[i]);
    }
    assert calls[..|calls|] == calls;
    RunConserves(calls, size);
    CutAppend(id, 0, RunKept(calls, size).stored, RunKept(calls, size).pending, size);
    file := builder.BuildFile(id + 1);
  }

  // Reading back.

  /** findOne on the chunk collection. */
  function FindChunk(chunks: seq<Chunk>, id: nat, n: nat): (r: Option<Chunk>)
    ensures r.Some? ==> r.value.fileId == id && r.value.n == n
  {
    if chunks == [] then None
    else if chunks[0].fileId == id && chunks[0].n == n then Some(chunks[0])
    else FindChunk(chunks[1..], id, n)
  }

  ghost predicate ChunkMissing(chunks: seq<Chunk>, id: nat, num: nat) {
    exists i: nat :: i < num && FindChunk(chunks, id, i).None?
  }

  /** GridFile::write; None when a chunk is missing. */
  method WriteFile(chunks: seq<Chunk>, file: File, ghost content: seq<byte>) returns (out: Option<seq<byte>>)
    requires file.chunkSize > 0
    ensures |content| == file.length && StoredAs(chunks, file.id, content, file.chunkSize) ==> out == Some(content)
    ensures out.None? <==> ChunkMissing(chunks, file.id, CeilDiv(file.length, file.chunkSize))
  {
    hide Cut, CeilDiv, FindChunk, StoredAs;
    var num := CeilDiv(file.length, file.chunkSize);
    ghost var pieces := Cut(file.id, 0, content, file.chunkSize);
    ghost var present := |content| == file.length && StoredAs(chunks, file.id, content, file.chunkSize);
    CutJoins(file.id, 0, content, file.chunkSize);
    var bytes := [];
    assert pieces[0..] == pieces;
    for i := 0 to num
      invariant forall j :: 0 <= j < i ==> FindChunk(chunks, file.id, j).Some?
      invariant present ==> bytes + Joined(pieces[i..]) == content
    {
      var c := FindChunk(chunks, file.id, i);
      if present {
        NextPiece(chunks, file.id, content, file.chunkSize, i);
      }
      if c.None? {
        assert ChunkMissing(chunks, file.id, num);
        return None;
      }
      if present {
        assert bytes + (c.value.data + Joined(pieces[i + 1..])) == bytes + c.value.data + Joined(pieces[i + 1..]);
      }
      bytes := bytes + c.value.data;
    }
    assert present ==> pieces[num..] == [] && Joined(pieces[num..]) == [];
    assert bytes + [] == bytes;
    out := Some(bytes);
  }

  /** Every piece of the content is found under its number. */
  ghost predicate StoredAs(chunks: seq<Chunk>, id: nat, content: seq<byte>, chunkSize: nat)
    requires chunkSize > 0
  {
    var pieces := Cut(id, 0, content, chunkSize);
    forall i :: 0 <= i < |pieces| ==> FindChunk(chunks, id, i) == Some(pieces[i])
  }

  lemma NextPiece(chunks: seq<Chunk>, id: nat, content: seq<byte>, chunkSize: nat, i: nat)
    requires chunkSize > 0 && i < |Cut(id, 0, content, chunkSize)| && StoredAs(chunks, id, content, chunkSize)
    ensures var pieces := Cut(id, 0, content, chunkSize);
      && FindChunk(chunks, id, i) == Some(pieces[i])
      && Joined(pieces[i..]) == pieces[i].data + Joined(pieces[i + 1..])
  {
    hide Cut, FindChunk;
    var pieces := Cut(id, 0, content, chunkSize);
    assert pieces[i..][0] == pieces[i] && pieces[i..][1..] == pieces[i + 1..];
  }

  lemma {:induction false} FoundAfter(before: seq<Chunk>, rest: seq<Chunk>, id: nat, n: nat)
    requires forall k :: 0 <= k < |before| ==> before[k].fileId != id
    ensures FindChunk(before + rest, id, n) == FindChunk(rest, id, n)
  {
    if before == [] {
      assert before + rest == rest;
    } else {
      assert (before + rest)[1..] == before[1..] + rest;
      FoundAfter(before[1..], rest, id, n);
    }
  }

  lemma {:induction false} FoundByNumber(pieces: seq<Chunk>, id: nat, start: nat, i: nat)
    requires i < |pieces| && forall k :: 0 <= k < |pieces| ==> pieces[k].fileId == id && pieces[k].n == start + k
    ensures FindChunk(pieces, id, start + i) == Some(pieces[i])
    decreases i
  {
    if i > 0 {
      FoundByNumber(pieces[1..], id, start + 1, i - 1);
    }
  }

  /** An uploaded file is written out again as its content. */
  lemma UploadReadsBack(before: seq<Chunk>, id: nat, content: seq<byte>, chunkSize: nat)
    requires chunkSize > 0 && forall k :: 0 <= k < |before| ==> before[k].fileId != id
    ensures StoredAs(before + Cut(id, 0, content, chunkSize), id, content, chunkSize)
  {
    var pieces := Cut(id, 0, content, chunkSize);
    CutJoins(id, 0, content, chunkSize);
    forall i | 0 <= i < |pieces| ensures FindChunk(before + pieces, id, i) == Some(pieces[i]) {
      FoundAfter(before, pieces, id, i);
      FoundByNumber(pieces, id, 0, i);
    }
  }

  // storeFile on a buffer, where the remaining length passes through unsigned and int.

  /** The length of the next chunk as the code computes it; None when it comes out negative. */
  function NextChunkLength(remaining: nat, chunkSize: nat): Option<nat> {
    var low := remaining % 0x1_0000_0000;
    var len := if chunkSize < low then chunkSize else low;
    if len < INT32_LIMIT then Some(len) else None
  }

  /** What remains after n rounds; None once a length has come out negative. */
  function Remaining(length: nat, chunkSize: nat, rounds: nat): Option<nat>
    decreases rounds
  {
    if rounds == 0 || length == 0 then Some(length)
    else
      match NextChunkLength(length, chunkSize)
      case None => None
      case Some(len) => Remaining(length - len, chunkSize, rounds - 1)
  }

  /** Buffers that storeFile gets through. */
  predicate Storable(length: nat, chunkSize: nat) {
    length < 0x1_0000_0000 && (chunkSize < INT32_LIMIT || length < INT32_LIMIT)
  }

  method StoreFile(grid: GridFS, data: seq<byte>, id: nat) returns (file: File)
    requires 0 < grid.chunkSize < 0x1_0000_0000 && Storable(|data|, grid.chunkSize)
    modifies grid
    ensures grid.chunks == old(grid.chunks) + Cut(id, 0, data, grid.chunkSize)
    ensures file == File(id, grid.chunkSize, |data|)
  {
    hide Cut;
    var chunkNumber, pos := 0, 0;
    assert data[0..] == data;
    while pos < |data|
      invariant 0 <= pos <= |data|
      invariant grid.chunks + Cut(id, chunkNumber, data[pos..], grid.chunkSize)
             == old(grid.chunks) + Cut(id, 0, data, grid.chunkSize)
    {
      var chunkLen := NextChunkLength(|data| - pos, grid.chunkSize).value;
      CutNext(id, chunkNumber, data[pos..], chunkLen, grid.chunkSize);
      assert data[pos..][..chunkLen] == data[pos..pos + chunkLen];
      assert data[pos..][chunkLen..] == data[pos + chunkLen..];
      grid.InsertChunk(Chunk(id, chunkNumber, data[pos..pos + chunkLen]));
      chunkNumber := chunkNumber + 1;
      pos := pos + chunkLen;
    }
    NothingToCut(id, chunkNumber, grid.chunkSize);
    assert data[pos..] == [];
    file := File(id, grid.chunkSize, |data|);
  }

  lemma {:induction false} StorableEnds(length: nat, chunkSize: nat)
    requires 0 < chunkSize && Storable(length, chunkSize)
    ensures Remaining(length, chunkSize, length) == Some(0)
    decreases length
  {
    if length > 0 {
      var len := NextChunkLength(length, chunkSize).value;
      StorableEnds(length - len, chunkSize);
      MoreRoundsStayAtZero(length - len, chunkSize, length - len, length - 1);
    }
  }

  lemma {:induction false} MoreRoundsStayAtZero(length: nat, chunkSize: nat, rounds: nat, more: nat)
    requires rounds <= more && Remaining(length, chunkSize, rounds) == Some(0)
    ensures Remaining(length, chunkSize, more) == Some(0)
    decreases rounds
  {
    if rounds > 0 && length > 0 {
      MoreRoundsStayAtZero(length - NextChunkLength(length, chunkSize).value, chunkSize, rounds - 1, more - 1);
    }
  }

  lemma {:induction false} UnstorableNeverEnds(length: nat, chunkSize: nat, rounds: nat)
    requires 0 < chunkSize && !Storable(length, chunkSize)
    ensures Remaining(length, chunkSize, rounds) != Some(0)
    decreases rounds
  {
    if rounds > 0 && NextChunkLength(length, chunkSize).Some? {
      var len := NextChunkLength(length, chunkSize).value;
      BigStaysBig(length, chunkSize, len);
      UnstorableNeverEnds(length - len, chunkSize, rounds - 1);
    }
  }

  /** A length of 2^32 or more loses at most its low part, so it never gets below. */
  lemma BigStaysBig(length: nat, chunkSize: nat, len: nat)
    requires !Storable(length, chunkSize) && NextChunkLength(length, chunkSize) == Some(len)
    ensures length - len >= 0x1_0000_0000
  {
  }

  /** storeFile finishes exactly for lengths below 2^32 whose chunks stay below 2^31. */
  lemma StoreFileEndsExactly(length: nat, chunkSize: nat)
    requires 0 < chunkSize
    ensures (exists rounds :: Remaining(length, chunkSize, rounds) == Some(0)) <==> Storable(length, chunkSize)
  {
    if Storable(length, chunkSize) {
      StorableEnds(length, chunkSize);
    } else {
      forall rounds: nat ensures Remaining(length, chunkSize, rounds) != Some(0) {
        UnstorableNeverEnds(length, chunkSize, rounds);
      }
    }
  }

  /** With exactly 2^32 bytes every round stores an empty chunk and nothing moves. */
  lemma {:induction false} StoreFileStandsStill(chunkSize: nat, rounds: nat)
    ensures Remaining(0x1_0000_0000, chunkSize, rounds) == Some(0x1_0000_0000)
  {
    if rounds > 0 {
      StoreFileStandsStill(chunkSize, rounds - 1);
    }
  }
}
