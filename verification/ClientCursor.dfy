/**
 DBClientCursor against any honest server: limits, batch sizes and put-back documents.
 The stream is what the query matches; the server sends it piece by piece.
 */
module ClientCursor {
  import opened Wrappers


  /** A reply to the step-th request: how many documents of those left, and whether the cursor stays open. */
  datatype Reply = Reply(count: nat, open: bool)

  /** Arguments: number of the request, the batch size it asks for, documents left. */
  type Server = (nat, int, nat) -> Reply

  /** It sends something or closes, and closes early only when a negative request has been met. */
  ghost predicate Honest(serve: Server) {
    forall step: nat, request: int, left: nat ::
      var r := serve(step, request, left);
      && r.count <= left
      && (r.open ==> r.count > 0)
      && (!r.open ==> r.count == left || (request < 0 && r.count >= -request))
  }

  class DBClientCursor<D> {
    const nToReturn: nat
    const batchSize: nat
    const stream: seq<D>
    const serve: Server
    var nReturned: nat
    var open: bool
    var sent: nat
    var batch: seq<D>
    var pos: nat
    var putBackStack: seq<D>
    /** Every request made, with what was still wanted at the time. */
    var requests: seq<(int, int)>

    /** How many documents of the stream have been handed out. */
    function Taken(): int
      reads this
    {
      sent - |batch| + pos
    }

    ghost predicate Valid()
      reads this
    {
      && Honest(serve)
      && pos <= |batch| <= sent <= |stream|
      && batch == stream[sent - |batch|..sent]
      && Taken() <= nReturned
      && (!open ==> sent == |stream| || (nToReturn > 0 && sent + (nReturned - Taken()) >= nToReturn))
      && (nToReturn > 0 ==> forall i :: 0 <= i < |requests| ==>
            requests[i].1 > 0 && -requests[i].1 <= requests[i].0 <= requests[i].1 && requests[i].0 != 0)
      && (forall i :: 0 <= i < |requests| ==> RightlyAsked(requests[i].0, requests[i].1))
    }

    lemma TakenBounds()
      requires Valid()
      ensures 0 <= Taken() <= |stream|
    {
    }

    /** The batch size without a limit or below what is left of it, otherwise all that is left, negated. */
    predicate RightlyAsked(asked: int, left: int) {
      if nToReturn == 0 || 0 < batchSize < left then asked == batchSize else asked == -left
    }

    /** The query is sent and its first reply received. */
    constructor (nToReturn: nat, bs: nat, stream: seq<D>, serve: Server)
      requires Honest(serve)
      ensures Valid() && Taken() == 0 && nReturned == 0 && putBackStack == []
      ensures this.nToReturn == nToReturn && this.stream == stream && batchSize == (if bs == 1 then 2 else bs)
    {
      this.nToReturn := nToReturn;
      batchSize := if bs == 1 then 2 else bs;
      this.stream := stream;
      this.serve := serve;
      nReturned, open, sent, batch, pos := 0, true, 0, [], 0;
      putBackStack, requests := [], [];
      new;
      Request();
    }

    function NextBatchSize(): int
      reads this
    {
      if nToReturn != 0 then
        var remaining := nToReturn - nReturned;
        if batchSize != 0 && batchSize < remaining then batchSize else -remaining
      else batchSize
    }

    /** A request and dataReceived. */
    method Request()
      requires Valid() && pos == |batch| && open && (nToReturn > 0 ==> nReturned < nToReturn)
      modifies this`open, this`sent, this`batch, this`pos, this`requests
      ensures Valid() && Taken() == old(Taken()) && pos == 0
      ensures batch != [] || !open
      ensures |requests| == |old(requests)| + 1 && old(requests) <= requests
      ensures requests[|old(requests)|].1 == nToReturn - nReturned
    {
      var r := serve(|requests|, NextBatchSize(), |stream| - sent);
      requests := requests + [(NextBatchSize(), nToReturn - nReturned)];
      batch := stream[sent..sent + r.count];
      sent := sent + r.count;
      pos := 0;
      open := r.open;
    }

    method RawMore() returns (more: bool)
      requires Valid()
      modifies this`open, this`sent, this`batch, this`pos, this`requests
      ensures Valid() && Taken() == old(Taken())
      ensures more == (Taken() < |stream| && (nToReturn == 0 || nReturned < nToReturn))
      ensures more ==> pos < |batch|
    {
      if nToReturn != 0 && nReturned >= nToReturn {
        return false;
      }
      if pos < |batch| {
        return true;
      }
      if !open {
        return false;
      }
      Request();
      more := pos < |batch|;
    }

    method More() returns (more: bool)
      requires Valid()
      modifies this`open, this`sent, this`batch, this`pos, this`requests
      ensures Valid() && Taken() == old(Taken())
      ensures more == (putBackStack != [] || (Taken() < |stream| && (nToReturn == 0 || nReturned < nToReturn)))
      ensures more ==> putBackStack != [] || pos < |batch|
    {
      if putBackStack != [] {
        return true;
      }
      more := RawMore();
    }

    /** next(), None where it throws because nothing is at hand; even that counts against the limit. */
    method Next() returns (d: Option<D>)
      requires Valid()
      modifies this`nReturned, this`pos, this`putBackStack
      ensures Valid() && nReturned == old(nReturned) + 1
      ensures d.None? <==> old(putBackStack) == [] && old(pos) == |batch|
      ensures old(putBackStack) != [] ==>
        d == Some(old(putBackStack)[|old(putBackStack)| - 1])
        && putBackStack == old(putBackStack)[..|old(putBackStack)| - 1] && Taken() == old(Taken())
      ensures old(putBackStack) == [] ==> putBackStack == [] && Taken() == old(Taken()) + if d.Some? then 1 else 0
      ensures old(putBackStack) == [] && d.Some? ==> d == Some(stream[old(Taken())])
    {
      nReturned := nReturned + 1;
      if putBackStack != [] {
        d := Some(putBackStack[|putBackStack| - 1]);
        putBackStack := putBackStack[..|putBackStack| - 1];
        return;
      }
      if pos >= |batch| {
        return None;
      }
      d := Some(batch[pos]);
      pos := pos + 1;
    }

    method PutBack(d: D)
      requires Valid()
      modifies this`putBackStack
      ensures Valid() && putBackStack == old(putBackStack) + [d]
    {
      putBackStack := putBackStack + [d];
    }
  }

  function Reversed<D>(s: seq<D>): seq<D> {
    if s == [] then [] else [s[|s| - 1]] + Reversed(s[..|s| - 1])
  }

  /** Where a drain ends that starts with so many handed out and so many counted. */
  function DrainEnd(taken: nat, counted: nat, nToReturn: nat, length: nat): nat
    requires taken <= length
  {
    if nToReturn == 0 then length
    else
      var left := if counted < nToReturn then nToReturn - counted else 0;
      if taken + left < length then taken + left else length
  }

  lemma NothingReversed<D>()
    ensures Reversed<D>([]) == []
  {
  }

  /** What was handed out and what is still put back are the put-back documents and the stream so far. */
  ghost predicate InOrder<D>(before: seq<D>, out: seq<D>, back: seq<D>, stream: seq<D>, taken: int, t: int) {
    0 <= taken <= t <= |stream| && out + Reversed(back) == before + stream[taken..t]
  }

  lemma DrainStarts<D>(back: seq<D>, stream: seq<D>, taken: nat)
    requires taken <= |stream|
    ensures InOrder(Reversed(back), [], back, stream, taken, taken)
  {
  }

  lemma DrainStep<D>(before: seq<D>, out: seq<D>, d: D, back: seq<D>, back': seq<D>, stream: seq<D>, taken: int, t: int)
    requires InOrder(before, out, back, stream, taken, t)
    requires back != [] ==> d == back[|back| - 1] && back' == back[..|back| - 1]
    requires back == [] ==> back' == [] && t < |stream| && d == stream[t]
    ensures InOrder(before, out + [d], back', stream, taken, if back == [] then t + 1 else t)
  {
    if back == [] {
      assert out + Reversed(back) == out && out + [d] + Reversed(back') == out + [d];
      assert stream[taken..t + 1] == stream[taken..t] + [d];
      assert before + (stream[taken..t] + [d]) == before + stream[taken..t] + [d];
    } else {
      assert out + ([d] + Reversed(back')) == out + [d] + Reversed(back');
    }
  }

  lemma DrainEnds<D>(before: seq<D>, out: seq<D>, stream: seq<D>, taken: int, t: int)
    requires InOrder(before, out, [], stream, taken, t)
    ensures 0 <= taken <= t <= |stream| && out == before + stream[taken..t]
  {
  }

  /**
   Looping more() and next() hands out the put-back documents, last in first out, and then the
   stream as far as the limit goes; put-back documents count against the limit a second time.
   */
  method Drain<D>(c: DBClientCursor<D>) returns (out: seq<D>)
    requires c.Valid()
    modifies c
    ensures c.Valid()
    ensures var taken := old(c.Taken());
      out == Reversed(old(c.putBackStack))
             + c.stream[taken..DrainEnd(taken, old(c.nReturned) + |old(c.putBackStack)|, c.nToReturn, |c.stream|)]
  {
    hide Honest, Reversed, InOrder, DBClientCursor.Valid;
    out := [];
    c.TakenBounds();
    DrainStarts(c.putBackStack, c.stream, c.Taken());
    var more := c.More();
    ghost var taken := old(c.Taken());
    ghost var end := DrainEnd(taken, old(c.nReturned) + |old(c.putBackStack)|, c.nToReturn, |c.stream|);
    while more
      invariant c.Valid()
      invariant taken <= c.Taken() <= |c.stream|
      invariant c.putBackStack != [] ==> c.Taken() == taken
      invariant c.nReturned + |c.putBackStack| == old(c.nReturned) + |old(c.putBackStack)| + c.Taken() - taken
      invariant InOrder(Reversed(old(c.putBackStack)), out, c.putBackStack, c.stream, taken, c.Taken())
      invariant c.Taken() <= end
      invariant more == (c.putBackStack != []
                         || (c.Taken() < |c.stream| && (c.nToReturn == 0 || c.nReturned < c.nToReturn)))
      invariant more ==> c.putBackStack != [] || c.pos < |c.batch|
      decreases |c.stream| - c.Taken() + |c.putBackStack|
    {
      ghost var back, t := c.putBackStack, c.Taken();
      var d := c.Next();
      DrainStep(Reversed(old(c.putBackStack)), out, d.value, back, c.putBackStack, c.stream, taken, t);
      out := out + [d.value];
      more := c.More();
    }
    DrainEnds(Reversed(old(c.putBackStack)), out, c.stream, taken, c.Taken());
  }

  /** A limit and a batch size of any value: a fresh cursor yields exactly the first documents, all of them for 0. */
  method ReadAll<D>(nToReturn: nat, bs: nat, stream: seq<D>, serve: Server) returns (out: seq<D>)
    requires Honest(serve)
    ensures out == if nToReturn == 0 || |stream| <= nToReturn then stream else stream[..nToReturn]
  {
    hide DBClientCursor.Valid, Honest, Reversed;
    var c := new DBClientCursor(nToReturn, bs, stream, serve);
    NothingReversed<D>();
    out := Drain(c);
  }

  function Min(a: nat, b: nat): nat { if a < b then a else b }

  /** Where the limit promises that a stream ends. */
  function PromisedEnd(nToReturn: nat, length: nat): nat {
    if nToReturn == 0 then length else Min(nToReturn, length)
  }

  /** What is left of the stream after a put-back reaches as far as the limit promises, or does not. */
  predicate PutBackHarmless(taken: nat, putBack: nat, nToReturn: nat, length: nat) {
    nToReturn == 0 || putBack == 0 || length + putBack <= nToReturn || taken == Min(nToReturn, length)
  }

  lemma PutBackExactly(taken: nat, putBack: nat, nToReturn: nat, length: nat)
    requires putBack <= taken <= PromisedEnd(nToReturn, length)
    ensures DrainEnd(taken, taken + putBack, nToReturn, length) == PromisedEnd(nToReturn, length)
       <==> PutBackHarmless(taken, putBack, nToReturn, length)
  {
  }

  /**
   Reading some documents, putting the last of them back and reading on gives what the limit promises
   exactly when nothing is put back, there is no limit, the limit leaves room for reading them twice,
   or all that it promises has been read before.
   */
  method ReadPutBackRead<D>(nToReturn: nat, bs: nat, stream: seq<D>, serve: Server, taken: nat, putBack: nat)
    returns (first: seq<D>, rest: seq<D>)
    requires Honest(serve) && putBack <= taken <= PromisedEnd(nToReturn, |stream|)
    ensures first == stream[..taken]
    ensures rest == stream[taken - putBack..DrainEnd(taken, taken + putBack, nToReturn, |stream|)]
    ensures first[..taken - putBack] + rest == stream[..PromisedEnd(nToReturn, |stream|)]
       <==> PutBackHarmless(taken, putBack, nToReturn, |stream|)
  {
    hide DBClientCursor.Valid, DrainEnd, Honest, PutBackHarmless, Reversed;
    var c := new DBClientCursor(nToReturn, bs, stream, serve);
    first := Take(c, taken);
    var kept := taken - putBack;
    PutBackLast(c, first, kept);
    rest := Drain(c);
    PutBackExactly(taken, putBack, nToReturn, |stream|);
    DrainEndBounds(taken, taken + putBack, nToReturn, |stream|);
    TwoParts(stream, kept, taken, DrainEnd(taken, taken + putBack, nToReturn, |stream|),
             PromisedEnd(nToReturn, |stream|));
  }

  lemma DrainEndBounds(taken: nat, counted: nat, nToReturn: nat, length: nat)
    requires taken <= length
    ensures taken <= DrainEnd(taken, counted, nToReturn, length) <= length
  {
  }

  lemma TwoParts<D>(stream: seq<D>, kept: nat, taken: nat, end: nat, promised: nat)
    requires kept <= taken <= end <= |stream| && promised <= |stream|
    ensures stream[kept..taken] + stream[taken..end] == stream[kept..end]
    ensures stream[..taken][..kept] + stream[kept..end] == stream[..promised] <==> end == promised
    ensures stream[..taken][kept..] == stream[kept..taken]
  {
    assert stream[..taken][..kept] + stream[kept..end] == stream[..end];
    assert |stream[..end]| == end && |stream[..promised]| == promised;
  }

  /** The first documents of a fresh cursor. */
  method Take<D>(c: DBClientCursor<D>, n: nat) returns (out: seq<D>)
    requires c.Valid() && c.Taken() == 0 && c.nReturned == 0 && c.putBackStack == []
    requires n <= PromisedEnd(c.nToReturn, |c.stream|)
    modifies c
    ensures c.Valid() && c.Taken() == n && c.nReturned == n && c.putBackStack == [] && out == c.stream[..n]
  {
    hide DBClientCursor.Valid;
    out := [];
    for i := 0 to n
      invariant c.Valid() && c.Taken() == i && c.nReturned == i && c.putBackStack == [] && out == c.stream[..i]
    {
      var more := c.More();
      var d := c.Next();
      out := out + [d.value];
    }
  }

  lemma ReversedPush<D>(back: seq<D>, first: seq<D>, i: nat)
    requires i < |first| && Reversed(back) == first[i + 1..]
    ensures Reversed(back + [first[i]]) == first[i..]
  {
    assert (back + [first[i]])[..|back|] == back;
    assert first[i..] == [first[i]] + first[i + 1..];
  }

  /** putBack of the documents from a place on, the last one first. */
  method PutBackLast<D>(c: DBClientCursor<D>, first: seq<D>, kept: nat)
    requires c.Valid() && c.putBackStack == [] && kept <= |first|
    modifies c`putBackStack
    ensures c.Valid() && Reversed(c.putBackStack) == first[kept..] && |c.putBackStack| == |first| - kept
  {
    hide DBClientCursor.Valid, Reversed;
    NothingReversed<D>();
    assert first[|first|..] == [];
    for i := |first| downto kept
      invariant c.Valid() && Reversed(c.putBackStack) == first[i..] && |c.putBackStack| == |first| - i
    {
      ReversedPush(c.putBackStack, first, i);
      c.PutBack(first[i]);
    }
  }

  /** It can happen: with a limit of two, a document read, put back and read again costs the second one. */
  method PutBackLoses<D>(x: D, y: D, bs: nat, serve: Server) returns (rest: seq<D>)
    requires Honest(serve)
    ensures rest == [x]
  {
    var first;
    first, rest := ReadPutBackRead(2, bs, [x, y], serve, 1, 1);
  }
}
