/**
  `write_n` and `send_n` on chains of message blocks (ACE/ace/ACE.cpp): a list of messages linked by
  `next`, each a list of blocks linked by `cont`. The blocks are cut into chunks, and the chunks are
  gathered into an array of buffers that is transferred whenever it is full.
 */
module MessageChain {
  import opened Transfer

  /** A pointer to a message block: `length` bytes from `rdPtr`. */
  datatype Message = Null | Block(rdPtr: nat, length: nat, cont: Message, next: Message)

  /** The addresses of a message: its block and those behind `cont`. Their `next` pointers do not count. */
  function MessageAddresses(m: Message): seq<nat> {
    match m
    case Null => []
    case Block(rdPtr, length, cont, _) => Range(rdPtr, length) + MessageAddresses(cont)
  }

  function ChainAddresses(m: Message): seq<nat> {
    match m
    case Null => []
    case Block(_, _, _, next) => MessageAddresses(m) + ChainAddresses(next)
  }

  // ----- What a chain covers

  /** A block as whoever builds the message sees it. `stray` is its `next` pointer where it stands behind
      another block of its message: anything. */
  datatype Piece = Piece(rdPtr: nat, length: nat, stray: Message)

  function Continued(pieces: seq<Piece>): Message {
    if pieces == [] then Null
    else Block(pieces[0].rdPtr, pieces[0].length, Continued(pieces[1..]), pieces[0].stray)
  }

  /** The chain of the messages that consist of the pieces of each list. */
  function Chain(messages: seq<seq<Piece>>): Message
    requires forall i | 0 <= i < |messages| :: messages[i] != []
  {
    if messages == [] then Null
    else
      var first := messages[0];
      Block(first[0].rdPtr, first[0].length, Continued(first[1..]), Chain(messages[1..]))
  }

  function AllPieces(messages: seq<seq<Piece>>): seq<Piece> {
    if messages == [] then [] else messages[0] + AllPieces(messages[1..])
  }

  function Buffers(pieces: seq<Piece>): seq<Iovec> {
    seq(|pieces|, i requires 0 <= i < |pieces| => Iovec(pieces[i].rdPtr, pieces[i].length))
  }

  function TotalLength(pieces: seq<Piece>): nat {
    if pieces == [] then 0 else pieces[0].length + TotalLength(pieces[1..])
  }

  lemma {:induction false} AddressesBoth(a: seq<Iovec>, b: seq<Iovec>)
    ensures Addresses(a + b) == Addresses(a) + Addresses(b)
    decreases |a|
  {
    if a == [] {
      assert a + b == b;
    } else {
      assert (a + b)[1..] == a[1..] + b;
      AddressesBoth(a[1..], b);
    }
  }

  lemma {:induction false} AddressesLength(pieces: seq<Piece>)
    ensures |Addresses(Buffers(pieces))| == TotalLength(pieces)
    decreases |pieces|
  {
    if pieces != [] {
      assert Buffers(pieces)[1..] == Buffers(pieces[1..]);
      AddressesLength(pieces[1..]);
    }
  }

  lemma {:induction false} ContinuedCovers(pieces: seq<Piece>)
    ensures MessageAddresses(Continued(pieces)) == Addresses(Buffers(pieces))
    decreases |pieces|
  {
    if pieces != [] {
      assert Buffers(pieces)[1..] == Buffers(pieces[1..]);
      ContinuedCovers(pieces[1..]);
    }
  }

  /** A chain covers the bytes of all blocks of all its messages, in order, and nothing that a stray `next`
      pointer leads to. */
  lemma {:induction false} ChainCovers(messages: seq<seq<Piece>>)
    requires forall i | 0 <= i < |messages| :: messages[i] != []
    ensures ChainAddresses(Chain(messages)) == Addresses(Buffers(AllPieces(messages)))
    ensures |ChainAddresses(Chain(messages))| == TotalLength(AllPieces(messages))
    decreases |messages|
  {
    AddressesLength(AllPieces(messages));
    if messages != [] {
      var first, rest := messages[0], AllPieces(messages[1..]);
      ChainCovers(messages[1..]);
      ContinuedCovers(first);
      AddressesBoth(Buffers(first), Buffers(rest));
      assert Buffers(first + rest) == Buffers(first) + Buffers(rest);
      assert MessageAddresses(Chain(messages)) == MessageAddresses(Continued(first));
    }
  }

  lemma {:induction false} AllPiecesBoth(a: seq<seq<Piece>>, b: seq<seq<Piece>>)
    ensures AllPieces(a + b) == AllPieces(a) + AllPieces(b)
    decreases |a|
  {
    if a == [] {
      assert a + b == b;
    } else {
      assert (a + b)[1..] == a[1..] + b;
      AllPiecesBoth(a[1..], b);
    }
  }

  /** So chains that are put one behind the other are covered one behind the other. */
  lemma ChainAppends(a: seq<seq<Piece>>, b: seq<seq<Piece>>)
    requires forall i | 0 <= i < |a| :: a[i] != []
    requires forall i | 0 <= i < |b| :: b[i] != []
    ensures ChainAddresses(Chain(a + b)) == ChainAddresses(Chain(a)) + ChainAddresses(Chain(b))
  {
    hide *;
    var p, q := AllPieces(a), AllPieces(b);
    ChainCovers(a);
    ChainCovers(b);
    ChainCovers(a + b);
    AllPiecesBoth(a, b);
    BuffersBoth(p, q);
    AddressesBoth(Buffers(p), Buffers(q));
  }

  lemma BuffersBoth(p: seq<Piece>, q: seq<Piece>)
    ensures Buffers(p + q) == Buffers(p) + Buffers(q)
  {}

  /** A message is covered block by block, and a single block is its bytes. */
  lemma MessageAppends(p: seq<Piece>, q: seq<Piece>)
    requires p != [] && q != []
    ensures ChainAddresses(Chain([p + q])) == ChainAddresses(Chain([p])) + ChainAddresses(Chain([q]))
  {
    ChainAppends([p], [q]);
    ChainCovers([p + q]);
    ChainCovers([p] + [q]);
    AllPiecesBoth([p], [q]);
    AllPiecesOne(p);
    AllPiecesOne(q);
    AllPiecesOne(p + q);
    hide Chain, ChainAddresses, Addresses, Buffers, AllPieces;
  }

  lemma AllPiecesOne(p: seq<Piece>)
    ensures AllPieces([p]) == p
  {
    assert [p][1..] == [];
  }

  lemma OneBlock(rdPtr: nat, length: nat, i: nat)
    requires i < length
    ensures var s := ChainAddresses(Block(rdPtr, length, Null, Null)); |s| == length && s[i] == rdPtr + i
  {
    var m := Block(rdPtr, length, Null, Null);
    assert MessageAddresses(m) == Range(rdPtr, length) + [] == Range(rdPtr, length);
    assert ChainAddresses(m) == MessageAddresses(m) + ChainAddresses(Null);
  }

  lemma {:induction false} ContinuedIs(m: Message) returns (pieces: seq<Piece>)
    ensures Continued(pieces) == m
    decreases m
  {
    if m.Null? {
      pieces := [];
    } else {
      var rest := ContinuedIs(m.cont);
      pieces := [Piece(m.rdPtr, m.length, m.next)] + rest;
      assert pieces[1..] == rest;
    }
  }

  /** Every chain there is is one of these. */
  lemma {:induction false} EveryChain(m: Message) returns (messages: seq<seq<Piece>>)
    ensures (forall i | 0 <= i < |messages| :: messages[i] != []) && Chain(messages) == m
    decreases m
  {
    if m.Null? {
      messages := [];
    } else {
      var rest := EveryChain(m.next);
      var blocks := ContinuedIs(m.cont);
      messages := [[Piece(m.rdPtr, m.length, Null)] + blocks] + rest;
      assert messages[1..] == rest && messages[0][1..] == blocks;
    }
  }

  /** What a call promises of its result and its byte count, for a chain of `total` bytes. */
  ghost predicate ReportedChain(result: int, bt: nat, total: nat, last: int) {
    && bt <= total && result >= -1
    && (result > 0 <==> bt == total > 0)
    && (result > 0 ==> result == Truncated(total))
    && (result <= 0 ==> result == if total == 0 then 0 else last)
  }

  // ----- Progress of the walk

  /** `rest` is what the walk has yet to put into the array, `waiting` what is in it. */
  ghost predicate Walked(a: seq<nat>, bt: nat, waiting: seq<nat>, rest: seq<nat>) {
    bt <= |a| && a[bt..] == waiting + rest
  }

  lemma WalkChunk(a: seq<nat>, bt: nat, waiting: seq<nat>, base: nat, chunk: nat, left: nat, rest: seq<nat>)
    requires Walked(a, bt, waiting, Range(base, chunk + left) + rest)
    ensures Walked(a, bt, waiting + Range(base, chunk), Range(base + chunk, left) + rest)
  {
    assert Range(base, chunk + left) == Range(base, chunk) + Range(base + chunk, left);
    assert waiting + (Range(base, chunk + left) + rest)
        == (waiting + Range(base, chunk)) + (Range(base + chunk, left) + rest);
  }

  lemma WalkBlock(a: seq<nat>, bt: nat, waiting: seq<nat>, m: Message, rest: seq<nat>)
    requires m.Block? && Walked(a, bt, waiting, MessageAddresses(m) + rest)
    ensures Walked(a, bt, waiting, Range(m.rdPtr, m.length) + (MessageAddresses(m.cont) + rest))
  {
    assert MessageAddresses(m) + rest == Range(m.rdPtr, m.length) + (MessageAddresses(m.cont) + rest);
  }

  lemma {:induction false} AddressesMore(iov: seq<Iovec>, v: Iovec)
    ensures Addresses(iov + [v]) == Addresses(iov) + Range(v.base, v.len)
    decreases |iov|
  {
    if iov == [] {
      assert iov + [v] == [v];
      assert [v][1..] == [];
    } else {
      assert (iov + [v])[1..] == iov[1..] + [v];
      AddressesMore(iov[1..], v);
    }
  }

  /** A transfer of the array takes the walk's next bytes, some or all. */
  lemma WalkTransfer(mem: seq<byte>, a: seq<nat>, bt: nat, waiting: seq<nat>, rest: seq<nat>, ct: nat,
                     before: seq<byte>, between: seq<byte>, after: seq<byte>)
    requires InMemory(|mem|, a) && Walked(a, bt, waiting, rest) && InMemory(|mem|, waiting)
    requires Sent(mem, a, bt, before, between) && Sent(mem, waiting, ct, between, after)
    ensures bt + ct <= |a| && Sent(mem, a, bt + ct, before, after)
    ensures ct == |waiting| ==> Walked(a, bt + ct, [], rest)
  {
    assert |a| - bt == |waiting| + |rest|;
    TakeMore(a, bt, ct);
    assert a[bt..][..ct] == waiting[..ct];
    SentMore(mem, a, bt, ct, before, between, after);
    assert ct == |waiting| ==> a[bt..][ct..] == [] + rest;
  }

  lemma WaitingInMemory(size: nat, a: seq<nat>, bt: nat, waiting: seq<nat>, rest: seq<nat>)
    requires InMemory(size, a) && Walked(a, bt, waiting, rest)
    ensures InMemory(size, waiting)
  {
    forall i | 0 <= i < |waiting| ensures waiting[i] < size {
      assert waiting[i] == a[bt..][i] == a[bt + i];
    }
  }

  /** What a transfer of the array does for the walk. */
  ghost predicate Moved(a: seq<nat>, bt: nat, bt': nat, rest: seq<nat>, result: int, last: int,
                        certain: nat, certain': nat)
  {
    && bt <= bt' <= |a| && result >= -1
    && (result > 0 ==> bt < bt' && Walked(a, bt', [], rest) && certain <= certain' + (bt' - bt))
    && (result <= 0 ==> bt' < |a| && result == last && !(certain + bt >= |a| && |a| <= SSIZE_MAX))
  }

  lemma WalkMoved(a: seq<nat>, bt: nat, waiting: seq<nat>, rest: seq<nat>, ct: nat, iovcnt: nat,
                  result: int, last: int, certain: nat, certain': nat)
    requires Walked(a, bt, waiting, rest) && iovcnt > 0 && |waiting| > 0
    requires Reported(result, ct, iovcnt, |waiting|, last) && Assured(certain, certain', result, |waiting|)
    requires bt + ct <= |a| && (ct == |waiting| ==> Walked(a, bt + ct, [], rest))
    ensures Moved(a, bt, bt + ct, rest, result, last, certain, certain')
  {
    assert |a| - bt == |waiting| + |rest|;
  }

  /** The walk between two chunks: what has gone out, what is in the array, and what is to come. */
  ghost predicate Walking(mem: seq<byte>, a: seq<nat>, bt: nat, iov: seq<Iovec>, rest: seq<nat>,
                          before: seq<byte>, sent: seq<byte>, certain: nat, certain': nat)
    requires InMemory(|mem|, a)
  {
    && Walked(a, bt, Addresses(iov), rest) && Sent(mem, a, bt, before, sent)
    && (iov != [] ==> |Addresses(iov)| > 0) && certain <= certain' + bt
  }

  lemma WalkingStart(mem: seq<byte>, a: seq<nat>, sent: seq<byte>, certain: nat)
    requires InMemory(|mem|, a)
    ensures Walking(mem, a, 0, [], a, sent, sent, certain, certain)
  {
    SentNone(mem, a, sent);
    assert [] + a == a;
  }

  lemma WalkingChunk(mem: seq<byte>, a: seq<nat>, bt: nat, iov: seq<Iovec>, before: seq<byte>, sent: seq<byte>,
                     certain: nat, certain': nat, v: Iovec, left: nat, rest: seq<nat>)
    requires InMemory(|mem|, a) && v.len > 0
    requires Walking(mem, a, bt, iov, Range(v.base, v.len + left) + rest, before, sent, certain, certain')
    ensures Walking(mem, a, bt, iov + [v], Range(v.base + v.len, left) + rest, before, sent, certain, certain')
  {
    AddressesMore(iov, v);
    WalkChunk(a, bt, Addresses(iov), v.base, v.len, left, rest);
    hide Walked, Sent, Addresses;
  }

  lemma WalkingBlock(mem: seq<byte>, a: seq<nat>, bt: nat, iov: seq<Iovec>, before: seq<byte>, sent: seq<byte>,
                     certain: nat, certain': nat, m: Message, rest: seq<nat>)
    requires InMemory(|mem|, a) && m.Block?
    requires Walking(mem, a, bt, iov, MessageAddresses(m) + rest, before, sent, certain, certain')
    ensures Walking(mem, a, bt, iov, Range(m.rdPtr, m.length) + (MessageAddresses(m.cont) + rest),
                    before, sent, certain, certain')
  {
    WalkBlock(a, bt, Addresses(iov), m, rest);
  }

  lemma WalkingMoved(mem: seq<byte>, a: seq<nat>, bt: nat, iov: seq<Iovec>, rest: seq<nat>,
                     before: seq<byte>, sent: seq<byte>, certain: nat, certain': nat,
                     bt': nat, result: int, last: int, sent': seq<byte>, certain'': nat)
    requires InMemory(|mem|, a) && Walking(mem, a, bt, iov, rest, before, sent, certain, certain')
    requires Moved(a, bt, bt', rest, result, last, certain', certain'') && Sent(mem, a, bt', before, sent')
    ensures result > 0 ==> Walking(mem, a, bt', [], rest, before, sent', certain, certain'')
    ensures result <= 0 ==> ReportedChain(result, bt', |a|, last) && Assured(certain, certain'', result, |a|)
  {
    assert Addresses([]) == [];
    hide Walked, Sent;
  }

  lemma WalkingEnd(mem: seq<byte>, a: seq<nat>, bt: nat, before: seq<byte>, sent: seq<byte>,
                   certain: nat, certain': nat, last: int)
    requires InMemory(|mem|, a) && Walking(mem, a, bt, [], [], before, sent, certain, certain')
    ensures Sent(mem, a, bt, before, sent) && bt == |a|
    ensures ReportedChain(Truncated(bt), bt, |a|, last) && Assured(certain, certain', Truncated(bt), |a|)
  {
    assert Addresses([]) == [];
    assert |a| - bt == |a[bt..]|;
  }

  lemma EmptyRange(p: nat, rest: seq<nat>)
    ensures Range(p, 0) + rest == rest
  {}

  lemma NoMessage(rest: seq<nat>)
    ensures MessageAddresses(Null) + rest == rest
  {}

  /** A transfer of the array, full or at the end of the walk, in which no buffer is larger than a chunk. */
  method TransferBatch(os: System, mem: seq<byte>, iov: array<Iovec>, iovcnt: nat, bt: nat, send: bool,
                       ghost chunkMax: nat, ghost a: seq<nat>, ghost rest: seq<nat>, ghost sent: seq<byte>,
                       ghost certain: nat)
    returns (result: int, bt': nat)
    requires 0 < iovcnt <= iov.Length && InMemory(|mem|, a)
    requires forall k | 0 <= k < iovcnt :: 0 < iov[k].len <= chunkMax
    requires Walking(mem, a, bt, iov[..iovcnt], rest, sent, os.sent, certain, Certain(os.script, send))
    modifies os, iov
    ensures Sent(mem, a, bt', sent, os.sent) && os.incoming == old(os.incoming) && result >= -1
    ensures result > 0 ==> Walking(mem, a, bt', [], rest, sent, os.sent, certain, Certain(os.script, send))
    ensures result <= 0 ==>
      ReportedChain(result, bt', |a|, os.last) && Assured(certain, Certain(os.script, send), result, |a|)
  {
    ghost var buffers, waiting, certain' := iov[..iovcnt], Addresses(iov[..iovcnt]), Certain(os.script, send);
    hide Sent, Walked, Certain, Addresses, InMemory, Assured, ReportedChain, Moved, Reported;
    WaitingInMemory(|mem|, a, bt, waiting, rest);
    var ct;
    ghost var s;
    if send {
      result, ct, s := SendvN(os, mem, iov, iovcnt);
    } else {
      result, ct, s := WritevN(os, mem, iov, iovcnt);
    }
    WalkTransfer(mem, a, bt, waiting, rest, ct, sent, old(os.sent), os.sent);
    WalkMoved(a, bt, waiting, rest, ct, iovcnt, result, os.last, certain', Certain(os.script, send));
    bt' := bt + ct;
    WalkingMoved(mem, a, bt, buffers, rest, sent, old(os.sent), certain, certain', bt', result, os.last,
                 os.sent, Certain(os.script, send));
  }

  /** The innermost loop: puts a block into the array, chunk by chunk, and transfers the array whenever
      it is full. No buffer in it is ever larger than a chunk. `failed` says that a transfer has ended the walk. */
  method AddBlock(os: System, mem: seq<byte>, iov: array<Iovec>, iovcnt: nat, bt: nat,
                  rdPtr: nat, blockLength: nat, chunkMax: nat, send: bool,
                  ghost a: seq<nat>, ghost rest: seq<nat>, ghost sent: seq<byte>, ghost certain: nat)
    returns (failed: bool, result: int, iovcnt': nat, bt': nat)
    requires iovcnt < iov.Length && chunkMax > 0 && InMemory(|mem|, a)
    requires forall k | 0 <= k < iovcnt :: 0 < iov[k].len <= chunkMax
    requires Walking(mem, a, bt, iov[..iovcnt], Range(rdPtr, blockLength) + rest,
                     sent, os.sent, certain, Certain(os.script, send))
    modifies os, iov
    ensures os.incoming == old(os.incoming)
    ensures !failed ==> iovcnt' < iov.Length
    ensures !failed ==> Walking(mem, a, bt', iov[..iovcnt'], rest, sent, os.sent, certain, Certain(os.script, send))
    ensures !failed ==> forall k | 0 <= k < iovcnt' :: 0 < iov[k].len <= chunkMax
    ensures failed ==> Sent(mem, a, bt', sent, os.sent)
    ensures failed ==> ReportedChain(result, bt', |a|, os.last)
    ensures failed ==> Assured(certain, Certain(os.script, send), result, |a|)
  {
    hide *;
    var length: nat, thisBlockPtr: nat := blockLength, rdPtr;
    iovcnt', bt', failed, result := iovcnt, bt, false, 0;
    while length > 0
      invariant iovcnt' < iov.Length && os.incoming == old(os.incoming)
      invariant forall k | 0 <= k < iovcnt' :: 0 < iov[k].len <= chunkMax
      invariant Walking(mem, a, bt', iov[..iovcnt'], Range(thisBlockPtr, length) + rest,
                        sent, os.sent, certain, Certain(os.script, send))
    {
      var chunk := if length <= chunkMax then length else chunkMax;
      ghost var before, v := iov[..iovcnt'], Iovec(thisBlockPtr, chunk);
      WalkingChunk(mem, a, bt', before, sent, os.sent, certain, Certain(os.script, send), v, length - chunk, rest);
      iov[iovcnt'] := Iovec(thisBlockPtr, chunk);
      length := length - chunk;
      thisBlockPtr := thisBlockPtr + chunk;
      iovcnt' := iovcnt' + 1;
      assert iov[..iovcnt'] == before + [v];
      if iovcnt' == iov.Length {
        result, bt' := TransferBatch(os, mem, iov, iovcnt', bt', send, chunkMax,
                                     a, Range(thisBlockPtr, length) + rest, sent, certain);
        if result == -1 || result == 0 {
          failed := true;
          return;
        }
        iovcnt' := 0;
        assert iov[..iovcnt'] == [];
      }
    }
    EmptyRange(thisBlockPtr, rest);
  }

  /** `write_n`, and with `send` `send_n`, whatever the sizes of the array and of a chunk: on every return
      exactly the first `bt` bytes of the chain have been written, and all of them on success. */
  method TransferN(os: System, mem: seq<byte>, message: Message, send: bool, iovMax: nat, chunkMax: nat)
    returns (result: int, bt: nat)
    requires iovMax > 0 && chunkMax > 0 && InMemory(|mem|, ChainAddresses(message))
    modifies os
    ensures ReportedChain(result, bt, |ChainAddresses(message)|, os.last)
    ensures Sent(mem, ChainAddresses(message), bt, old(os.sent), os.sent) && os.incoming == old(os.incoming)
    ensures Assured(Certain(old(os.script), send), Certain(os.script, send), result, |ChainAddresses(message)|)
  {
    hide Walking, Moved, ReportedChain, Assured, Certain, Addresses, InMemory, Truncated, Range, MessageAddresses, Sent;
    ghost var a, sent, certain := ChainAddresses(message), os.sent, Certain(os.script, send);
    var iov := new Iovec[iovMax];
    var iovcnt: nat, failed := 0, false;
    bt := 0;
    WalkingStart(mem, a, sent, certain);
    assert iov[..iovcnt] == [];
    var messageBlock := message;
    while messageBlock.Block?
      invariant iovcnt < iovMax && os.incoming == old(os.incoming)
      invariant forall k | 0 <= k < iovcnt :: 0 < iov[k].len <= chunkMax
      invariant Walking(mem, a, bt, iov[..iovcnt], ChainAddresses(messageBlock),
                        sent, os.sent, certain, Certain(os.script, send))
      decreases messageBlock
    {
      ghost var next := ChainAddresses(messageBlock.next);
      var current := messageBlock;
      while current.Block?
        invariant iovcnt < iovMax && os.incoming == old(os.incoming)
        invariant forall k | 0 <= k < iovcnt :: 0 < iov[k].len <= chunkMax
        invariant Walking(mem, a, bt, iov[..iovcnt], MessageAddresses(current) + next,
                          sent, os.sent, certain, Certain(os.script, send))
        decreases current
      {
        WalkingBlock(mem, a, bt, iov[..iovcnt], sent, os.sent, certain, Certain(os.script, send), current, next);
        failed, result, iovcnt, bt := AddBlock(os, mem, iov, iovcnt, bt, current.rdPtr, current.length, chunkMax, send,
                                               a, MessageAddresses(current.cont) + next, sent, certain);
        if failed {
          return;
        }
        current := current.cont;
      }
      NoMessage(next);
      messageBlock := messageBlock.next;
    }
    if iovcnt != 0 {
      result, bt := TransferBatch(os, mem, iov, iovcnt, bt, send, chunkMax, a, [], sent, certain);
      if result == -1 || result == 0 {
        return;
      }
      iovcnt := 0;
    }
    assert iov[..iovcnt] == [];
    WalkingEnd(mem, a, bt, sent, os.sent, certain, Certain(os.script, send), os.last);
    result := Truncated(bt);
  }
}
