/**
  The loops of ACE/ace/ACE.cpp that gather from or scatter to an array of buffers until all of it is
  transferred: `writev_n`, `sendv_n_i`, `readv_n` and `recvv_n_i`.

  Memory is a sequence of bytes and a buffer a range of addresses, so that an array of buffers stands
  for one sequence of addresses. The system answers from a script, one answer a call; a script that has
  run out fails. Whatever the script, the statements below hold.
 */
module Transfer {

  newtype byte = x: int | 0 <= x < 0x100

  datatype Iovec = Iovec(base: nat, len: nat)

  const SSIZE_MAX := 0x7fff_ffff_ffff_ffff

  function Truncated(n: nat): (t: nat)
    ensures t <= n && t <= SSIZE_MAX && (t == n || t == SSIZE_MAX)
  {
    if n <= SSIZE_MAX then n else SSIZE_MAX
  }

  function Range(base: nat, len: nat): seq<nat> {
    seq(len, i requires 0 <= i => base + i)
  }

  /** The addresses an array of buffers covers, in order. */
  function Addresses(iov: seq<Iovec>): seq<nat> {
    if iov == [] then [] else Range(iov[0].base, iov[0].len) + Addresses(iov[1..])
  }

  ghost predicate InMemory(size: nat, a: seq<nat>) {
    forall i | 0 <= i < |a| :: a[i] < size
  }

  function Load(mem: seq<byte>, a: seq<nat>): seq<byte>
    requires InMemory(|mem|, a)
  {
    seq(|a|, i requires 0 <= i < |a| => mem[a[i]])
  }

  function Store(mem: seq<byte>, a: seq<nat>, data: seq<byte>): (mem': seq<byte>)
    requires InMemory(|mem|, a) && |a| == |data|
    ensures |mem'| == |mem|
    decreases |a|
  {
    if a == [] then mem
    else Store(mem, a[..|a| - 1], data[..|a| - 1])[a[|a| - 1] := data[|a| - 1]]
  }

  lemma InMemoryBoth(size: nat, a: seq<nat>, b: seq<nat>)
    requires InMemory(size, a) && InMemory(size, b)
    ensures InMemory(size, a + b)
  {}

  lemma TakeBoth<T>(a: seq<T>, b: seq<T>)
    requires b != []
    ensures (a + b)[..|a + b| - 1] == a + b[..|b| - 1] && (a + b)[|a + b| - 1] == b[|b| - 1]
  {}

  lemma {:induction false} StoreTwice(mem: seq<byte>, a: seq<nat>, data: seq<byte>, b: seq<nat>, more: seq<byte>)
    requires InMemory(|mem|, a) && InMemory(|mem|, b) && InMemory(|mem|, a + b) && |a| == |data| && |b| == |more|
    ensures Store(Store(mem, a, data), b, more) == Store(mem, a + b, data + more)
    decreases |b|
  {
    if b == [] {
      assert a + b == a && data + more == data;
    } else {
      var n := |b| - 1;
      InMemoryBoth(|mem|, a, b[..n]);
      StoreTwice(mem, a, data, b[..n], more[..n]);
      TakeBoth(a, b);
      TakeBoth(data, more);
    }
  }

  /** Buffers that do not overlap end up holding what was stored, and nothing else changes. */
  lemma {:induction false} StoreLoad(mem: seq<byte>, a: seq<nat>, data: seq<byte>)
    requires InMemory(|mem|, a) && |a| == |data|
    ensures forall p | 0 <= p < |mem| && p !in a :: Store(mem, a, data)[p] == mem[p]
    ensures (forall i, j | 0 <= i < j < |a| :: a[i] != a[j]) ==> Load(Store(mem, a, data), a) == data
    decreases |a|
  {
    if a != [] {
      var n := |a| - 1;
      StoreLoad(mem, a[..n], data[..n]);
      forall p | 0 <= p < |mem| && p !in a ensures Store(mem, a, data)[p] == mem[p] {
        assert p !in a[..n];
      }
      if forall i, j | 0 <= i < j < |a| :: a[i] != a[j] {
        forall i | 0 <= i < |a| ensures Store(mem, a, data)[a[i]] == data[i] {
          if i < n {
            assert Load(Store(mem, a[..n], data[..n]), a[..n])[i] == data[i];
          }
        }
      }
    }
  }

  // ----- The operating system

  /** What a call meets: up to k bytes go through (at least one, if there are any), the end of file, an
      error, or an operation that would block. For a wait until ready the first is success. */
  datatype Answer = Count(k: nat) | Eof | Fail | WouldBlock

  function Min(a: nat, b: nat): nat {
    if a < b then a else b
  }

  /** The result of a call on `total` bytes of buffers, when `available` can go through at most. More
      than a signed size can say is refused. */
  function Result(script: seq<Answer>, total: nat, available: nat): (n: int)
    ensures -1 <= n <= total && n <= available
    ensures n > 0 ==> total <= SSIZE_MAX
  {
    if script == [] || total > SSIZE_MAX then -1
    else match script[0]
      case Count(k) => Min(Min(if k == 0 then 1 else k, total), available)
      case Eof => 0
      case Fail => -1
      case WouldBlock => -1
  }

  function Rest(script: seq<Answer>): (rest: seq<Answer>)
    ensures if script == [] then rest == [] else |rest| < |script|
  {
    if script == [] then [] else script[1..]
  }

  predicate Blocked(script: seq<Answer>, total: nat): (b: bool)
    ensures b ==> script != []
  {
    script != [] && total <= SSIZE_MAX && script[0].WouldBlock?
  }

  class System {
    var script: seq<Answer>
    var sent: seq<byte>
    var incoming: seq<byte>
    /** What the latest transfer returned. */
    ghost var last: int

    /** `again` says that the error is that the call would block. */
    method Writev(mem: seq<byte>, iov: seq<Iovec>) returns (n: int, again: bool)
      requires InMemory(|mem|, Addresses(iov))
      modifies this
      ensures incoming == old(incoming) && script == Rest(old(script))
      ensures n == last == Result(old(script), |Addresses(iov)|, |Addresses(iov)|)
      ensures again <==> Blocked(old(script), |Addresses(iov)|)
      ensures sent == old(sent) + Load(mem, Addresses(iov)[..if n < 0 then 0 else n])
    {
      var a := Addresses(iov);
      n := Result(script, |a|, |a|);
      again := Blocked(script, |a|);
      if n > 0 {
        sent := sent + Load(mem, a[..n]);
      }
      script := Rest(script);
      last := n;
    }

    method Readv(mem: array<byte>, iov: seq<Iovec>) returns (n: int, again: bool)
      requires InMemory(mem.Length, Addresses(iov))
      modifies this, mem
      ensures sent == old(sent) && script == Rest(old(script))
      ensures n == last == Result(old(script), |Addresses(iov)|, |old(incoming)|)
      ensures again <==> Blocked(old(script), |Addresses(iov)|)
      ensures var m := if n < 0 then 0 else n;
        && incoming == old(incoming)[m..]
        && mem[..] == Store(old(mem[..]), Addresses(iov)[..m], old(incoming)[..m])
    {
      var a := Addresses(iov);
      n := Result(script, |a|, |incoming|);
      again := Blocked(script, |a|);
      var i := 0;
      while i < n
        invariant 0 <= i <= (if n < 0 then 0 else n)
        invariant sent == old(sent) && script == old(script) && incoming == old(incoming)
        invariant mem[..] == Store(old(mem[..]), a[..i], incoming[..i])
      {
        assert a[..i + 1][..i] == a[..i] && incoming[..i + 1][..i] == incoming[..i];
        mem[a[i]] := incoming[i];
        i := i + 1;
      }
      incoming := incoming[i..];
      script := Rest(script);
      last := n;
    }

    /** `handle_read_ready` and `handle_write_ready`. */
    method HandleReady() returns (result: int)
      modifies this`script
      ensures script == Rest(old(script))
      ensures result == if old(script) != [] && old(script)[0].Count? then 1 else -1
    {
      result := if script != [] && script[0].Count? then 1 else -1;
      script := Rest(script);
    }
  }

  // ----- Moving past what has been transferred

  lemma AddressesFrom(iov: seq<Iovec>, s: nat)
    requires s < |iov|
    ensures Addresses(iov[s..]) == Range(iov[s].base, iov[s].len) + Addresses(iov[s + 1..])
  {
    assert iov[s..][1..] == iov[s + 1..];
  }

  /** What follows a transfer of n bytes in all four loops: the index moves past the buffers that are
      done, and the one that is done in part is cut in place. What is left of the array covers exactly
      the addresses that are left, and the index is at the end exactly if there are none. */
  method Advance(iov: array<Iovec>, iovcnt: nat, start: nat, transferred: nat) returns (s: nat)
    requires start <= iovcnt <= iov.Length && transferred <= |Addresses(iov[start..iovcnt])|
    modifies iov
    ensures start <= s <= iovcnt
    ensures Addresses(iov[s..iovcnt]) == old(Addresses(iov[start..iovcnt]))[transferred..]
    ensures s < iovcnt <==> transferred < |old(Addresses(iov[start..iovcnt]))|
    ensures forall k | 0 <= k < iov.Length && (k < start || k > s || k >= iovcnt) :: iov[k] == old(iov[k])
  {
    var n: nat := transferred;
    s := start;
    ghost var a := Addresses(iov[start..iovcnt]);
    while s < iovcnt && n >= iov[s].len
      invariant start <= s <= iovcnt && iov[..] == old(iov[..])
      invariant n <= |Addresses(iov[s..iovcnt])| && Addresses(iov[s..iovcnt])[n..] == a[transferred..]
    {
      AddressesFrom(iov[..iovcnt], s);
      assert iov[..iovcnt][s..] == iov[s..iovcnt] && iov[..iovcnt][s + 1..] == iov[s + 1..iovcnt];
      n := n - iov[s].len;
      s := s + 1;
    }
    if n != 0 {
      ghost var before := iov[..iovcnt];
      AddressesFrom(before, s);
      assert before[s..] == iov[s..iovcnt];
      iov[s] := Iovec(iov[s].base + n, iov[s].len - n);
      AddressesFrom(iov[..iovcnt], s);
      assert iov[..iovcnt][s..] == iov[s..iovcnt] && iov[..iovcnt][s + 1..] == before[s + 1..];
      assert Range(before[s].base, before[s].len)[n..] == Range(iov[s].base, iov[s].len);
    } else if s < iovcnt {
      AddressesFrom(iov[..iovcnt], s);
      assert iov[..iovcnt][s..] == iov[s..iovcnt];
    }
  }

  // ----- The four loops

  /** How many transfers are certain to be made before the script gives anything else; a loop that
      retries also gets over an operation that would block, if the wait for it succeeds. */
  function Certain(script: seq<Answer>, retry: bool): nat {
    if script == [] then 0
    else match script[0]
      case Count(_) => 1 + Certain(script[1..], retry)
      case WouldBlock => if retry && |script| > 1 && script[1].Count? then Certain(script[2..], retry) else 0
      case _ => 0
  }

  /** What each loop promises of its result and its byte count, for `total` bytes in `iovcnt` buffers. */
  ghost predicate Reported(result: int, bt: nat, iovcnt: nat, total: nat, last: int) {
    && bt <= total && result >= -1
    && (result > 0 <==> bt == total > 0)
    && (result > 0 ==> result == total)
    && (result <= 0 ==> result == if iovcnt == 0 then 0 else last)
  }

  /** A script with as many certain transfers as there are bytes is success, and success uses up no more. */
  ghost predicate Assured(before: nat, after: nat, result: int, total: nat) {
    && (before >= total > 0 && total <= SSIZE_MAX ==> result == total)
    && (result > 0 ==> before <= after + total)
  }

  /** Progress of a loop after bt of the addresses a: `left` is what the array covers from its index on. */
  ghost predicate Remaining(a: seq<nat>, bt: nat, left: seq<nat>) {
    bt <= |a| && left == a[bt..]
  }

  ghost predicate Sent(mem: seq<byte>, a: seq<nat>, bt: nat, before: seq<byte>, after: seq<byte>)
    requires InMemory(|mem|, a)
  {
    bt <= |a| && after == before + Load(mem, a[..bt])
  }

  lemma SentMore(mem: seq<byte>, a: seq<nat>, bt: nat, n: nat, before: seq<byte>, between: seq<byte>, after: seq<byte>)
    requires InMemory(|mem|, a) && bt + n <= |a|
    requires Sent(mem, a, bt, before, between) && after == between + Load(mem, a[bt..][..n])
    ensures Sent(mem, a, bt + n, before, after)
  {
    assert Load(mem, a[..bt]) + Load(mem, a[bt..][..n]) == Load(mem, a[..bt + n]);
  }

  lemma RemainingMore(a: seq<nat>, bt: nat, n: nat, left: seq<nat>, left': seq<nat>)
    requires Remaining(a, bt, left) && n <= |left| && left' == left[n..]
    ensures Remaining(a, bt + n, left')
  {}

  /** One transfer uses up one of the certain ones; without one, a loop ends only if there was none. */
  lemma CertainStep(script: seq<Answer>, retry: bool, total: nat, available: nat)
    ensures var n := Result(script, total, available);
      && (n > 0 ==> Certain(script, retry) == 1 + Certain(Rest(script), retry))
      && (n <= 0 < total <= SSIZE_MAX && available > 0 && !(retry && Blocked(script, total)) ==>
            Certain(script, retry) == 0)
  {}

  /** A wait that succeeds costs nothing, and one that fails comes after the last certain transfer. */
  lemma CertainRetry(script: seq<Answer>, total: nat, available: nat)
    requires Blocked(script, total)
    ensures Result(script, total, available) == -1
    ensures Certain(script, true) ==
      if Rest(script) != [] && Rest(script)[0].Count? then Certain(Rest(Rest(script)), true) else 0
  {}

  lemma NoBuffers(iov: seq<Iovec>)
    ensures iov == [] ==> Addresses(iov) == []
  {}

  lemma SentNone(mem: seq<byte>, a: seq<nat>, sent: seq<byte>)
    requires InMemory(|mem|, a)
    ensures Sent(mem, a, 0, sent, sent)
  {}

  /** `writev_n`: on every return exactly the first `bt` bytes of the buffers have been written, the rest
      is what the array covers from s on, and a positive result says that nothing is left. */
  method WritevN(os: System, mem: seq<byte>, iov: array<Iovec>, iovcnt: nat)
    returns (result: int, bt: nat, ghost s: nat)
    requires iovcnt <= iov.Length && InMemory(|mem|, Addresses(iov[..iovcnt]))
    modifies os, iov
    ensures var a := old(Addresses(iov[..iovcnt]));
      && Reported(result, bt, iovcnt, |a|, os.last)
      && Sent(mem, a, bt, old(os.sent), os.sent) && os.incoming == old(os.incoming)
      && s <= iovcnt && Remaining(a, bt, Addresses(iov[s..iovcnt]))
      && Assured(Certain(old(os.script), false), Certain(os.script, false), result, |a|)
    ensures iov[iovcnt..] == old(iov[iovcnt..])
  {
    hide Sent, Certain, Result, Load, Addresses, Blocked, Rest;
    var i := 0;
    ghost var a := Addresses(iov[..iovcnt]);
    NoBuffers(iov[..iovcnt]);
    bt := 0;
    SentNone(mem, a, os.sent);
    while i < iovcnt
      invariant i <= iovcnt && bt <= |a| && iov[iovcnt..] == old(iov[iovcnt..])
      invariant Remaining(a, bt, Addresses(iov[i..iovcnt])) && (bt > 0 ==> (i < iovcnt <==> bt < |a|))
      invariant Sent(mem, a, bt, old(os.sent), os.sent) && os.incoming == old(os.incoming)
      invariant Certain(old(os.script), false) <= Certain(os.script, false) + bt
      invariant if bt == 0 then i == 0 else |a| <= SSIZE_MAX
      decreases |a| - bt
    {
      ghost var script, sent, left := os.script, os.sent, Addresses(iov[i..iovcnt]);
      CertainStep(script, false, |a| - bt, |a| - bt);
      var n, _ := os.Writev(mem, iov[i..iovcnt]);
      if n == -1 || n == 0 {
        assert left[..0] == [];
        SentMore(mem, a, bt, 0, old(os.sent), sent, os.sent);
        return n, bt, i;
      }
      i := Advance(iov, iovcnt, i, n);
      SentMore(mem, a, bt, n, old(os.sent), sent, os.sent);
      RemainingMore(a, bt, n, left, Addresses(iov[i..iovcnt]));
      bt := bt + n;
    }
    return Truncated(bt), bt, i;
  }

  /** `sendv_n_i`, with a timeout or without: the same, and an operation that would block is tried again
      once the handle is ready. */
  method SendvN(os: System, mem: seq<byte>, iov: array<Iovec>, iovcnt: nat)
    returns (result: int, bt: nat, ghost s: nat)
    requires iovcnt <= iov.Length && InMemory(|mem|, Addresses(iov[..iovcnt]))
    modifies os, iov
    ensures var a := old(Addresses(iov[..iovcnt]));
      && Reported(result, bt, iovcnt, |a|, os.last)
      && Sent(mem, a, bt, old(os.sent), os.sent) && os.incoming == old(os.incoming)
      && s <= iovcnt && Remaining(a, bt, Addresses(iov[s..iovcnt]))
      && Assured(Certain(old(os.script), true), Certain(os.script, true), result, |a|)
    ensures iov[iovcnt..] == old(iov[iovcnt..])
  {
    hide Sent, Certain, Result, Load, Addresses, Blocked, Rest;
    var i := 0;
    ghost var a := Addresses(iov[..iovcnt]);
    NoBuffers(iov[..iovcnt]);
    bt := 0;
    SentNone(mem, a, os.sent);
    while i < iovcnt
      invariant i <= iovcnt && bt <= |a| && iov[iovcnt..] == old(iov[iovcnt..])
      invariant Remaining(a, bt, Addresses(iov[i..iovcnt])) && (bt > 0 ==> (i < iovcnt <==> bt < |a|))
      invariant Sent(mem, a, bt, old(os.sent), os.sent) && os.incoming == old(os.incoming)
      invariant Certain(old(os.script), true) <= Certain(os.script, true) + bt
      invariant if bt == 0 then i == 0 else |a| <= SSIZE_MAX
      decreases |a| - bt, |os.script|
    {
      ghost var script, sent, left := os.script, os.sent, Addresses(iov[i..iovcnt]);
      CertainStep(script, true, |a| - bt, |a| - bt);
      if Blocked(script, |a| - bt) {
        CertainRetry(script, |a| - bt, |a| - bt);
      }
      var n, again := os.Writev(mem, iov[i..iovcnt]);
      if n == 0 || n == -1 {
        assert left[..0] == [];
        SentMore(mem, a, bt, 0, old(os.sent), sent, os.sent);
        if n == -1 && again {
          var ready := os.HandleReady();
          if ready != -1 {
            continue;
          }
        }
        return n, bt, i;
      }
      i := Advance(iov, iovcnt, i, n);
      SentMore(mem, a, bt, n, old(os.sent), sent, os.sent);
      RemainingMore(a, bt, n, left, Addresses(iov[i..iovcnt]));
      bt := bt + n;
    }
    return Truncated(bt), bt, i;
  }

  ghost predicate Received(mem: seq<byte>, a: seq<nat>, bt: nat, before: seq<byte>, mem': seq<byte>, after: seq<byte>)
    requires InMemory(|mem|, a)
  {
    && bt <= |a| && bt <= |before| && after == before[bt..]
    && mem' == Store(mem, a[..bt], before[..bt])
  }

  lemma TakeMore<T>(s: seq<T>, i: nat, n: nat)
    requires i + n <= |s|
    ensures s[..i] + s[i..][..n] == s[..i + n] && s[i..][n..] == s[i + n..]
  {}

  lemma ReceivedMore(mem: seq<byte>, a: seq<nat>, bt: nat, n: nat, before: seq<byte>,
                     mem': seq<byte>, between: seq<byte>, mem'': seq<byte>, after: seq<byte>)
    requires InMemory(|mem|, a) && bt + n <= |a| && n <= |between|
    requires Received(mem, a, bt, before, mem', between) && |mem'| == |mem| && InMemory(|mem'|, a[bt..])
    requires mem'' == Store(mem', a[bt..][..n], between[..n]) && after == between[n..]
    ensures Received(mem, a, bt + n, before, mem'', after) && |mem''| == |mem|
  {
    hide Store;
    TakeMore(a, bt, n);
    TakeMore(before, bt, n);
    InMemoryBoth(|mem|, a[..bt], a[bt..][..n]);
    StoreTwice(mem, a[..bt], before[..bt], a[bt..][..n], between[..n]);
  }

  lemma ReceivedNone(mem: seq<byte>, a: seq<nat>, incoming: seq<byte>)
    requires InMemory(|mem|, a)
    ensures Received(mem, a, 0, incoming, mem, incoming)
  {}

  /** `readv_n`: on every return exactly the first `bt` bytes that came in are in the first `bt` places of
      the buffers, and no other place of memory has changed. */
  method ReadvN(os: System, mem: array<byte>, iov: array<Iovec>, iovcnt: nat)
    returns (result: int, bt: nat, ghost s: nat)
    requires iovcnt <= iov.Length && InMemory(mem.Length, Addresses(iov[..iovcnt]))
    modifies os, iov, mem
    ensures var a := old(Addresses(iov[..iovcnt]));
      && Reported(result, bt, iovcnt, |a|, os.last)
      && Received(old(mem[..]), a, bt, old(os.incoming), mem[..], os.incoming) && os.sent == old(os.sent)
      && s <= iovcnt && Remaining(a, bt, Addresses(iov[s..iovcnt]))
      && (|old(os.incoming)| >= |a| ==> Assured(Certain(old(os.script), false), Certain(os.script, false), result, |a|))
    ensures iov[iovcnt..] == old(iov[iovcnt..])
  {
    hide Received, Certain, Result, Store, Addresses, Blocked, Rest;
    var i := 0;
    ghost var a := Addresses(iov[..iovcnt]);
    NoBuffers(iov[..iovcnt]);
    bt := 0;
    ReceivedNone(mem[..], a, os.incoming);
    while i < iovcnt
      invariant i <= iovcnt && bt <= |a| && iov[iovcnt..] == old(iov[iovcnt..]) && os.sent == old(os.sent)
      invariant Remaining(a, bt, Addresses(iov[i..iovcnt])) && (bt > 0 ==> (i < iovcnt <==> bt < |a|))
      invariant Received(old(mem[..]), a, bt, old(os.incoming), mem[..], os.incoming)
      invariant |old(os.incoming)| == |os.incoming| + bt
      invariant Certain(old(os.script), false) <= Certain(os.script, false) + bt
      invariant if bt == 0 then i == 0 else |a| <= SSIZE_MAX
      decreases |a| - bt
    {
      ghost var script, incoming, was, left := os.script, os.incoming, mem[..], Addresses(iov[i..iovcnt]);
      CertainStep(script, false, |a| - bt, |incoming|);
      var n, _ := os.Readv(mem, iov[i..iovcnt]);
      ReceivedMore(old(mem[..]), a, bt, if n < 0 then 0 else n, old(os.incoming), was, incoming, mem[..], os.incoming);
      if n == -1 || n == 0 {
        return n, bt, i;
      }
      i := Advance(iov, iovcnt, i, n);
      RemainingMore(a, bt, n, left, Addresses(iov[i..iovcnt]));
      bt := bt + n;
    }
    return Truncated(bt), bt, i;
  }

  /** `recvv_n_i`, with a timeout or without: the same with retries. */
  method RecvvN(os: System, mem: array<byte>, iov: array<Iovec>, iovcnt: nat)
    returns (result: int, bt: nat, ghost s: nat)
    requires iovcnt <= iov.Length && InMemory(mem.Length, Addresses(iov[..iovcnt]))
    modifies os, iov, mem
    ensures var a := old(Addresses(iov[..iovcnt]));
      && Reported(result, bt, iovcnt, |a|, os.last)
      && Received(old(mem[..]), a, bt, old(os.incoming), mem[..], os.incoming) && os.sent == old(os.sent)
      && s <= iovcnt && Remaining(a, bt, Addresses(iov[s..iovcnt]))
      && (|old(os.incoming)| >= |a| ==> Assured(Certain(old(os.script), true), Certain(os.script, true), result, |a|))
    ensures iov[iovcnt..] == old(iov[iovcnt..])
  {
    hide Received, Certain, Result, Store, Addresses, Blocked, Rest;
    var i := 0;
    ghost var a := Addresses(iov[..iovcnt]);
    NoBuffers(iov[..iovcnt]);
    bt := 0;
    ReceivedNone(mem[..], a, os.incoming);
    while i < iovcnt
      invariant i <= iovcnt && bt <= |a| && iov[iovcnt..] == old(iov[iovcnt..]) && os.sent == old(os.sent)
      invariant Remaining(a, bt, Addresses(iov[i..iovcnt])) && (bt > 0 ==> (i < iovcnt <==> bt < |a|))
      invariant Received(old(mem[..]), a, bt, old(os.incoming), mem[..], os.incoming)
      invariant |old(os.incoming)| == |os.incoming| + bt
      invariant Certain(old(os.script), true) <= Certain(os.script, true) + bt
      invariant if bt == 0 then i == 0 else |a| <= SSIZE_MAX
      decreases |a| - bt, |os.script|
    {
      ghost var script, incoming, was, left := os.script, os.incoming, mem[..], Addresses(iov[i..iovcnt]);
      CertainStep(script, true, |a| - bt, |incoming|);
      if Blocked(script, |a| - bt) {
        CertainRetry(script, |a| - bt, |incoming|);
      }
      var n, again := os.Readv(mem, iov[i..iovcnt]);
      ReceivedMore(old(mem[..]), a, bt, if n < 0 then 0 else n, old(os.incoming), was, incoming, mem[..], os.incoming);
      if n == 0 || n == -1 {
        if n == -1 && again {
          var ready := os.HandleReady();
          if ready != -1 {
            continue;
          }
        }
        return n, bt, i;
      }
      i := Advance(iov, iovcnt, i, n);
      RemainingMore(a, bt, n, left, Addresses(iov[i..iovcnt]));
      bt := bt + n;
    }
    return Truncated(bt), bt, i;
  }
}
