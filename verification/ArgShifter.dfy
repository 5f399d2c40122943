/**
  ACE_Arg_Shifter_T (ACE/ace/Arg_Shifter.cpp): hands out the entries of an argument vector one after the
  other and rearranges the vector on the way, the ignored ones to its front and the consumed ones to
  its back. Strings hold no null character; an entry that is a null pointer is `NullPtr`.
 */
module ArgShifter {
  import opened Characters

  datatype Arg = NullPtr | Text(text: string)

  // ----- Where the arguments go

  /** A successful call of `ignore_arg` or `consume_arg`. */
  datatype Call = Ignore(number: nat) | Consume(number: nat)

  function Visited(calls: seq<Call>): nat {
    if calls == [] then 0 else Visited(calls[..|calls| - 1]) + calls[|calls| - 1].number
  }

  function Front(args: seq<Arg>, calls: seq<Call>): seq<Arg>
    requires Visited(calls) <= |args|
  {
    if calls == [] then []
    else
      var before, last := calls[..|calls| - 1], calls[|calls| - 1];
      if last.Ignore? then Front(args, before) + args[Visited(before)..Visited(calls)] else Front(args, before)
  }

  /** A consumed group goes in front of those consumed before it. */
  function Back(args: seq<Arg>, calls: seq<Call>): seq<Arg>
    requires Visited(calls) <= |args|
  {
    if calls == [] then []
    else
      var before, last := calls[..|calls| - 1], calls[|calls| - 1];
      if last.Consume? then args[Visited(before)..Visited(calls)] + Back(args, before) else Back(args, before)
  }

  /** Whether the argument at position i was ignored. */
  predicate Ignored(calls: seq<Call>, i: nat)
    requires i < Visited(calls)
  {
    var before, last := calls[..|calls| - 1], calls[|calls| - 1];
    if i < Visited(before) then Ignored(before, i) else last.Ignore?
  }

  /** The ignored arguments keep their order: taking the visited arguments one by one and leaving out
      what was consumed gives the front. */
  function Kept(args: seq<Arg>, calls: seq<Call>, n: nat): seq<Arg>
    requires n <= Visited(calls) <= |args|
  {
    if n == 0 then []
    else Kept(args, calls, n - 1) + if Ignored(calls, n - 1) then [args[n - 1]] else []
  }

  lemma {:induction false} KeptBefore(args: seq<Arg>, calls: seq<Call>, n: nat)
    requires calls != [] && Visited(calls) <= |args| && n <= Visited(calls[..|calls| - 1])
    ensures Kept(args, calls, n) == Kept(args, calls[..|calls| - 1], n)
  {
    if n > 0 {
      KeptBefore(args, calls, n - 1);
    }
  }

  lemma {:induction false} KeptGroup(args: seq<Arg>, calls: seq<Call>, n: nat)
    requires calls != [] && Visited(calls[..|calls| - 1]) <= n <= Visited(calls) <= |args|
    ensures var from := Visited(calls[..|calls| - 1]);
      Kept(args, calls, n) == Kept(args, calls, from) + if calls[|calls| - 1].Ignore? then args[from..n] else []
    decreases n
  {
    var from := Visited(calls[..|calls| - 1]);
    if n > from {
      KeptGroup(args, calls, n - 1);
      assert args[from..n] == args[from..n - 1] + [args[n - 1]];
    }
  }

  lemma {:induction false} FrontKeepsOrder(args: seq<Arg>, calls: seq<Call>)
    requires Visited(calls) <= |args|
    ensures Front(args, calls) == Kept(args, calls, Visited(calls))
    decreases |calls|
  {
    if calls != [] {
      var before := calls[..|calls| - 1];
      FrontKeepsOrder(args, before);
      KeptBefore(args, calls, Visited(before));
      KeptGroup(args, calls, Visited(calls));
    }
  }

  /** Nothing is lost or doubled: front and back together are the visited arguments. */
  lemma {:induction false} FrontAndBack(args: seq<Arg>, calls: seq<Call>)
    requires Visited(calls) <= |args|
    ensures multiset(Front(args, calls)) + multiset(Back(args, calls)) == multiset(args[..Visited(calls)])
    ensures |Front(args, calls)| + |Back(args, calls)| == Visited(calls)
    decreases |calls|
  {
    if calls != [] {
      var before := calls[..|calls| - 1];
      FrontAndBack(args, before);
      assert args[..Visited(calls)] == args[..Visited(before)] + args[Visited(before)..Visited(calls)];
    }
  }

  lemma OneMore(args: seq<Arg>, calls: seq<Call>, call: Call)
    requires Visited(calls) + call.number <= |args|
    ensures var calls' := calls + [call];
      && Visited(calls') == Visited(calls) + call.number
      && var group := args[Visited(calls)..Visited(calls')];
      && Front(args, calls') == (if call.Ignore? then Front(args, calls) + group else Front(args, calls))
      && Back(args, calls') == (if call.Ignore? then Back(args, calls) else group + Back(args, calls))
  {
    assert (calls + [call])[..|calls|] == calls;
  }

  /** The vector: the front, then slots that nobody has written, then the back. */
  function Layout(front: seq<Arg>, free: nat, back: seq<Arg>): seq<Arg> {
    front + seq(free, i => NullPtr) + back
  }

  lemma LayoutFree(front: seq<Arg>, free: nat, back: seq<Arg>, v: seq<Arg>)
    requires v == Layout(front, free, back)
    ensures |v| == |front| + free + |back| && forall k | |front| <= k < |front| + free :: v[k] == NullPtr
  {}

  lemma LayoutConsume(front: seq<Arg>, free: nat, back: seq<Arg>, v: seq<Arg>, group: seq<Arg>)
    requires v == Layout(front, free, back) && |group| <= free
    ensures v[..|front| + free - |group|] + group + v[|front| + free..] == Layout(front, free - |group|, group + back)
  {}

  lemma LayoutIgnore(front: seq<Arg>, free: nat, back: seq<Arg>, v: seq<Arg>, group: seq<Arg>)
    requires v == Layout(front, free, back) && |group| <= free
    ensures v[..|front|] + group + v[|front| + |group|..] == Layout(front + group, free - |group|, back)
  {}

  // ----- Comparing a flag

  predicate StartsWith(arg: string, flag: string) {
    |flag| <= |arg| && forall i | 0 <= i < |flag| :: Lower(arg[i]) == Lower(flag[i])
  }

  /** An argument starts with a flag if each of its first characters is the flag's, or the same letter in
      the other case. */
  lemma StartsWithMeans(arg: string, flag: string)
    ensures StartsWith(arg, flag) <==>
      && |flag| <= |arg|
      && forall i | 0 <= i < |flag| :: arg[i] == flag[i] || TwoCases(arg[i], flag[i]) || TwoCases(flag[i], arg[i])
  {
    forall i | 0 <= i < |flag| && i < |arg| {
      SameLetter(arg[i], flag[i]);
    }
    hide Lower, TwoCases;
  }

  /** What `cur_arg_strncasecmp` says of an argument that starts with the flag: 0 if it is the flag, else
      where the rest after the flag and the blanks behind it starts. */
  ghost predicate IsOffset(arg: string, flag: string, offset: int) {
    if |arg| == |flag| then offset == 0
    else
      && |flag| <= offset <= |arg|
      && (forall i | |flag| <= i < offset :: arg[i] == ' ')
      && (offset < |arg| ==> arg[offset] != ' ')
  }

  /** An offset of 0 says that the argument is the flag, and a positive one that a parameter follows in
      the argument, except that an empty flag is found in every argument and leaves offset 0 unless the
      argument starts with a blank. */
  lemma ZeroOffset(arg: string, flag: string, offset: int)
    requires StartsWith(arg, flag) && IsOffset(arg, flag, offset)
    ensures offset == 0 <==> |arg| == |flag| || (flag == "" && arg[0] != ' ')
  {}

  /** Then offset 0 is reported although the argument is not the flag. */
  lemma EmptyFlagMatches()
    ensures StartsWith("x", "") && IsOffset("x", "", 0) && "x" != ""
  {}

  // ----- The shifter

  class Shifter {
    /** The caller's variable that the shifter was given. */
    var argc: int
    const totalSize: nat
    const temp: array<Arg>
    const argv: array<Arg>
    var currentIndex: int
    var back: int
    var front: int
    ghost const args: seq<Arg>
    ghost var calls: seq<Call>

    /** The vector is the front, then slots that nobody has written yet, then the back; what is beyond
        the arguments is not touched. */
    ghost predicate Valid()
      reads this, argv, temp
    {
      && temp != argv && temp.Length == totalSize == |args| <= argv.Length
      && temp[..] == args
      && Visited(calls) == currentIndex <= totalSize
      && front == argc == |Front(args, calls)|
      && back == totalSize - 1 - |Back(args, calls)|
      && Visited(calls) == |Front(args, calls)| + |Back(args, calls)|
      && argv[..totalSize] == Layout(Front(args, calls), totalSize - currentIndex, Back(args, calls))
    }

    constructor (argc: nat, argv: array<Arg>)
      requires argc <= argv.Length
      modifies argv
      ensures Valid() && fresh(temp) && this.argv == argv && args == old(argv[..argc]) && calls == []
      ensures argv[argc..] == old(argv[argc..])
    {
      this.argc := 0;
      totalSize := argc;
      temp := new Arg[argc];
      this.argv := argv;
      currentIndex := 0;
      back := argc - 1;
      front := 0;
      args := argv[..argc];
      calls := [];
      new;
      var i := 0;
      while i < totalSize
        invariant 0 <= i <= totalSize && totalSize == argc && this.argv == argv && args == old(argv[..argc])
        invariant front == 0 && currentIndex == 0 && back == argc - 1 && calls == [] && this.argc == 0
        invariant argv[i..] == old(argv[i..]) && temp[..i] == args[..i]
        invariant forall k | 0 <= k < i :: argv[k] == NullPtr
      {
        temp[i] := argv[i];
        argv[i] := NullPtr;
        i := i + 1;
      }
    }

    method IsAnythingLeft() returns (left: int)
      requires Valid()
      ensures left == totalSize - currentIndex >= 0
    {
      FrontAndBack(args, calls);
      left := totalSize - currentIndex;
    }

    method GetCurrent() returns (r: Arg)
      requires Valid()
      ensures r == if currentIndex < totalSize then args[currentIndex] else NullPtr
    {
      r := if totalSize - currentIndex != 0 then temp[currentIndex] else NullPtr;
    }

    /** The loop of `consume_arg`: fills the last free slots, which nobody has written. */
    method CopyToBack(number: int)
      requires temp != argv && temp.Length == totalSize <= argv.Length
      requires 0 <= currentIndex <= totalSize && currentIndex + number <= totalSize
      requires -1 <= back - number && -1 <= back < totalSize
      requires forall k | back - number < k <= back :: argv[k] == NullPtr
      modifies this`currentIndex, argv
      ensures number < 0 ==> argv[..] == old(argv[..]) && currentIndex == old(currentIndex)
      ensures number >= 0 ==> currentIndex == old(currentIndex) + number
      ensures number >= 0 ==>
        var v := old(argv[..totalSize]);
        argv[..totalSize] ==
          v[..old(back) + 1 - number] + temp[..][old(currentIndex)..currentIndex] + v[old(back) + 1..]
      ensures argv[totalSize..] == old(argv[totalSize..])
    {
      var i, j := 0, back - (number - 1);
      while i < number
        invariant 0 <= i && (i <= number || i == 0)
        invariant j == back - (number - 1) + i && currentIndex == old(currentIndex) + i
        invariant temp[..] == old(temp[..])
        invariant forall k | 0 <= k < argv.Length ::
          argv[k] == if back - number < k < j then temp[old(currentIndex) + k - (back + 1 - number)] else old(argv[k])
      {
        assert argv[j] == NullPtr;
        argv[j] := temp[currentIndex];
        i, j, currentIndex := i + 1, j + 1, currentIndex + 1;
      }
    }

    /** The loop of `ignore_arg`: fills the first free slots. */
    method CopyToFront(number: int)
      requires temp != argv && temp.Length == totalSize <= argv.Length
      requires 0 <= currentIndex <= totalSize && currentIndex + number <= totalSize
      requires 0 <= front <= totalSize && front + number <= totalSize
      requires forall k | front <= k < front + number :: argv[k] == NullPtr
      modifies this`currentIndex, this`front, argv
      ensures number < 0 ==> argv[..] == old(argv[..]) && currentIndex == old(currentIndex) && front == old(front)
      ensures number >= 0 ==> currentIndex == old(currentIndex) + number && front == old(front) + number
      ensures number >= 0 ==>
        var v := old(argv[..totalSize]);
        argv[..totalSize] == v[..old(front)] + temp[..][old(currentIndex)..currentIndex] + v[front..]
      ensures argv[totalSize..] == old(argv[totalSize..])
    {
      var i := 0;
      while i < number
        invariant 0 <= i && (i <= number || i == 0) && currentIndex == old(currentIndex) + i && front == old(front) + i
        invariant temp[..] == old(temp[..])
        invariant forall k | 0 <= k < argv.Length ::
          argv[k] == if old(front) <= k < front then temp[old(currentIndex) + k - old(front)] else old(argv[k])
      {
        assert argv[front] == NullPtr;
        argv[front] := temp[currentIndex];
        i, currentIndex, front := i + 1, currentIndex + 1, front + 1;
      }
    }

    /** `consume_arg`: only into slots that nobody has written. A negative count is accepted, moves no
        argument and breaks the shifter. */
    method ConsumeArg(number: int) returns (retval: int)
      requires Valid()
      modifies this, argv
      ensures Valid() <==> number >= 0
      ensures argv[totalSize..] == old(argv[totalSize..])
      ensures retval == if number <= totalSize - old(currentIndex) then 1 else 0
      ensures calls == if number >= 0 && retval == 1 then old(calls) + [Consume(number)] else old(calls)
      ensures number < 0 ==> argv[..] == old(argv[..]) && unchanged(`currentIndex, `front, `argc)
      ensures number < 0 ==> back == old(back) - number
    {
      hide Front, Back, Visited, Layout;
      retval := 0;
      if totalSize - currentIndex >= number {
        LayoutFree(Front(args, calls), totalSize - currentIndex, Back(args, calls), argv[..totalSize]);
        if number >= 0 {
          ghost var group := args[currentIndex..currentIndex + number];
          OneMore(args, calls, Consume(number));
          LayoutConsume(Front(args, calls), totalSize - currentIndex, Back(args, calls), argv[..totalSize], group);
        }
        CopyToBack(number);
        back := back - number;
        calls := if number >= 0 then calls + [Consume(number)] else calls;
        retval := 1;
      }
    }

    /** `ignore_arg`, with negative counts as above. */
    method IgnoreArg(number: int) returns (retval: int)
      requires Valid()
      modifies this, argv
      ensures Valid() <==> number >= 0
      ensures argv[totalSize..] == old(argv[totalSize..])
      ensures retval == if number <= totalSize - old(currentIndex) then 1 else 0
      ensures calls == if number >= 0 && retval == 1 then old(calls) + [Ignore(number)] else old(calls)
      ensures number < 0 ==> argv[..] == old(argv[..]) && unchanged(`currentIndex, `front, `back)
      ensures number < 0 ==> argc == old(argc) + number
    {
      hide Front, Back, Visited, Layout;
      retval := 0;
      if totalSize - currentIndex >= number {
        LayoutFree(Front(args, calls), totalSize - currentIndex, Back(args, calls), argv[..totalSize]);
        if number >= 0 {
          ghost var group := args[currentIndex..currentIndex + number];
          OneMore(args, calls, Ignore(number));
          LayoutIgnore(Front(args, calls), totalSize - currentIndex, Back(args, calls), argv[..totalSize], group);
        }
        CopyToFront(number);
        retval := 1;
        argc := argc + number;
        calls := if number >= 0 then calls + [Ignore(number)] else calls;
      }
    }

    /** At any time the vector starts with the arguments ignored so far, in their original order, and at
        the end it holds the original arguments, rearranged. */
    lemma Rearranged()
      requires Valid()
      ensures 0 <= argc <= totalSize && argv[..argc] == Kept(args, calls, currentIndex)
      ensures currentIndex == totalSize ==> multiset(argv[..totalSize]) == multiset(args)
    {
      FrontKeepsOrder(args, calls);
      FrontAndBack(args, calls);
      var front, back := Front(args, calls), Back(args, calls);
      assert argv[..totalSize][..|front|] == front;
      if currentIndex == totalSize {
        assert Layout(front, 0, back) == front + back;
        assert args[..totalSize] == args;
      }
    }

    method IsParameterNext() returns (next: bool)
      requires Valid() && (currentIndex < totalSize ==> args[currentIndex].Text?)
      ensures next <==> currentIndex < totalSize && !("-" <= args[currentIndex].text)
    {
      next := totalSize - currentIndex != 0
        && (temp[currentIndex].text == "" || temp[currentIndex].text[0] != '-');
    }

    /** Compares the current argument with a flag, ignoring case: -1 if it does not start with it. */
    method CurArgStrncasecmp(flag: string) returns (offset: int)
      requires Valid() && (currentIndex < totalSize ==> args[currentIndex].Text?)
      ensures offset == -1 <==> currentIndex == totalSize || !StartsWith(args[currentIndex].text, flag)
      ensures offset != -1 ==> IsOffset(args[currentIndex].text, flag, offset)
    {
      if totalSize - currentIndex == 0 {
        return -1;
      }
      var arg := temp[currentIndex].text;
      if !StartsWith(arg, flag) {
        return -1;
      }
      var remaining := |flag|;
      while remaining < |arg| && arg[remaining] == ' '
        invariant |flag| <= remaining <= |arg|
        invariant forall i | |flag| <= i < remaining :: arg[i] == ' '
      {
        remaining := remaining + 1;
      }
      return if |arg| == |flag| then 0 else remaining;
    }

    /** The parameter of a flag: the rest of the current argument, or the next argument if it does not
        start with a dash. With offset 0 the current argument is consumed, whether a parameter follows
        or not; the parameter itself never is. */
    method GetTheParameter(flag: string) returns (r: Arg)
      requires Valid() && forall i | currentIndex <= i < totalSize :: args[i].Text?
      modifies this, argv
      ensures Valid()
      ensures old(currentIndex) == totalSize || !StartsWith(args[old(currentIndex)].text, flag) ==>
        r == NullPtr && calls == old(calls)
      ensures old(currentIndex) < totalSize && StartsWith(args[old(currentIndex)].text, flag) ==>
        exists offset :: IsOffset(args[old(currentIndex)].text, flag, offset) &&
          if offset > 0 then r == Text(args[old(currentIndex)].text[offset..]) && calls == old(calls)
          else
            && calls == old(calls) + [Consume(1)] && currentIndex == old(currentIndex) + 1
            && r == if currentIndex == totalSize || "-" <= args[currentIndex].text then NullPtr else args[currentIndex]
    {
      if totalSize - currentIndex == 0 {
        return NullPtr;
      }
      var offset := CurArgStrncasecmp(flag);
      if offset == -1 {
        return NullPtr;
      }
      if offset == 0 {
        hide Front, Back, Layout;
        assert (calls + [Consume(1)])[..|calls|] == calls;
        var _ := ConsumeArg(1);
        assert currentIndex == old(currentIndex) + 1;
        var next := IsParameterNext();
        if !next {
          return NullPtr;
        }
      }
      return Text(temp[currentIndex].text[offset..]);
    }
  }
}
