/**
  ACE_ARGV_T used iteratively (ACE/ace/ARGV.cpp): `add` puts arguments into a queue and keeps count of
  the room they need, `create_buf_from_queue` writes them into one buffer of that size, quoted where
  asked for. What it writes is read back by the scanner of `ACE_OS::string_to_argv`
  (ACE/ace/OS_NS_unistd.cpp).
 */
module ArgvBuffer {

  const QUOTE := '"'
  const BACKSLASH := '\\'

  datatype Entry = Entry(arg: string, quoteArg: bool)

  // ----- Escaping

  function Last(s: string): char
    requires s != ""
  {
    s[|s| - 1]
  }

  function Front(s: string): string
    requires s != ""
  {
    s[..|s| - 1]
  }

  /** Whether the last character is a quote with a backslash in front of it. */
  predicate EndsEscaped(s: string) {
    |s| >= 2 && s[|s| - 1] == QUOTE && s[|s| - 2] == BACKSLASH
  }

  /** The escaping loop: a backslash goes in front of every quote that has none in the argument. */
  function Escaped(a: string): string {
    if a == "" then ""
    else Escaped(Front(a)) + if Last(a) == QUOTE && !EndsEscaped(a) then [BACKSLASH, QUOTE] else [Last(a)]
  }

  function Quotes(a: string): nat {
    if a == "" then 0 else Quotes(Front(a)) + if Last(a) == QUOTE then 1 else 0
  }

  lemma {:induction false} NoQuotes(a: string)
    requires QUOTE !in a
    ensures Escaped(a) == a && Quotes(a) == 0
    decreases |a|
  {
    if a != "" {
      assert Last(a) != QUOTE && Front(a) + [Last(a)] == a;
      NoQuotes(Front(a));
    }
  }

  /** No quote inside a quoted argument can end it: each has a backslash in front of it. */
  lemma {:induction false} InteriorQuotesAreEscaped(a: string, i: nat)
    requires i < |Escaped(a)| && Escaped(a)[i] == QUOTE
    ensures i > 0 && Escaped(a)[i - 1] == BACKSLASH
    decreases |a|
  {
    if i < |Escaped(Front(a))| {
      InteriorQuotesAreEscaped(Front(a), i);
    } else if EndsEscaped(a) {
      EscapedLast(Front(a));
    }
  }

  lemma EscapedLast(a: string)
    requires a != ""
    ensures Escaped(a) != "" && Last(Escaped(a)) == Last(a)
  {}

  function EscapedPairs(a: string): nat {
    if a == "" then 0 else EscapedPairs(Front(a)) + if EndsEscaped(a) then 1 else 0
  }

  /** Escaping adds one character for each quote that has no backslash in front of it. */
  lemma {:induction false} EscapedLength(a: string)
    ensures |Escaped(a)| + EscapedPairs(a) == |a| + Quotes(a)
    ensures |a| <= |Escaped(a)|
    decreases |a|
  {
    if a != "" {
      EscapedLength(Front(a));
    }
  }

  // ----- Reading it back

  /** Where the scanner of a quoted section is: inside, having read `prev` last (the opening quote, at
      first) and copied `content`; or past the closing quote, with `rest` behind it. */
  datatype Scan = Inside(prev: char, content: string) | Closed(content: string, rest: string)

  ghost predicate Sound(r: Scan) {
    r.Inside? && r.prev == BACKSLASH ==> r.content != ""
  }

  /** One character: a quote with a backslash in front of it is content and takes the place of the
      backslash, another one ends the section. */
  function Advance(r: Scan, c: char): (r': Scan)
    requires Sound(r)
    ensures Sound(r')
  {
    match r
    case Closed(content, rest) => Closed(content, rest + [c])
    case Inside(prev, content) =>
      if c == QUOTE && prev != BACKSLASH then Closed(content, "")
      else Inside(c, if c == QUOTE then Front(content) + [c] else content + [c])
  }

  /** The scanner's inner loop on what follows an opening quote. */
  function ScanQuoted(s: string): (r: Scan)
    ensures Sound(r)
  {
    if s == "" then Inside(QUOTE, "") else Advance(ScanQuoted(Front(s)), Last(s))
  }

  lemma ScanMore(s: string, c: char)
    ensures ScanQuoted(s + [c]) == Advance(ScanQuoted(s), c)
  {
    assert Front(s + [c]) == s;
  }

  /** What becomes of an argument: it loses each backslash that stands in front of a quote. */
  function Dropped(a: string): (r: string)
    ensures a != "" && Last(a) == BACKSLASH ==> r != ""
  {
    if a == "" then ""
    else if EndsEscaped(a) then Front(Dropped(Front(a))) + [QUOTE]
    else Dropped(Front(a)) + [Last(a)]
  }

  lemma {:induction false} DroppedLength(a: string)
    ensures |Dropped(a)| == |a| - EscapedPairs(a)
    ensures EscapedPairs(a) == 0 ==> Dropped(a) == a
    decreases |a|
  {
    if a != "" {
      hide Dropped, EndsEscaped, Front, Last;
      FrontAndLast(a);
      DroppedLength(Front(a));
      DroppedMore(a);
    }
  }

  lemma FrontAndLast(a: string)
    requires a != ""
    ensures |Front(a)| == |a| - 1 && Front(a) + [Last(a)] == a
  {}

  lemma DroppedMore(a: string)
    requires a != ""
    ensures EndsEscaped(a) ==> Last(a) == QUOTE && |Dropped(a)| == |Dropped(Front(a))|
    ensures EndsEscaped(a) ==> Dropped(Front(a)) != "" && Dropped(a) == Front(Dropped(Front(a))) + [QUOTE]
    ensures !EndsEscaped(a) ==> Dropped(a) == Dropped(Front(a)) + [Last(a)]
  {
    if EndsEscaped(a) {
      assert Last(Front(a)) == BACKSLASH;
    }
  }

  lemma {:induction false} PairsExist(a: string)
    ensures EscapedPairs(a) == 0 <==> forall i | 0 < i < |a| :: !(a[i - 1] == BACKSLASH && a[i] == QUOTE)
    decreases |a|
  {
    if a != "" {
      PairsExist(Front(a));
    }
  }

  lemma {:induction false} ScanEscaped(a: string)
    ensures ScanQuoted(Escaped(a)) == Inside(if a == "" then QUOTE else Last(a), Dropped(a))
    decreases |a|
  {
    if a != "" {
      ScanEscaped(Front(a));
      var e, d, c := Escaped(Front(a)), Dropped(Front(a)), Last(a);
      EscapedStep(a);
      DroppedMore(a);
      if c == QUOTE && !EndsEscaped(a) {
        ScanMore(e, BACKSLASH);
        ScanMore(e + [BACKSLASH], QUOTE);
        FrontOf(d, BACKSLASH);
        hide ScanQuoted, Escaped, Dropped;
        assert e + [BACKSLASH] + [QUOTE] == e + [BACKSLASH, QUOTE];
      } else {
        ScanMore(e, c);
        hide ScanQuoted, Escaped, Dropped;
      }
    }
  }

  lemma EscapedStep(a: string)
    requires a != ""
    ensures Escaped(a) ==
      Escaped(Front(a)) + if Last(a) == QUOTE && !EndsEscaped(a) then [BACKSLASH, QUOTE] else [Last(a)]
  {}

  lemma FrontOf(s: string, c: char)
    ensures Front(s + [c]) == s && Last(s + [c]) == c
  {}

  lemma {:induction false} ScanClosed(s: string, t: string)
    requires ScanQuoted(s).Closed?
    ensures ScanQuoted(s + t) == Closed(ScanQuoted(s).content, ScanQuoted(s).rest + t)
    decreases |t|
  {
    assert s + [] == s && ScanQuoted(s).rest + [] == ScanQuoted(s).rest;
    if t != "" {
      ScanClosed(s, Front(t));
      ScanMore(s + Front(t), Last(t));
      hide ScanQuoted;
      assert s + Front(t) + [Last(t)] == s + t;
      assert ScanQuoted(s).rest + Front(t) + [Last(t)] == ScanQuoted(s).rest + t;
    }
  }

  lemma {:induction false} ScanInside(s: string, t: string)
    requires ScanQuoted(s).Inside? && ScanQuoted(s + t).Closed?
    ensures |ScanQuoted(s + t).rest| < |t|
    decreases |t|
  {
    assert s + [] == s;
    if t != "" {
      ScanMore(s + Front(t), Last(t));
      assert s + Front(t) + [Last(t)] == s + t;
      if ScanQuoted(s + Front(t)).Closed? {
        ScanInside(s, Front(t));
      }
    }
  }

  /** Round trip: a quoted argument, whatever follows it, is read back as it was if and only if it does
      not end with a backslash and has none in front of a quote. */
  lemma QuotedRoundTrip(a: string, rest: string)
    ensures ScanQuoted(Escaped(a) + [QUOTE] + rest) == Closed(a, rest) <==>
      (a == "" || Last(a) != BACKSLASH) && forall i | 0 < i < |a| :: !(a[i - 1] == BACKSLASH && a[i] == QUOTE)
  {
    ScanEscaped(a);
    DroppedLength(a);
    PairsExist(a);
    var quoted := Escaped(a) + [QUOTE];
    ScanMore(Escaped(a), QUOTE);
    hide ScanQuoted, Escaped, Dropped, EscapedPairs;
    if a == "" || Last(a) != BACKSLASH {
      assert ScanQuoted(quoted) == Closed(Dropped(a), "");
      ScanClosed(quoted, rest);
      assert "" + rest == rest;
    } else {
      assert ScanQuoted(quoted).Inside?;
      if ScanQuoted(quoted + rest).Closed? {
        ScanInside(quoted, rest);
      }
    }
  }

  /** Both conditions fail: an argument that ends with a backslash is not closed by its quote, and one
      with a backslash in front of a quote loses the backslash. */
  lemma NotReadBack(rest: string)
    ensures ScanQuoted(Escaped("a b\\") + [QUOTE] + rest) != Closed("a b\\", rest)
    ensures ScanQuoted(Escaped("a \\\"b") + [QUOTE] + rest) != Closed("a \\\"b", rest)
  {
    QuotedRoundTrip("a b\\", rest);
    var a := "a \\\"b";
    QuotedRoundTrip(a, rest);
    assert a[2] == BACKSLASH && a[3] == QUOTE;
  }

  // ----- The buffer

  function Encoded(e: Entry): string {
    if e.quoteArg then [QUOTE] + Escaped(e.arg) + [QUOTE] else e.arg
  }

  /** What `add` reckons for an argument. */
  function Charge(e: Entry): nat {
    |e.arg| + if e.quoteArg then 2 + Quotes(e.arg) else 0
  }

  function Charges(queue: seq<Entry>): nat {
    if queue == [] then 0 else Charges(queue[..|queue| - 1]) + Charge(queue[|queue| - 1])
  }

  /** The arguments with a blank behind each. */
  function Joined(queue: seq<Entry>): string {
    if queue == [] then "" else Joined(queue[..|queue| - 1]) + Encoded(queue[|queue| - 1]) + " "
  }

  /** The quotes of the quoted arguments that need no backslash. */
  function Spared(queue: seq<Entry>): nat {
    if queue == [] then 0
    else
      var e := queue[|queue| - 1];
      Spared(queue[..|queue| - 1]) + if e.quoteArg then EscapedPairs(e.arg) else 0
  }

  /** What is written fits into what has been reckoned, and falls short of it by exactly these quotes. */
  lemma {:induction false} JoinedFits(queue: seq<Entry>)
    ensures |queue| <= |Joined(queue)| <= Charges(queue) + |queue|
    ensures |Joined(queue)| + Spared(queue) == Charges(queue) + |queue|
    decreases |queue|
  {
    if queue != [] {
      JoinedFits(queue[..|queue| - 1]);
      EscapedLength(queue[|queue| - 1].arg);
    }
  }

  lemma {:induction false} JoinedPrefix(queue: seq<Entry>, n: nat)
    requires n <= |queue|
    ensures |Joined(queue[..n])| <= |Joined(queue)|
    decreases |queue|
  {
    if n < |queue| {
      assert queue[..|queue| - 1][..n] == queue[..n];
      JoinedPrefix(queue[..|queue| - 1], n);
    } else {
      assert queue[..n] == queue;
    }
  }

  lemma JoinedMore(queue: seq<Entry>, k: nat)
    requires k < |queue|
    ensures Joined(queue[..k + 1]) == Joined(queue[..k]) + Encoded(queue[k]) + " "
  {
    assert queue[..k + 1][..k] == queue[..k];
  }

  lemma JoinedNone(queue: seq<Entry>)
    ensures queue == [] ==> Joined(queue) == ""
  {}

  lemma EscapedNone(a: string)
    ensures a == "" ==> Escaped(a) == ""
  {}

  lemma EscapedMore(a: string, p: nat)
    requires p < |a|
    ensures Escaped(a[..p + 1]) ==
      Escaped(a[..p]) + if a[p] == QUOTE && !(p > 0 && a[p - 1] == BACKSLASH) then [BACKSLASH, QUOTE] else [a[p]]
  {
    assert Front(a[..p + 1]) == a[..p];
  }

  // ----- Reading the whole buffer back

  predicate IsSpace(c: char) {
    c == ' ' || '\t' <= c <= '\r'
  }

  predicate IsQuote(c: char) {
    c == QUOTE || c == '\''
  }

  /** Where `string_to_argv` is: between arguments, in one, or in a quoted section of one, with what it has
      copied of the argument. */
  datatype Mode = Between | InWord(word: string) | InQuotes(quote: char, prev: char, word: string)

  function NextInWord(args: seq<string>, word: string, c: char): (seq<string>, Mode) {
    if IsSpace(c) then (args + [word], Between)
    else if IsQuote(c) then (args, InQuotes(c, c, word))
    else (args, InWord(word + [c]))
  }

  /** One character of the buffer, with the arguments found so far. */
  function Next(args: seq<string>, mode: Mode, c: char): (seq<string>, Mode) {
    match mode
    case Between => if IsSpace(c) then (args, Between) else NextInWord(args, "", c)
    case InWord(word) => NextInWord(args, word, c)
    case InQuotes(quote, prev, word) =>
      if c == quote && prev != BACKSLASH then (args, InWord(word))
      else (args, InQuotes(quote, c, if c == quote && word != "" then Front(word) + [c] else word + [c]))
  }

  function ReadAll(s: string): (seq<string>, Mode) {
    if s == "" then ([], Between)
    else
      var (args, mode) := ReadAll(Front(s));
      Next(args, mode, Last(s))
  }

  /** The arguments `string_to_argv` finds, without environment variables: none in a buffer that starts
      with the comment character, and not the last one if it has an unmatched quote. */
  function StringToArgv(s: string): seq<string> {
    if s != "" && s[0] == '#' then []
    else
      var (args, mode) := ReadAll(s);
      if mode.InWord? then args + [mode.word] else args
  }

  lemma ReadMore(s: string, c: char)
    ensures ReadAll(s + [c]) == Next(ReadAll(s).0, ReadAll(s).1, c)
  {
    assert Front(s + [c]) == s;
  }

  ghost predicate Plain(w: string) {
    forall i | 0 <= i < |w| :: !IsSpace(w[i]) && !IsQuote(w[i])
  }

  lemma PlainFront(w: string)
    requires Plain(w) && w != ""
    ensures Plain(Front(w)) && !IsSpace(Last(w)) && !IsQuote(Last(w))
  {
    var front := Front(w);
    forall i | 0 <= i < |front| ensures !IsSpace(front[i]) && !IsQuote(front[i]) {
      assert front[i] == w[i];
    }
    hide IsSpace, IsQuote;
  }

  lemma {:induction false} ReadPlain(s: string, w: string)
    requires ReadAll(s).1 == Between && w != "" && Plain(w)
    ensures ReadAll(s + w) == (ReadAll(s).0, InWord(w))
    decreases |w|
  {
    hide ReadAll, Plain, IsSpace, IsQuote, Front, Last;
    var front, c := Front(w), Last(w);
    PlainFront(w);
    FrontAndLast(w);
    ReadMore(s + front, c);
    assert s + front + [c] == s + w && front + [c] == w;
    if front == "" {
      assert s + front == s;
    } else {
      ReadPlain(s, front);
    }
  }

  /** Plain characters are those other than the white space of the C locale and the two quotes. */
  lemma PlainMeans(w: string)
    ensures Plain(w) <==> forall i | 0 <= i < |w| :: w[i] as int !in {9, 10, 11, 12, 13, 32, 34, 39}
  {}

  /** Inside a quoted section, single or double, nothing ends the argument. */
  lemma {:induction false} ReadInside(s: string, word: string, q: char, t: string)
    requires IsQuote(q) && q !in t && ReadAll(s) == (ReadAll(s).0, InQuotes(q, q, word))
    ensures ReadAll(s + t) == (ReadAll(s).0, InQuotes(q, if t == "" then q else Last(t), word + t))
    decreases |t|
  {
    if t == "" {
      assert s + t == s && word + t == word;
    } else {
      ReadInside(s, word, q, Front(t));
      ReadMore(s + Front(t), Last(t));
      FrontAndLast(t);
      assert s + Front(t) + [Last(t)] == s + t && word + Front(t) + [Last(t)] == word + t;
      hide ReadAll, Front, IsQuote;
    }
  }

  /** Quotes of either kind that are closed keep everything between them in the argument and are not part of
      it, also in the middle of a word; quotes that are not closed lose it. */
  lemma QuotesJoin(w: string, q: char, t: string)
    requires Plain(w) && (w != "" ==> w[0] != '#') && q in {'"', '\''} && q !in t && (t != "" ==> Last(t) != BACKSLASH)
    ensures StringToArgv(w + [q] + t + [q]) == [w + t]
    ensures StringToArgv(w + [q] + t) == []
  {
    assert ReadAll("") == ([], Between) && "" + w == w;
    if w != "" {
      ReadPlain("", w);
    }
    ReadMore(w, q);
    ReadInside(w + [q], w, q, t);
    ReadMore(w + [q] + t, q);
    assert (w + [q] + t)[0] != '#' && (w + [q] + t + [q])[0] != '#';
    hide ReadAll, Plain;
  }

  /** A quoted section is read as the scanner above reads it. */
  lemma {:induction false} ReadQuoted(s: string, t: string)
    requires ReadAll(s).1 == Between && ScanQuoted(t).Inside?
    ensures ReadAll(s + [QUOTE] + t) == (ReadAll(s).0, InQuotes(QUOTE, ScanQuoted(t).prev, ScanQuoted(t).content))
    decreases |t|
  {
    if t == "" {
      ReadMore(s, QUOTE);
      assert s + [QUOTE] + t == s + [QUOTE];
    } else {
      var front, c := Front(t), Last(t);
      ReadQuoted(s, front);
      ReadMore(s + [QUOTE] + front, c);
      assert s + [QUOTE] + front + [c] == s + [QUOTE] + t;
    }
  }

  /** An argument that survives: quoted, without a backslash at its end or in front of a quote; or not
      quoted, not empty, and without white space or quotes. */
  ghost predicate Survives(e: Entry) {
    if e.quoteArg then
      (e.arg == "" || Last(e.arg) != BACKSLASH)
      && forall i | 0 < i < |e.arg| :: !(e.arg[i - 1] == BACKSLASH && e.arg[i] == QUOTE)
    else e.arg != "" && Plain(e.arg)
  }

  lemma EncodedIs(e: Entry)
    ensures Encoded(e) == if e.quoteArg then [QUOTE] + Escaped(e.arg) + [QUOTE] else e.arg
  {}

  /** A quoted argument is read as what becomes of it, unless a backslash at its end hides its last quote. */
  lemma QuotedRead(p: string, e: Entry)
    requires ReadAll(p).1 == Between && e.quoteArg
    ensures var (args, mode) := ReadAll(p + Encoded(e));
      args == ReadAll(p).0
      && if e.arg != "" && Last(e.arg) == BACKSLASH then mode.InQuotes? else mode == InWord(Dropped(e.arg))
  {
    hide *;
    var t := Escaped(e.arg);
    ScanEscaped(e.arg);
    ReadQuoted(p, t);
    ReadMore(p + [QUOTE] + t, QUOTE);
    EncodedIs(e);
    assert p + [QUOTE] + t + [QUOTE] == p + Encoded(e);
    QuotedEnd(ReadAll(p).0, if e.arg == "" then QUOTE else Last(e.arg), Dropped(e.arg));
  }

  lemma QuotedEnd(args: seq<string>, prev: char, word: string)
    ensures var (args', mode') := Next(args, InQuotes(QUOTE, prev, word), QUOTE);
      args' == args && if prev == BACKSLASH then mode'.InQuotes? else mode' == InWord(word)
    ensures QUOTE != BACKSLASH
  {}

  lemma NothingDropped(e: Entry)
    requires e.quoteArg
    ensures Survives(e) <==> (e.arg == "" || Last(e.arg) != BACKSLASH) && Dropped(e.arg) == e.arg
  {
    DroppedLength(e.arg);
    PairsExist(e.arg);
    hide EscapedPairs;
    assert Dropped(e.arg) == e.arg <==> EscapedPairs(e.arg) == 0;
    hide Dropped;
  }

  lemma ReadEncoded(s: string, e: Entry)
    requires ReadAll(s).1 == Between && Survives(e)
    ensures ReadAll(s + Encoded(e)) == (ReadAll(s).0, InWord(e.arg))
  {
    if e.quoteArg {
      hide *;
      QuotedRead(s, e);
      NothingDropped(e);
    } else {
      ReadPlain(s, e.arg);
    }
  }

  function Args(queue: seq<Entry>): (args: seq<string>)
    ensures |args| == |queue| && forall i | 0 <= i < |queue| :: args[i] == queue[i].arg
  {
    seq(|queue|, i requires 0 <= i < |queue| => queue[i].arg)
  }

  lemma ArgsMore(queue: seq<Entry>, k: nat)
    requires k < |queue|
    ensures Args(queue[..k + 1]) == Args(queue[..k]) + [queue[k].arg]
  {}

  lemma {:induction false} ReadJoined(queue: seq<Entry>, k: nat)
    requires k <= |queue| && forall i | 0 <= i < |queue| :: Survives(queue[i])
    ensures ReadAll(Joined(queue[..k])) == (Args(queue[..k]), Between)
    decreases k
  {
    hide ReadAll, Joined, Encoded, Survives, Args;
    if k == 0 {
      ReadNothing(queue[..k]);
    } else {
      var s, e := Joined(queue[..k - 1]), queue[k - 1];
      ReadJoined(queue, k - 1);
      ReadEncoded(s, e);
      ReadMore(s + Encoded(e), ' ');
      JoinedMore(queue, k - 1);
      ArgsMore(queue, k - 1);
    }
  }

  lemma ReadNothing(queue: seq<Entry>)
    ensures queue == [] ==> ReadAll(Joined(queue)) == (Args(queue), Between)
  {}

  /** A first argument that would make the buffer a comment. */
  predicate StartsComment(e: Entry) {
    !e.quoteArg && e.arg != "" && e.arg[0] == '#'
  }

  /** If every argument survives, and the first one does not start a comment, the buffer is read back as
      exactly the arguments that were added. */
  lemma {:induction false} SurvivorsReadBack(queue: seq<Entry>)
    requires queue != [] && forall i | 0 <= i < |queue| :: Survives(queue[i])
    requires !StartsComment(queue[0])
    ensures Joined(queue) != "" && StringToArgv(Front(Joined(queue))) == Args(queue)
  {
    hide ReadAll, Encoded, Joined, Survives, Args, StringToArgv, Front, StartsComment;
    var n := |queue| - 1;
    var s, e := Joined(queue[..n]), queue[n];
    assert queue[..n + 1] == queue;
    JoinedStart(queue);
    ReadJoined(queue, n);
    ReadEncoded(s, e);
    ArgsMore(queue, n);
    LastWord(s + Encoded(e), Args(queue[..n]), e.arg);
  }

  lemma LastWord(s: string, args: seq<string>, word: string)
    requires ReadAll(s) == (args, InWord(word)) && (s != "" ==> s[0] != '#')
    ensures StringToArgv(s) == args + [word]
  {
    hide ReadAll;
  }

  lemma {:induction false} JoinedStart(queue: seq<Entry>)
    requires queue != [] && Survives(queue[0])
    ensures Joined(queue) != "" && Front(Joined(queue)) == Joined(queue[..|queue| - 1]) + Encoded(queue[|queue| - 1])
    ensures Front(Joined(queue)) != "" && (Front(Joined(queue))[0] == '#' ==> StartsComment(queue[0]))
    decreases |queue|
  {
    var n := |queue| - 1;
    var s, e := Joined(queue[..n]), Encoded(queue[n]);
    assert Joined(queue) == s + e + " ";
    assert Front(s + e + " ") == s + e;
    if n > 0 {
      JoinedStart(queue[..n]);
      hide Joined, Encoded;
      assert (s + e)[0] == s[0] == Front(s)[0];
    } else {
      assert s == "" && s + e == e;
    }
  }

  // ----- Only survivors are read back

  /** What has been found stays found. */
  lemma {:induction false} FoundStays(p: string, x: string)
    ensures |ReadAll(p).0| <= |ReadAll(p + x).0| && ReadAll(p + x).0[..|ReadAll(p).0|] == ReadAll(p).0
    decreases |x|
  {
    if x == "" {
      assert p + x == p;
    } else {
      FoundStays(p, Front(x));
      ReadMore(p + Front(x), Last(x));
      assert p + Front(x) + [Last(x)] == p + x;
      hide ReadAll;
    }
  }

  /** What is held of an argument that began in the last n characters is no longer than they are. */
  ghost predicate Short(mode: Mode, n: int) {
    match mode
    case Between => n >= 0
    case InWord(word) => |word| <= n
    case InQuotes(_, _, word) => |word| + 1 <= n
  }

  lemma ShortStep(args: seq<string>, mode: Mode, n: int, c: char)
    requires Short(mode, n)
    ensures var (args', mode') := Next(args, mode, c);
      && Short(mode', n + 1)
      && (args' == args || (mode'.Between? && |args'| == |args| + 1 && args'[..|args|] == args && |args'[|args|]| <= n))
  {}

  /** The same for what it takes to write the argument escaped, where the characters come from inside a
      quoted argument: every double quote among them has a backslash in front of it. */
  ghost predicate ShortEscaped(mode: Mode, n: int, last: char) {
    match mode
    case Between => n >= 0
    case InWord(word) => |Escaped(word)| <= n
    case InQuotes(quote, prev, word) =>
      && |Escaped(word)| + 1 <= n && prev == last
      && (prev == BACKSLASH ==> word != "" && Last(word) == BACKSLASH)
  }

  lemma EscapedSnoc(w: string, c: char)
    ensures |Escaped(w + [c])| == |Escaped(w)| + if c == QUOTE && !EndsEscaped(w + [c]) then 2 else 1
    ensures EndsEscaped(w + [c]) <==> w != "" && Last(w) == BACKSLASH && c == QUOTE
  {
    FrontOf(w, c);
  }

  lemma ShortEscapedStep(args: seq<string>, mode: Mode, n: int, last: char, c: char)
    requires ShortEscaped(mode, n, last) && (c == QUOTE ==> last == BACKSLASH)
    ensures var (args', mode') := Next(args, mode, c);
      && ShortEscaped(mode', n + 1, c)
      && (args' == args
          || (mode'.Between? && |args'| == |args| + 1 && args'[..|args|] == args && |Escaped(args'[|args|])| <= n))
  {
    match mode
    case Between =>
      EscapedNone("");
      EscapedSnoc("", c);
      hide Escaped, EndsEscaped, Front, Last;
    case InWord(word) =>
      EscapedSnoc(word, c);
      hide Escaped, EndsEscaped, Front, Last;
    case InQuotes(quote, prev, word) =>
      if c != quote || prev == BACKSLASH {
        HeldStep(word, n, prev, quote, c);
      }
      hide Escaped, EndsEscaped, Front, Last;
  }

  lemma HeldStep(word: string, n: int, prev: char, quote: char, c: char)
    requires |Escaped(word)| + 1 <= n && (prev == BACKSLASH ==> word != "" && Last(word) == BACKSLASH)
    requires (c == QUOTE ==> prev == BACKSLASH) && (c == quote ==> prev == BACKSLASH)
    ensures var next := if c == quote && word != "" then Front(word) + [c] else word + [c];
      |Escaped(next)| <= n && next != "" && Last(next) == c
  {
    if c == quote && word != "" {
      EscapedReplaced(word, c);
      LastIs(Front(word), c);
    } else {
      EscapedSnoc(word, c);
      LastIs(word, c);
    }
    hide Escaped, EndsEscaped, Front, Last;
  }

  lemma LastIs(w: string, c: char)
    ensures Last(w + [c]) == c
  {}

  /** Putting a quote in the place of a final backslash. */
  lemma EscapedReplaced(w: string, c: char)
    requires w != ""
    ensures Last(w) == BACKSLASH ==> |Escaped(Front(w) + [c])| <= |Escaped(w)| + 1
  {
    FrontAndLast(w);
    EscapedSnoc(Front(w), Last(w));
    EscapedSnoc(Front(w), c);
    hide Escaped, EndsEscaped, Front, Last;
  }

  /** All that was found after the first one is shorter than n, escaped or not. */
  ghost predicate LaterShort(args: seq<string>, found: nat, n: int) {
    forall j | found < j < |args| :: |args[j]| < n
  }

  ghost predicate LaterShortEscaped(args: seq<string>, found: nat, n: int) {
    forall j | found < j < |args| :: |Escaped(args[j])| < n
  }

  /** Reading an unquoted argument from anywhere. */
  lemma {:induction false} LaterInPlain(p: string, x: string)
    ensures var (found, (args, mode)) := (|ReadAll(p).0|, ReadAll(p + x));
      |args| >= found && (|args| > found ==> Short(mode, |x| - 1) && LaterShort(args, found, |x| - 1))
    decreases |x|
  {
    hide *;
    if x == "" {
      assert p + x == p;
    } else {
      ReadMoreOf(p, x);
      LaterInPlain(p, Front(x));
      var (args, mode) := ReadAll(p + Front(x));
      if |args| > |ReadAll(p).0| {
        LaterShortStep(args, mode, |ReadAll(p).0|, |x| - 2, Last(x));
      } else {
        FirstFound(args, mode, |x| - 1, Last(x));
      }
    }
  }

  /** The last character of what is read. */
  lemma ReadMoreOf(p: string, x: string)
    requires x != ""
    ensures |Front(x)| == |x| - 1
    ensures ReadAll(p + x) == Next(ReadAll(p + Front(x)).0, ReadAll(p + Front(x)).1, Last(x))
  {
    FrontAndLast(x);
    ReadMore(p + Front(x), Last(x));
    assert p + Front(x) + [Last(x)] == p + x;
    hide ReadAll;
  }

  lemma LaterShortStep(args: seq<string>, mode: Mode, found: nat, n: int, c: char)
    requires |args| > found && Short(mode, n) && LaterShort(args, found, n)
    ensures var (args', mode') := Next(args, mode, c);
      |args'| > found && Short(mode', n + 1) && LaterShort(args', found, n + 1)
  {
    ShortStep(args, mode, n, c);
    hide Next;
  }

  lemma LaterShortEscapedStep(args: seq<string>, mode: Mode, found: nat, n: int, last: char, c: char)
    requires |args| > found && ShortEscaped(mode, n, last) && LaterShortEscaped(args, found, n)
    requires c == QUOTE ==> last == BACKSLASH
    ensures var (args', mode') := Next(args, mode, c);
      |args'| > found && ShortEscaped(mode', n + 1, c) && LaterShortEscaped(args', found, n + 1)
  {
    ShortEscapedStep(args, mode, n, last, c);
    hide Next, ShortEscaped, Escaped;
  }

  lemma FirstFound(args: seq<string>, mode: Mode, n: nat, c: char)
    ensures var (args', mode') := Next(args, mode, c);
      && |args'| >= |args|
      && (|args'| > |args| ==>
        && Short(mode', n) && LaterShort(args', |args|, n)
        && ShortEscaped(mode', n, c) && LaterShortEscaped(args', |args|, n))
  {
    hide Escaped;
  }

  /** Every double quote but the first character has a backslash in front of it. */
  ghost predicate Guarded(x: string) {
    forall i | 0 < i < |x| && x[i] == QUOTE :: x[i - 1] == BACKSLASH
  }

  lemma GuardedFront(x: string)
    requires |x| > 1 && Guarded(x)
    ensures Front(x) != "" && Guarded(Front(x)) && (Last(x) == QUOTE ==> Last(Front(x)) == BACKSLASH)
  {}

  lemma EscapedGuarded(a: string)
    ensures Guarded([QUOTE] + Escaped(a))
  {
    var x := [QUOTE] + Escaped(a);
    forall i | 0 < i < |x| && x[i] == QUOTE ensures x[i - 1] == BACKSLASH {
      InteriorQuotesAreEscaped(a, i - 1);
      hide Escaped;
    }
  }

  /** Reading the beginning of a quoted argument, up to but not including its last quote, from anywhere. */
  lemma {:induction false} LaterInGuarded(p: string, x: string)
    requires x != "" && Guarded(x)
    ensures var (found, (args, mode)) := (|ReadAll(p).0|, ReadAll(p + x));
      && |args| >= found
      && (|args| > found ==> ShortEscaped(mode, |x| - 1, Last(x)) && LaterShortEscaped(args, found, |x| - 1))
    decreases |x|
  {
    hide *;
    ReadMoreOf(p, x);
    var (args, mode) := ReadAll(p + Front(x));
    if |x| == 1 {
      assert p + Front(x) == p;
      FirstFound(args, mode, 0, Last(x));
    } else {
      GuardedFront(x);
      LaterInGuarded(p, Front(x));
      if |args| > |ReadAll(p).0| {
        LaterShortEscapedStep(args, mode, |ReadAll(p).0|, |x| - 2, Last(Front(x)), Last(x));
      } else {
        FirstFound(args, mode, |x| - 1, Last(x));
      }
    }
  }

  /** From anywhere, reading an entry and its blank finds no argument equal to its own but as the first. */
  lemma OneEntry(p: string, e: Entry, j: nat)
    requires |ReadAll(p).0| < j < |ReadAll(p + Encoded(e) + " ").0|
    ensures ReadAll(p + Encoded(e) + " ").0[j] != e.arg
  {
    if e.quoteArg {
      assert Encoded(e) == [QUOTE] + Escaped(e.arg) + [QUOTE];
      OneQuoted(p, e.arg, j);
    } else {
      LaterInPlain(p, e.arg + " ");
      assert p + Encoded(e) + " " == p + (e.arg + " ");
    }
    hide ReadAll, Escaped, Encoded;
  }

  lemma OneQuoted(p: string, a: string, j: nat)
    requires |ReadAll(p).0| < j < |ReadAll(p + ([QUOTE] + Escaped(a) + [QUOTE]) + " ").0|
    ensures ReadAll(p + ([QUOTE] + Escaped(a) + [QUOTE]) + " ").0[j] != a
  {
    hide *;
    var s, found := p + ([QUOTE] + Escaped(a)), |ReadAll(p).0|;
    LaterInWhole(p, a);
    ReadClosing(s);
    assert s + [QUOTE] + " " == p + ([QUOTE] + Escaped(a) + [QUOTE]) + " ";
    var (args, mode) := ReadAll(s);
    LastQuote(args, mode);
    if j < |args| {
      LaterIsShort(args, found, |Escaped(a)|, j);
    } else {
      LastQuoteShort(args, mode, |Escaped(a)|, BeforeLastQuote(a));
    }
  }

  function BeforeLastQuote(a: string): char {
    ([QUOTE] + Escaped(a))[|Escaped(a)|]
  }

  lemma LaterInWhole(p: string, a: string)
    ensures var (found, (args, mode)) := (|ReadAll(p).0|, ReadAll(p + ([QUOTE] + Escaped(a))));
      && |args| >= found
      && (|args| > found ==>
        ShortEscaped(mode, |Escaped(a)|, BeforeLastQuote(a)) && LaterShortEscaped(args, found, |Escaped(a)|))
  {
    EscapedGuarded(a);
    LaterInGuarded(p, [QUOTE] + Escaped(a));
    hide ReadAll, Escaped, ShortEscaped, LaterShortEscaped;
  }

  lemma ReadClosing(s: string)
    ensures var (args, mode) := ReadAll(s);
      ReadAll(s + [QUOTE] + " ").0 == Next(args, Next(args, mode, QUOTE).1, ' ').0
  {
    ReadMore(s, QUOTE);
    ReadMore(s + [QUOTE], ' ');
    LastQuote(ReadAll(s).0, ReadAll(s).1);
    hide ReadAll, Next;
  }

  lemma LastQuote(args: seq<string>, mode: Mode)
    ensures Next(args, mode, QUOTE).0 == args
    ensures var args' := Next(args, Next(args, mode, QUOTE).1, ' ').0;
      args' == args || (|args'| == |args| + 1 && args'[..|args|] == args)
  {}

  lemma LastQuoteShort(args: seq<string>, mode: Mode, n: int, last: char)
    requires ShortEscaped(mode, n, last)
    ensures var args' := Next(args, Next(args, mode, QUOTE).1, ' ').0; |args'| > |args| ==> |Escaped(args'[|args|])| < n
  {
    hide Escaped;
  }

  lemma LaterIsShort(args: seq<string>, found: nat, n: int, j: nat)
    requires LaterShortEscaped(args, found, n) && found < j < |args|
    ensures |Escaped(args[j])| < n
  {}

  /** Reading an unquoted argument where it should begin: an argument found, or held, is as long as what has
      been read only if it is that, and plain. */
  ghost predicate InStep(args: seq<string>, mode: Mode, found: nat, read: string) {
    && |args| >= found
    && (|args| > found ==> |args[found]| < |read|)
    && (|args| == found ==>
      match mode
      case Between => true
      case InWord(word) => read != "" && |word| <= |read| && (|word| == |read| ==> word == read && Plain(word))
      case InQuotes(_, _, word) => |word| < |read|)
  }

  lemma InStepMore(args: seq<string>, mode: Mode, found: nat, read: string, c: char)
    requires InStep(args, mode, found, read) && (read == "" ==> mode == Between)
    ensures var (args', mode') := Next(args, mode, c); InStep(args', mode', found, read + [c])
  {}

  lemma {:induction false} PlainInStep(p: string, x: string)
    requires ReadAll(p).1 == Between
    ensures InStep(ReadAll(p + x).0, ReadAll(p + x).1, |ReadAll(p).0|, x)
    decreases |x|
  {
    if x == "" {
      assert p + x == p;
    } else {
      hide *;
      var front := Front(x);
      PlainInStep(p, front);
      ReadMoreOf(p, x);
      FrontAndLast(x);
      assert front == "" ==> p + front == p;
      InStepMore(ReadAll(p + front).0, ReadAll(p + front).1, |ReadAll(p).0|, front, Last(x));
    }
  }

  /** An entry whose argument is found where it should be survives. */
  lemma FoundSurvives(p: string, e: Entry)
    requires ReadAll(p).1 == Between
    requires var (found, args) := (|ReadAll(p).0|, ReadAll(p + Encoded(e) + " ").0);
      |args| > found && args[found] == e.arg
    ensures Survives(e)
  {
    ReadMore(p + Encoded(e), ' ');
    if e.quoteArg {
      QuotedRead(p, e);
      NothingDropped(e);
    } else {
      PlainInStep(p, e.arg);
      assert Encoded(e) == e.arg;
    }
    hide ReadAll, Encoded, Dropped;
  }

  /** The arguments found in the first k entries. */
  function Found(queue: seq<Entry>, k: nat): seq<string>
    requires k <= |queue|
  {
    ReadAll(Joined(queue[..k])).0
  }

  lemma FoundPrefix(queue: seq<Entry>, k: nat, m: nat)
    requires k <= m <= |queue|
    ensures |Found(queue, k)| <= |Found(queue, m)| && Found(queue, m)[..|Found(queue, k)|] == Found(queue, k)
    decreases m - k
  {
    hide *;
    if k < m {
      FoundPrefix(queue, k + 1, m);
      FoundOneMore(queue, k);
      var (a, b, c) := (Found(queue, k), Found(queue, k + 1), Found(queue, m));
      assert c[..|a|] == b[..|a|];
    }
  }

  lemma FoundOneMore(queue: seq<Entry>, k: nat)
    requires k < |queue|
    ensures |Found(queue, k)| <= |Found(queue, k + 1)| && Found(queue, k + 1)[..|Found(queue, k)|] == Found(queue, k)
  {
    var s := Joined(queue[..k]);
    JoinedMore(queue, k);
    FoundStays(s, Encoded(queue[k]) + " ");
    assert s + (Encoded(queue[k]) + " ") == Joined(queue[..k + 1]);
    hide ReadAll, Joined, Encoded;
  }

  lemma FoundMore(queue: seq<Entry>, k: nat)
    requires k < |queue|
    ensures Found(queue, k + 1) == ReadAll(Joined(queue[..k]) + Encoded(queue[k]) + " ").0
  {
    JoinedMore(queue, k);
  }

  lemma FoundAdded(queue: seq<Entry>, k: nat, m: nat)
    requires m <= |queue| && k < |queue| && k < |Found(queue, m)| && Found(queue, |queue|) == Args(queue)
    ensures Found(queue, m)[k] == queue[k].arg
  {
    FoundPrefix(queue, m, |queue|);
    hide Found;
    var (some, all) := (Found(queue, m), Found(queue, |queue|));
    assert all[..|some|][k] == all[k];
  }

  lemma FoundLater(queue: seq<Entry>, k: nat)
    requires k < |queue| && |Found(queue, k)| < k < |Found(queue, k + 1)|
    ensures Found(queue, k + 1)[k] != queue[k].arg
  {
    FoundMore(queue, k);
    OneEntry(Joined(queue[..k]), queue[k], k);
  }

  /** A reader that is an argument behind stays behind. */
  lemma {:induction false} StaysBehind(queue: seq<Entry>, k: nat)
    requires k <= |queue| && |Found(queue, k)| < k
    ensures Found(queue, |queue|) != Args(queue)
    decreases |queue| - k
  {
    hide *;
    if k < |queue| && Found(queue, |queue|) == Args(queue) {
      if |Found(queue, k + 1)| > k {
        FoundLater(queue, k);
        FoundAdded(queue, k, k + 1);
      } else {
        StaysBehind(queue, k + 1);
      }
    }
  }

  /** One more argument found where it should be. */
  lemma InSync(queue: seq<Entry>, k: nat)
    requires k < |queue| && Found(queue, |queue|) == Args(queue)
    requires ReadAll(Joined(queue[..k])) == (Args(queue[..k]), Between)
    ensures Survives(queue[k])
  {
    assert |Found(queue, k)| == k;
    FoundMore(queue, k);
    hide *;
    if |Found(queue, k + 1)| <= k {
      StaysBehind(queue, k + 1);
    } else {
      FoundAdded(queue, k, k + 1);
      FoundSurvives(Joined(queue[..k]), queue[k]);
    }
  }

  /** If what is found is what was added, every argument survives. */
  lemma {:induction false} ReadBackSurvives(queue: seq<Entry>, k: nat)
    requires k <= |queue| && Found(queue, |queue|) == Args(queue)
    ensures ReadAll(Joined(queue[..k])) == (Args(queue[..k]), Between)
    ensures forall i | 0 <= i < k :: Survives(queue[i])
    decreases k
  {
    hide ReadAll, Joined, Encoded, Survives, Args, Found;
    if k == 0 {
      ReadNothing(queue[..k]);
    } else {
      var s, e := Joined(queue[..k - 1]), queue[k - 1];
      ReadBackSurvives(queue, k - 1);
      InSync(queue, k - 1);
      ReadEncoded(s, e);
      ReadMore(s + Encoded(e), ' ');
      JoinedMore(queue, k - 1);
      ArgsMore(queue, k - 1);
    }
  }

  /** The blank at the end, which is not in the buffer, only ends the last argument. */
  lemma WithoutLastBlank(s: string)
    ensures StringToArgv(s) == if s != "" && s[0] == '#' then [] else ReadAll(s + " ").0
  {
    ReadMore(s, ' ');
    hide ReadAll;
  }

  lemma {:induction false} CommentStart(queue: seq<Entry>)
    requires queue != [] && StartsComment(queue[0])
    ensures |Joined(queue)| > 1 && Joined(queue)[0] == '#'
    decreases |queue|
  {
    if |queue| > 1 {
      CommentStart(queue[..|queue| - 1]);
    } else {
      assert queue[..0] == [];
      assert Joined(queue) == "" + queue[0].arg + " ";
    }
  }

  /** Round trip: for every queue that is not empty, the buffer is read back as exactly the arguments that
      were added if and only if each of them survives and the first does not start a comment. */
  lemma {:induction false} BufferRoundTrip(queue: seq<Entry>)
    requires queue != []
    ensures Joined(queue) != ""
    ensures StringToArgv(Front(Joined(queue))) == Args(queue) <==>
      && (queue[0].quoteArg || queue[0].arg == "" || queue[0].arg[0] != '#')
      && forall i | 0 <= i < |queue| :: Survives(queue[i])
  {
    JoinedFits(queue);
    JoinedBlank(queue);
    var s := Front(Joined(queue));
    assert queue[..|queue|] == queue;
    if StringToArgv(s) == Args(queue) {
      WithoutLastBlank(s);
      if StartsComment(queue[0]) {
        CommentStart(queue);
      }
      ReadBackSurvives(queue, |queue|);
    } else if !StartsComment(queue[0]) && forall i | 0 <= i < |queue| :: Survives(queue[i]) {
      SurvivorsReadBack(queue);
    }
  }

  lemma JoinedBlank(queue: seq<Entry>)
    requires queue != []
    ensures Joined(queue) != "" && Front(Joined(queue)) + " " == Joined(queue)
  {
    var s := Joined(queue[..|queue| - 1]) + Encoded(queue[|queue| - 1]);
    FrontOf(s, ' ');
    assert s + [' '] == Joined(queue);
  }

  /** An empty argument vanishes. */
  lemma EmptyVanishes()
    ensures StringToArgv(Front(Joined([Entry("", false)]))) == []
  {
    var e := [Entry("", false)];
    assert e[..0] == [];
    assert Joined(e) == " " && Front(" ") == "";
  }

  /** One with a blank that was not to be quoted becomes two. */
  lemma UnquotedBlankSplits()
    ensures StringToArgv(Front(Joined([Entry("a b", false)]))) == ["a", "b"]
  {
    var e := [Entry("a b", false)];
    assert e[..0] == [];
    assert Joined(e) == "a b ";
    hide Joined;
    ReadPlain("", "a");
    assert "" + "a" == "a" && "a" + [' '] == "a " && "a " + "b" == "a b" && Front("a b ") == "a b";
    ReadMore("a", ' ');
    ReadPlain("a ", "b");
    hide ReadAll;
  }

  class Argv {
    const iterative: bool
    var argc: int
    var length: nat
    var queue: seq<Entry>
    var buf: array?<char>

    ghost predicate Valid()
      reads this
    {
      iterative ==> argc == |queue| && length == Charges(queue)
    }

    constructor ()
      ensures Valid() && iterative && queue == [] && buf == null
    {
      iterative := true;
      argc := 0;
      length := 0;
      queue := [];
      buf := null;
    }

    /** `add`: an argument is quoted only if it has a blank in it. */
    method Add(nextArg: string, quoteArg: bool) returns (rc: int)
      requires Valid()
      modifies this
      ensures Valid()
      ensures if !iterative then rc == -1 && queue == old(queue)
              else rc == 0 && queue == old(queue) + [Entry(nextArg, quoteArg && ' ' in nextArg)]
    {
      if !iterative {
        return -1;
      }
      hide Quotes, Charges;
      var quoteArg := quoteArg;
      length := length + |nextArg|;
      if quoteArg && ' ' in nextArg {
        length := length + 2;
        NoQuotesCounted(nextArg);
        if QUOTE in nextArg {
          var quotes := CountQuotes(nextArg);
          length := length + quotes;
        }
      } else {
        quoteArg := false;
      }
      assert length == old(length) + Charge(Entry(nextArg, quoteArg));
      hide Charge;
      ChargesMore(queue, Entry(nextArg, quoteArg));
      queue := queue + [Entry(nextArg, quoteArg)];
      argc := argc + 1;
      buf := null;
      rc := 0;
    }

    /** `create_buf_from_queue`: everything is written within the `length + argc` characters allocated,
        and what is written are the arguments, a blank between two and a null character at the end. */
    method CreateBufFromQueue() returns (rc: int)
      requires Valid() && iterative
      modifies this`buf
      ensures Valid()
      ensures queue == [] ==> rc == -1 && buf == old(buf)
      ensures queue != [] ==> rc == 0 && buf != null && fresh(buf) && buf.Length == length + argc
      ensures queue != [] ==>
        var n := |Joined(queue)|; 0 < n <= buf.Length && buf[..n] == Front(Joined(queue)) + ['\0']
    {
      hide Joined, Escaped, Charges, Spared;
      if argc <= 0 {
        return -1;
      }
      var b := new char[length + argc];
      buf := b;
      var ptr, k := 0, 0;
      JoinedFits(queue);
      JoinedNone(queue[..0]);
      while k < |queue|
        invariant 0 <= k <= |queue| && buf == b && 0 <= ptr <= b.Length
        invariant b[..ptr] == Joined(queue[..k])
      {
        var arg := queue[k];
        JoinedPrefix(queue, k + 1);
        JoinedMore(queue, k);
        if arg.quoteArg {
          ptr := WriteQuoted(b, ptr, arg.arg);
        } else {
          ptr := Copy(b, ptr, arg.arg);
        }
        b[ptr] := ' ';
        ptr := ptr + 1;
        k := k + 1;
      }
      assert queue[..k] == queue;
      ghost var written := b[..ptr];
      b[ptr - 1] := '\0';
      rc := 0;
    }
  }

  lemma NoQuotesCounted(a: string)
    ensures QUOTE !in a ==> Quotes(a) == 0
  {
    if QUOTE !in a {
      NoQuotes(a);
    }
  }

  lemma ChargesMore(queue: seq<Entry>, e: Entry)
    ensures Charges(queue + [e]) == Charges(queue) + Charge(e)
  {
    assert (queue + [e])[..|queue|] == queue;
  }

  /** The loop of `add` that reckons one more for every quote. */
  method CountQuotes(arg: string) returns (n: nat)
    ensures n == Quotes(arg)
  {
    n := 0;
    var p := 0;
    while p < |arg|
      invariant 0 <= p <= |arg| && n == Quotes(arg[..p])
    {
      assert Front(arg[..p + 1]) == arg[..p];
      if arg[p] == QUOTE {
        n := n + 1;
      }
      p := p + 1;
    }
    assert arg[..p] == arg;
  }

  method Copy(b: array<char>, start: nat, arg: string) returns (ptr: nat)
    requires start + |arg| <= b.Length
    modifies b
    ensures ptr == start + |arg| && b[..ptr] == old(b[..start]) + arg
  {
    ptr := start;
    var i := 0;
    while i < |arg|
      invariant 0 <= i <= |arg| && ptr == start + i && b[..ptr] == old(b[..start]) + arg[..i]
    {
      b[ptr] := arg[i];
      ptr := ptr + 1;
      i := i + 1;
    }
  }

  /** The loop that escapes. */
  method WriteEscaped(b: array<char>, start: nat, arg: string) returns (ptr: nat)
    requires start + |Escaped(arg)| <= b.Length
    modifies b
    ensures ptr == start + |Escaped(arg)| && b[..ptr] == old(b[..start]) + Escaped(arg)
  {
    hide Escaped;
    ptr := start;
    EscapedNone(arg[..0]);
    var prev, p := '\0', 0;
    while p < |arg|
      invariant 0 <= p <= |arg| && ptr == start + |Escaped(arg[..p])| <= b.Length
      invariant prev == if p == 0 then '\0' else arg[p - 1]
      invariant b[..ptr] == old(b[..start]) + Escaped(arg[..p])
    {
      EscapedPrefix(arg, p + 1);
      EscapedMore(arg, p);
      if arg[p] == QUOTE && prev != BACKSLASH {
        b[ptr] := BACKSLASH;
        ptr := ptr + 1;
      }
      b[ptr] := arg[p];
      ptr := ptr + 1;
      prev := arg[p];
      p := p + 1;
    }
    assert arg[..p] == arg;
  }

  method WriteQuoted(b: array<char>, start: nat, arg: string) returns (ptr: nat)
    requires start + |Escaped(arg)| + 2 <= b.Length
    modifies b
    ensures ptr == start + |Escaped(arg)| + 2 && b[..ptr] == old(b[..start]) + ([QUOTE] + Escaped(arg) + [QUOTE])
  {
    hide Escaped, Quotes;
    ptr := start;
    ghost var was := b[..start];
    b[ptr] := QUOTE;
    ptr := ptr + 1;
    assert b[..ptr] == was + [QUOTE];
    if QUOTE in arg {
      ptr := WriteEscaped(b, ptr, arg);
    } else {
      NoQuotes(arg);
      ptr := Copy(b, ptr, arg);
    }
    assert b[..ptr] == was + [QUOTE] + Escaped(arg);
    b[ptr] := QUOTE;
    ptr := ptr + 1;
    assert b[..ptr] == was + [QUOTE] + Escaped(arg) + [QUOTE];
  }

  lemma {:induction false} EscapedPrefix(a: string, n: nat)
    requires n <= |a|
    ensures |Escaped(a[..n])| <= |Escaped(a)|
    decreases |a|
  {
    if n < |a| {
      assert Front(a)[..n] == a[..n];
      EscapedPrefix(Front(a), n);
    } else {
      assert a[..n] == a;
    }
  }
}
