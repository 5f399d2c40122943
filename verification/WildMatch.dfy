/**
  ACE::wild_match and its character classes (ACE/ace/ACE.cpp), over C strings written without their
  terminating NUL. Positions in `pat` play the part of the pointer p.
 */
module WildMatch {
  import opened Characters
  import opened Glob

  /** What a pointer into the pattern reads: the NUL at the end, a character before it. */
  function At(pat: string, i: nat): char {
    if i < |pat| then pat[i] else '\0'
  }

  /** The value of a plain `char`, which a platform may take as signed. */
  function Value(c: char, signedChar: bool): int {
    if signedChar && c >= 128 as char then c as int - 256 else c as int
  }

  const MAX_SIGNED := 127
  const MAX_UNSIGNED := 255

  function MaxChar(signedChar: bool): int {
    if signedChar then MAX_SIGNED else MAX_UNSIGNED
  }

  // ----- Patterns as token sequences

  /** The first `]` at or after j, or the end of the pattern. */
  function FindClose(pat: string, j: nat): (k: nat)
    requires j <= |pat|
    ensures j <= k <= |pat| && (k < |pat| ==> pat[k] == ']') && ']' !in pat[j..k]
    decreases |pat| - j
  {
    if j == |pat| || pat[j] == ']' then j else FindClose(pat, j + 1)
  }

  /** The first element of the bracket expression opened at i, past a leading `!`. */
  function ClassStart(pat: string, i: nat): nat {
    if At(pat, i + 1) == '!' then i + 2 else i + 1
  }

  predicate Terminated(pat: string, i: nat) {
    ClassStart(pat, i) < |pat| && FindClose(pat, ClassStart(pat, i) + 1) < |pat|
  }

  function ClassClose(pat: string, i: nat): (k: nat)
    requires Terminated(pat, i)
    ensures ClassStart(pat, i) < k < |pat| && pat[k] == ']'
  {
    FindClose(pat, ClassStart(pat, i) + 1)
  }

  /** `]` and `-` stand for themselves in first position, `-` also in last position. A range whose
      end does not lie above its start is invalid and contributes nothing. */
  function Items(pat: string, start: nat, k: nat, close: nat, signedChar: bool): seq<Item>
    requires start <= k <= close <= |pat|
    decreases close - k
  {
    if k == close then []
    else if k > start && pat[k] == '-' && k + 1 < close then
      if Value(pat[k + 1], signedChar) <= Value(pat[k - 1], signedChar) then Items(pat, start, k + 1, close, signedChar)
      else
        [Above(Value(pat[k - 1], signedChar), Value(pat[k + 1], signedChar))]
        + Items(pat, start, k + 2, close, signedChar)
    else [One(pat[k])] + Items(pat, start, k + 1, close, signedChar)
  }

  function ClassToken(pat: string, i: nat, signedChar: bool): Token
    requires Terminated(pat, i)
  {
    var start := ClassStart(pat, i);
    Class(At(pat, i + 1) == '!', Items(pat, start, start, ClassClose(pat, i), signedChar))
  }

  function Parse(pat: string, i: nat, classes: bool, signedChar: bool): seq<Token>
    requires i <= |pat|
    decreases |pat| - i
  {
    if i == |pat| then []
    else if pat[i] == '\\' then
      if i + 1 < |pat| then [Literal(pat[i + 1])] + Parse(pat, i + 2, classes, signedChar) else [Never]
    else if pat[i] == '*' then [Star] + Parse(pat, i + 1, classes, signedChar)
    else if pat[i] == '?' then [AnyChar] + Parse(pat, i + 1, classes, signedChar)
    else if classes && pat[i] == '[' then
      if !Terminated(pat, i) then [Never]
      else [ClassToken(pat, i, signedChar)] + Parse(pat, ClassClose(pat, i) + 1, classes, signedChar)
    else [Literal(pat[i])] + Parse(pat, i + 1, classes, signedChar)
  }

  /** Bracket expressions are terminated, and their ranges end. */
  predicate WellFormed(pat: string, i: nat, classes: bool, signedChar: bool)
    requires i <= |pat|
    decreases |pat| - i
  {
    if i == |pat| then true
    else if pat[i] == '\\' then i + 1 < |pat| ==> WellFormed(pat, i + 2, classes, signedChar)
    else if classes && pat[i] == '[' then
      Terminated(pat, i) && RangesEnd(ClassToken(pat, i, signedChar).items, signedChar)
      && WellFormed(pat, ClassClose(pat, i) + 1, classes, signedChar)
    else WellFormed(pat, i + 1, classes, signedChar)
  }

  /** No range ends at the largest value there is: the loop over such a range would not end. */
  predicate RangesEnd(items: seq<Item>, signedChar: bool) {
    forall i | 0 <= i < |items| && items[i].Above? :: items[i].hi < MaxChar(signedChar)
  }

  // ----- equal_class

  /** `while (*++p != ']') {}` */
  method SkipToClose(pat: string, p: nat) returns (q: nat)
    requires p < |pat| && FindClose(pat, p + 1) < |pat|
    ensures q == FindClose(pat, p + 1)
  {
    q := p + 1;
    while At(pat, q) != ']'
      invariant q <= |pat| && FindClose(pat, q) == FindClose(pat, p + 1)
      decreases |pat| - q
    {
      q := q + 1;
    }
  }

  lemma {:induction false} SameClose(pat: string, j: nat, k: nat)
    requires j <= |pat| && j <= k <= FindClose(pat, j)
    ensures FindClose(pat, k) == FindClose(pat, j)
    decreases k - j
  {
    if j < k {
      SameClose(pat, j + 1, k);
    }
  }

  /** What the loop finds at k: the dash of a range, or an element by itself. */
  predicate DashAt(pat: string, start: nat, k: nat, close: nat)
    requires start <= k < close <= |pat|
  {
    k > start && pat[k] == '-' && k + 1 < close
  }

  /** A range at the dash k is valid if its end lies above its start. */
  predicate ValidAt(pat: string, k: nat, signedChar: bool)
    requires 0 < k < |pat| - 1
  {
    Value(pat[k - 1], signedChar) < Value(pat[k + 1], signedChar)
  }

  function RangeAt(pat: string, k: nat, signedChar: bool): Item
    requires 0 < k < |pat| - 1
  {
    Above(Value(pat[k - 1], signedChar), Value(pat[k + 1], signedChar))
  }

  /** Reading the next element: one character, a range, or an invalid range's dash. */
  lemma ItemsStep(pat: string, start: nat, k: nat, close: nat, c: char, cs: bool, signedChar: bool)
    requires start <= k < close < |pat|
    ensures var here := InItems(Items(pat, start, k, close, signedChar), c, cs);
      if DashAt(pat, start, k, close) then
        if !ValidAt(pat, k, signedChar) then here == InItems(Items(pat, start, k + 1, close, signedChar), c, cs)
        else
          here ==
            (Has(RangeAt(pat, k, signedChar), c, cs) || InItems(Items(pat, start, k + 2, close, signedChar), c, cs))
      else here == (EqualChar(c, pat[k], cs) || InItems(Items(pat, start, k + 1, close, signedChar), c, cs))
  {
    if DashAt(pat, start, k, close) {
      if ValidAt(pat, k, signedChar) {
        InItemsCons(RangeAt(pat, k, signedChar), Items(pat, start, k + 2, close, signedChar), c, cs);
      }
    } else {
      InItemsCons(One(pat[k]), Items(pat, start, k + 1, close, signedChar), c, cs);
    }
    hide InItems;
  }

  /** A range that ends, followed by ranges that do. */
  lemma RangesEndStep(pat: string, start: nat, k: nat, close: nat, signedChar: bool)
    requires start <= k < close < |pat| && RangesEnd(Items(pat, start, k, close, signedChar), signedChar)
    ensures if DashAt(pat, start, k, close) && ValidAt(pat, k, signedChar) then
        && RangeAt(pat, k, signedChar).hi < MaxChar(signedChar)
        && RangesEnd(Items(pat, start, k + 2, close, signedChar), signedChar)
      else RangesEnd(Items(pat, start, k + 1, close, signedChar), signedChar)
  {
    var items := Items(pat, start, k, close, signedChar);
    if DashAt(pat, start, k, close) && ValidAt(pat, k, signedChar) {
      assert items[0] == RangeAt(pat, k, signedChar);
      assert forall i | 0 <= i < |items| - 1 :: items[1..][i] == items[i + 1];
    } else if !DashAt(pat, start, k, close) {
      assert forall i | 0 <= i < |items| - 1 :: items[1..][i] == items[i + 1];
    }
  }

  lemma InItemsCons(item: Item, items: seq<Item>, c: char, cs: bool)
    ensures InItems([item] + items, c, cs) <==> Has(item, c, cs) || InItems(items, c, cs)
  {
    hide Has;
    assert forall x :: x in [item] + items <==> x == item || x in items;
  }

  /** The loop over the characters of a range, whose counter is a plain `char`. */
  method InRange(s: char, range: Item, caseSensitive: bool, signedChar: bool) returns (found: bool)
    requires range.Above? && range.lo < range.hi < MaxChar(signedChar)
    ensures found <==> Has(range, s, caseSensitive)
  {
    hide EqualChar, CharOf;
    var value := range.lo + 1;
    while value <= range.hi
      invariant range.lo < value <= range.hi + 1
      invariant forall v | range.lo < v < value :: !EqualChar(s, CharOf(v), caseSensitive)
    {
      if EqualChar(s, CharOf(value), caseSensitive) {
        return true;
      }
      value := value + 1;
    }
    return false;
  }

  method EqualClass(s: char, pat: string, opening: nat, caseSensitive: bool, signedChar: bool) returns (r: bool, p: nat)
    requires opening < |pat| && Terminated(pat, opening) && CString(pat)
    requires RangesEnd(ClassToken(pat, opening, signedChar).items, signedChar)
    ensures p == ClassClose(pat, opening)
    ensures r <==> Admits(ClassToken(pat, opening, signedChar), s, caseSensitive)
  {
    hide EqualChar, Has, InItems, Items, FindClose, RangesEnd;
    p := opening + 1;
    var negate := false;
    if At(pat, p) == '!' {
      negate := true;
      p := p + 1;
    }
    ghost var start, close := p, ClassClose(pat, opening);
    var first := true;
    while p < |pat| && (first || pat[p] != ']')
      invariant start <= p <= close && (first <==> p == start)
      invariant RangesEnd(Items(pat, start, p, close, signedChar), signedChar)
      invariant InItems(Items(pat, start, start, close, signedChar), s, caseSensitive)
           <==> InItems(Items(pat, start, p, close, signedChar), s, caseSensitive)
      decreases close - p
    {
      InClass(pat, start, p, close);
      ItemsStep(pat, start, p, close, s, caseSensitive, signedChar);
      RangesEndStep(pat, start, p, close, signedChar);
      if !first && pat[p] == '-' && At(pat, p + 1) != ']' {
        if At(pat, p + 1) == '\0' || Value(At(pat, p + 1), signedChar) <= Value(pat[p - 1], signedChar) {
          p := p + 1;
          continue;
        }
        var found := InRange(s, RangeAt(pat, p, signedChar), caseSensitive, signedChar);
        if found {
          p := SkipToClose(pat, p);
          return !negate, p;
        }
        p := p + 1;
      } else if EqualChar(s, pat[p], caseSensitive) {
        p := SkipToClose(pat, p);
        return !negate, p;
      }
      first := false;
      p := p + 1;
    }
    NoItems(pat, start, close, s, caseSensitive, signedChar);
    return negate, p;
  }

  /** Inside a class the next bracket after p is the closing one. */
  lemma InClass(pat: string, start: nat, p: nat, close: nat)
    requires start <= p <= close < |pat| && close == FindClose(pat, start + 1)
    requires p == start || pat[p] != ']'
    ensures p < close && FindClose(pat, p + 1) == close
    ensures p + 1 < close ==> pat[p + 1] != ']'
    ensures p + 1 < |pat| && (p + 1 < close || pat[p + 1] == ']')
  {
    SameClose(pat, start + 1, p + 1);
  }

  lemma NoItems(pat: string, start: nat, close: nat, c: char, cs: bool, signedChar: bool)
    requires start <= close <= |pat|
    ensures !InItems(Items(pat, start, close, close, signedChar), c, cs)
  {}

  // ----- Signed and unsigned characters

  predicate SameSide(x: char, y: char) {
    x < 128 as char <==> y < 128 as char
  }

  /** Each range of the class, read from k on, has its ends on the same side of 128. */
  predicate OneSided(pat: string, start: nat, k: nat, close: nat)
    requires start <= k <= close <= |pat|
    decreases close - k
  {
    if k == close then true
    else if DashAt(pat, start, k, close) then
      SameSide(pat[k - 1], pat[k + 1]) && OneSided(pat, start, if pat[k - 1] < pat[k + 1] then k + 2 else k + 1, close)
    else OneSided(pat, start, k + 1, close)
  }

  /** The same for each class of the pattern. */
  predicate OneSidedRanges(pat: string, i: nat, classes: bool)
    requires i <= |pat|
    decreases |pat| - i
  {
    if i == |pat| then true
    else if pat[i] == '\\' then i + 1 < |pat| ==> OneSidedRanges(pat, i + 2, classes)
    else if classes && pat[i] == '[' then
      Terminated(pat, i) ==>
        && OneSided(pat, ClassStart(pat, i), ClassStart(pat, i), ClassClose(pat, i))
        && OneSidedRanges(pat, ClassClose(pat, i) + 1, classes)
    else OneSidedRanges(pat, i + 1, classes)
  }

  lemma {:induction false} HyphensOneSided(pat: string, start: nat, k: nat, close: nat)
    requires start <= k <= close <= |pat|
    requires forall j | 0 < j < |pat| - 1 && pat[j] == '-' :: SameSide(pat[j - 1], pat[j + 1])
    ensures OneSided(pat, start, k, close)
    decreases close - k
  {
    hide SameSide;
    if k == close {
    } else if DashAt(pat, start, k, close) {
      HyphensOneSided(pat, start, if pat[k - 1] < pat[k + 1] then k + 2 else k + 1, close);
    } else {
      HyphensOneSided(pat, start, k + 1, close);
    }
  }

  /** In particular if every hyphen stands between characters on the same side, such as basic ASCII ones. */
  lemma {:induction false} HyphensOneSidedRanges(pat: string, i: nat, classes: bool)
    requires i <= |pat|
    requires forall j | 0 < j < |pat| - 1 && pat[j] == '-' :: SameSide(pat[j - 1], pat[j + 1])
    ensures OneSidedRanges(pat, i, classes)
    decreases |pat| - i
  {
    hide SameSide;
    if i == |pat| {
    } else if pat[i] == '\\' {
      if i + 1 < |pat| {
        HyphensOneSidedRanges(pat, i + 2, classes);
      }
    } else if classes && pat[i] == '[' {
      if Terminated(pat, i) {
        HyphensOneSided(pat, ClassStart(pat, i), ClassStart(pat, i), ClassClose(pat, i));
        HyphensOneSidedRanges(pat, ClassClose(pat, i) + 1, classes);
      }
    } else {
      HyphensOneSidedRanges(pat, i + 1, classes);
    }
  }

  /** Values on the same side keep their order, and stand for the same characters between them. */
  lemma SameSideRange(x: char, y: char, c: char, cs: bool)
    requires IsChar(x) && IsChar(y) && SameSide(x, y)
    ensures Value(x, true) < Value(y, true) <==> x < y
    ensures Has(Above(Value(x, true), Value(y, true)), c, cs) <==> Has(Above(Value(x, false), Value(y, false)), c, cs)
  {
    hide EqualChar;
    var d := x as int - Value(x, true);
    assert d == y as int - Value(y, true) && (d == 0 || d == 256);
    if v :| Value(x, true) < v <= Value(y, true) && EqualChar(c, CharOf(v), cs) {
      assert CharOf(v + d) == CharOf(v);
    }
    if v :| x as int < v <= y as int && EqualChar(c, CharOf(v), cs) {
      assert CharOf(v - d) == CharOf(v);
    }
  }

  lemma {:induction false} SameItems(pat: string, start: nat, k: nat, close: nat, c: char, cs: bool)
    requires start <= k <= close < |pat| && CString(pat) && OneSided(pat, start, k, close)
    ensures InItems(Items(pat, start, k, close, true), c, cs) <==> InItems(Items(pat, start, k, close, false), c, cs)
    decreases close - k
  {
    if k == close {
      NoItems(pat, start, close, c, cs, true);
      NoItems(pat, start, close, c, cs, false);
    } else {
      ItemsStep(pat, start, k, close, c, cs, true);
      ItemsStep(pat, start, k, close, c, cs, false);
      hide InItems, Items, Has, EqualChar, IsChar;
      if DashAt(pat, start, k, close) {
        SameSideRange(pat[k - 1], pat[k + 1], c, cs);
        SameItems(pat, start, if pat[k - 1] < pat[k + 1] then k + 2 else k + 1, close, c, cs);
      } else {
        SameItems(pat, start, k + 1, close, c, cs);
      }
    }
  }

  lemma SameTokens(p: seq<Token>, cs: bool)
    ensures Alike(p, p, cs)
  {
    hide Admits;
  }

  lemma {:induction false} SameParse(pat: string, i: nat, classes: bool, cs: bool)
    requires i <= |pat| && CString(pat) && OneSidedRanges(pat, i, classes)
    ensures Alike(Parse(pat, i, classes, true), Parse(pat, i, classes, false), cs)
    decreases |pat| - i
  {
    hide CString, Alike, Items, FindClose;
    SameTokens([], cs);
    SameTokens([Never], cs);
    if i == |pat| {
    } else if pat[i] == '\\' {
      if i + 1 < |pat| {
        SameParse(pat, i + 2, classes, cs);
        AlikeCons(Literal(pat[i + 1]), Literal(pat[i + 1]), Parse(pat, i + 2, classes, true),
                  Parse(pat, i + 2, classes, false), cs);
      }
    } else if classes && pat[i] == '[' {
      if Terminated(pat, i) {
        var start, close := ClassStart(pat, i), ClassClose(pat, i);
        forall c ensures Admits(ClassToken(pat, i, true), c, cs) <==> Admits(ClassToken(pat, i, false), c, cs) {
          SameItems(pat, start, start, close, c, cs);
        }
        SameParse(pat, close + 1, classes, cs);
        AlikeCons(ClassToken(pat, i, true), ClassToken(pat, i, false), Parse(pat, close + 1, classes, true),
                  Parse(pat, close + 1, classes, false), cs);
      }
    } else {
      var t := if pat[i] == '*' then Star else if pat[i] == '?' then AnyChar else Literal(pat[i]);
      SameParse(pat, i + 1, classes, cs);
      AlikeCons(t, t, Parse(pat, i + 1, classes, true), Parse(pat, i + 1, classes, false), cs);
    }
  }

  /** If each range has its ends on the same side of 128, as basic ASCII ones have, a platform with signed
      characters and one with unsigned ones give the same answer for every text. */
  lemma SignednessIrrelevant(str: string, pat: string, classes: bool, cs: bool)
    requires CString(pat) && OneSidedRanges(pat, 0, classes)
    ensures Run(str, Tokens(pat, classes, true), Fail, cs) <==> Run(str, Tokens(pat, classes, false), Fail, cs)
    ensures Matches(str, Tokens(pat, classes, true), cs) <==> Matches(str, Tokens(pat, classes, false), cs)
  {
    SameParse(pat, 0, classes, cs);
    hide *;
    AlikeRun(str, Tokens(pat, classes, true), Tokens(pat, classes, false), Fail, Fail, cs);
    AlikeMatches(str, Tokens(pat, classes, true), Tokens(pat, classes, false), cs);
  }

  /** What the class [x-y] takes in: x, and either what lies above it up to y, or y. */
  lemma OneRange(x: char, y: char, c: char, cs: bool, signedChar: bool)
    requires x != '!' && y != ']'
    ensures var pat := ['[', x, '-', y, ']'];
      && Terminated(pat, 0)
      && (Admits(ClassToken(pat, 0, signedChar), c, cs) <==>
            || EqualChar(c, x, cs)
            || if Value(x, signedChar) < Value(y, signedChar)
               then Has(Above(Value(x, signedChar), Value(y, signedChar)), c, cs) else EqualChar(c, y, cs))
  {
    var pat := ['[', x, '-', y, ']'];
    assert FindClose(pat, 2) == FindClose(pat, 3) == FindClose(pat, 4) == 4;
    hide Has, EqualChar, FindClose, Items, InItems, Value;
    ItemsStep(pat, 1, 1, 4, c, cs, signedChar);
    ItemsStep(pat, 1, 2, 4, c, cs, signedChar);
    ItemsStep(pat, 1, 3, 4, c, cs, signedChar);
    NoItems(pat, 1, 4, c, cs, signedChar);
  }

  /** Ends on different sides without a character between them: 127 and 128 if characters are unsigned, 255
      and 1 if they are signed and only the NUL is between them. */
  predicate NothingBetween(x: char, y: char) {
    (x == 127 as char && y == 128 as char) || (x == 255 as char && y == 1 as char)
  }

  lemma NarrowRange(c: char, cs: bool)
    requires IsChar(c)
    ensures Has(Above(127, 128), c, cs) <==> EqualChar(c, 128 as char, cs)
    ensures Has(Above(-1, 1), c, cs) <==> EqualChar(c, 1 as char, cs)
  {
    assert CharOf(128) == 128 as char && CharOf(0) == '\0' && CharOf(1) == 1 as char;
    assert !EqualChar(c, '\0', cs);
  }

  /** A character between the ends of a range from x on, for the signedness that makes the range valid. */
  function Separating(x: char): char {
    (if x < 127 as char then 127 else if x == 127 as char then 128 else if x < 255 as char then 255 else 1) as char
  }

  lemma TakenIn(x: char, y: char, cs: bool)
    requires IsChar(x) && IsChar(y) && !SameSide(x, y) && !NothingBetween(x, y)
    ensures var (c, signed) := (Separating(x), x >= 128 as char);
      && IsChar(c) && !EqualChar(c, x, cs) && !EqualChar(c, y, cs)
      && Value(x, signed) < Value(y, signed) && Value(x, !signed) >= Value(y, !signed)
      && Has(Above(Value(x, signed), Value(y, signed)), c, cs)
  {
    var v := if x < 127 as char then 127 else if x == 127 as char then 128 else if x < 255 as char then -1 else 1;
    assert CharOf(v) == Separating(x);
  }

  /** The class [x-y] takes in the same characters either way if and only if its ends are on the same side
      of 128, but for two ranges in which no character lies between the ends. */
  lemma RangeSignedness(x: char, y: char, cs: bool)
    requires IsChar(x) && IsChar(y) && x != '!' && y != ']'
    ensures var pat := ['[', x, '-', y, ']'];
      && Terminated(pat, 0)
      && ((forall c | IsChar(c) ::
             Admits(ClassToken(pat, 0, true), c, cs) <==> Admits(ClassToken(pat, 0, false), c, cs))
          <==> SameSide(x, y) || NothingBetween(x, y))
  {
    hide Admits, ClassToken, Has;
    var pat := ['[', x, '-', y, ']'];
    forall c | IsChar(c)
      ensures Terminated(pat, 0)
      ensures SameSide(x, y) || NothingBetween(x, y) ==>
        (Admits(ClassToken(pat, 0, true), c, cs) <==> Admits(ClassToken(pat, 0, false), c, cs))
    {
      OneRange(x, y, c, cs, true);
      OneRange(x, y, c, cs, false);
      if SameSide(x, y) {
        SameSideRange(x, y, c, cs);
      } else {
        NarrowRange(c, cs);
      }
    }
    var c := Separating(x);
    OneRange(x, y, c, cs, true);
    OneRange(x, y, c, cs, false);
    if !SameSide(x, y) && !NothingBetween(x, y) {
      TakenIn(x, y, cs);
    }
  }

  /** Whether plain `char` is signed does matter: the range from 0xE9 to z takes in a if it is, and is
      invalid if it is not. */
  lemma SignednessMatters(signedChar: bool)
    ensures var pat := ['[', 0xE9 as char, '-', 'z', ']'];
      && Terminated(pat, 0) && WellFormed(pat, 0, true, signedChar)
      && (Admits(ClassToken(pat, 0, signedChar), 'a', true) <==> signedChar)
  {
    var pat := ['[', 0xE9 as char, '-', 'z', ']'];
    assert FindClose(pat, 2) == FindClose(pat, 3) == FindClose(pat, 4) == 4;
    var start, close := ClassStart(pat, 0), ClassClose(pat, 0);
    assert Items(pat, start, 4, close, signedChar) == [];
    ItemsStep(pat, start, 1, close, 'a', true, signedChar);
    ItemsStep(pat, start, 2, close, 'a', true, signedChar);
    if signedChar {
      assert CharOf(97) == 'a' && Has(Above(-23, 122), 'a', true);
      assert Items(pat, start, 2, close, true) == [Above(-23, 122)];
    } else {
      ItemsStep(pat, start, 3, close, 'a', true, signedChar);
      assert Items(pat, start, 3, close, false) == [One('z')];
    }
  }

  // ----- wild_match

  datatype Pointer = Null | Chars(chars: string)

  lemma ParseStars(pat: string, i: nat, classes: bool, signedChar: bool)
    requires i < |pat| && pat[i] == '*'
    ensures DropStars(Parse(pat, i, classes, signedChar)) == DropStars(Parse(pat, i + 1, classes, signedChar))
  {
    assert Parse(pat, i, classes, signedChar)[1..] == Parse(pat, i + 1, classes, signedChar);
  }

  lemma ParseNoStar(pat: string, i: nat, classes: bool, signedChar: bool)
    requires i <= |pat| && At(pat, i) != '*'
    ensures DropStars(Parse(pat, i, classes, signedChar)) == Parse(pat, i, classes, signedChar)
    ensures Parse(pat, i, classes, signedChar) == [] <==> i == |pat|
  {}

  method SkipStars(pat: string, p: nat, ghost classes: bool, ghost signedChar: bool) returns (q: nat)
    requires p < |pat| && pat[p] == '*' && WellFormed(pat, p, classes, signedChar)
    ensures p < q <= |pat| && At(pat, q) != '*' && WellFormed(pat, q, classes, signedChar)
    ensures Parse(pat, q, classes, signedChar) == DropStars(Parse(pat, p, classes, signedChar))
  {
    q := p + 1;
    ParseStars(pat, p, classes, signedChar);
    while At(pat, q) == '*'
      invariant p < q <= |pat| && WellFormed(pat, q, classes, signedChar)
      invariant DropStars(Parse(pat, q, classes, signedChar)) == DropStars(Parse(pat, p, classes, signedChar))
      decreases |pat| - q
    {
      ParseStars(pat, q, classes, signedChar);
      q := q + 1;
    }
    ParseNoStar(pat, q, classes, signedChar);
  }

  /** The tokens of a pattern, and the token sequence the pointer p stands at. */
  ghost function Tokens(pat: string, classes: bool, signedChar: bool): seq<Token> {
    Parse(pat, 0, classes, signedChar)
  }

  /** The token that starts at p, and where the next one starts. */
  ghost function TokenAt(pat: string, p: nat, classes: bool, signedChar: bool): Token
    requires p < |pat| && WellFormed(pat, p, classes, signedChar)
  {
    if pat[p] == '\\' then if p + 1 < |pat| then Literal(pat[p + 1]) else Never
    else if pat[p] == '*' then Star
    else if pat[p] == '?' then AnyChar
    else if classes && pat[p] == '[' then ClassToken(pat, p, signedChar)
    else Literal(pat[p])
  }

  ghost function NextAt(pat: string, p: nat, classes: bool, signedChar: bool): (n: nat)
    requires p < |pat| && WellFormed(pat, p, classes, signedChar)
    ensures p < n <= |pat| && WellFormed(pat, n, classes, signedChar)
  {
    if pat[p] == '\\' then if p + 1 < |pat| then p + 2 else p + 1
    else if classes && pat[p] == '[' then ClassClose(pat, p) + 1
    else p + 1
  }

  lemma ParseToken(pat: string, p: nat, classes: bool, signedChar: bool)
    requires p < |pat| && WellFormed(pat, p, classes, signedChar)
    ensures Parse(pat, p, classes, signedChar)
         == [TokenAt(pat, p, classes, signedChar)]
            + Parse(pat, NextAt(pat, p, classes, signedChar), classes, signedChar)
  {}

  lemma StepStar(str: string, s: nat, pat: string, p: nat, restart: Restart, cs: bool, classes: bool, signedChar: bool)
    requires s < |str| && p < |pat| && pat[p] == '*' && WellFormed(pat, p, classes, signedChar)
    ensures var rest := DropStars(Parse(pat, p, classes, signedChar));
      Run(str[s..], Parse(pat, p, classes, signedChar), restart, cs) <==>
        rest == [] || Run(str[s..], rest, After(rest), cs)
  {
    ParseToken(pat, p, classes, signedChar);
    hide Parse, Admits;
  }

  lemma StepToken(str: string, s: nat, pat: string, p: nat, restart: Restart, cs: bool, classes: bool, signedChar: bool)
    requires s < |str| && p <= |pat| && At(pat, p) != '*' && WellFormed(pat, p, classes, signedChar)
    ensures Run(str[s..], Parse(pat, p, classes, signedChar), restart, cs) <==>
      if p < |pat| && Admits(TokenAt(pat, p, classes, signedChar), str[s], cs)
      then Run(str[s + 1..], Parse(pat, NextAt(pat, p, classes, signedChar), classes, signedChar), restart, cs)
      else restart.After? && Run(str[s + 1..], restart.tokens, restart, cs)
  {
    assert str[s..][1..] == str[s + 1..];
    if p < |pat| {
      ParseToken(pat, p, classes, signedChar);
      hide Parse, Admits;
    }
  }

  lemma StepEnd(pat: string, p: nat, restart: Restart, cs: bool, classes: bool, signedChar: bool)
    requires p <= |pat|
    ensures Run([], Parse(pat, p, classes, signedChar), restart, cs) <==>
      DropStars(Parse(pat, p, classes, signedChar)) == []
  {
    hide Parse;
  }

  lemma NulDiffers(str: string, i: nat, cs: bool)
    requires CString(str) && i < |str|
    ensures str[i] != '\0' && !EqualChar(str[i], '\0', cs)
  {}

  lemma NulEnds(pat: string, i: nat)
    requires CString(pat) && i <= |pat|
    ensures At(pat, i) == '\0' <==> i == |pat|
  {}

  // ----- What the text of a pattern means

  lemma {:induction false} FindCloseBehind(x: string, q: string, j: nat)
    requires j <= |q|
    ensures FindClose(x + q, |x| + j) == |x| + FindClose(q, j)
    decreases |q| - j
  {
    if j < |q| && q[j] != ']' {
      FindCloseBehind(x, q, j + 1);
    }
  }

  lemma {:induction false} ItemsBehind(x: string, q: string, start: nat, k: nat, close: nat, signedChar: bool)
    requires start <= k <= close <= |q|
    ensures Items(x + q, |x| + start, |x| + k, |x| + close, signedChar) == Items(q, start, k, close, signedChar)
    decreases close - k
  {
    hide Value;
    if k < close {
      assert (x + q)[|x| + k] == q[k];
      if k > start && q[k] == '-' && k + 1 < close {
        assert (x + q)[|x| + k - 1] == q[k - 1] && (x + q)[|x| + k + 1] == q[k + 1];
        if Value(q[k + 1], signedChar) <= Value(q[k - 1], signedChar) {
          ItemsBehind(x, q, start, k + 1, close, signedChar);
        } else {
          ItemsBehind(x, q, start, k + 2, close, signedChar);
        }
      } else {
        ItemsBehind(x, q, start, k + 1, close, signedChar);
      }
    }
  }

  lemma ClassBehind(x: string, q: string, i: nat, signedChar: bool)
    requires i < |q|
    ensures Terminated(x + q, |x| + i) <==> Terminated(q, i)
    ensures Terminated(q, i) ==>
      && i < ClassClose(q, i) && ClassClose(x + q, |x| + i) == |x| + ClassClose(q, i)
      && ClassToken(x + q, |x| + i, signedChar) == ClassToken(q, i, signedChar)
  {
    var start := ClassStart(q, i);
    assert ClassStart(x + q, |x| + i) == |x| + start;
    if start < |q| {
      FindCloseBehind(x, q, start + 1);
      hide FindClose;
      if Terminated(q, i) {
        ItemsBehind(x, q, start, start, ClassClose(q, i), signedChar);
      }
    }
    hide Items;
  }

  lemma ParseStep(pat: string, i: nat, classes: bool, signedChar: bool)
    requires i < |pat|
    ensures Parse(pat, i, classes, signedChar) ==
      if pat[i] == '\\' then
        if i + 1 < |pat| then [Literal(pat[i + 1])] + Parse(pat, i + 2, classes, signedChar) else [Never]
      else if classes && pat[i] == '[' then
        if !Terminated(pat, i) then [Never]
        else [ClassToken(pat, i, signedChar)] + Parse(pat, ClassClose(pat, i) + 1, classes, signedChar)
      else [Plain(pat[i])] + Parse(pat, i + 1, classes, signedChar)
  {
    hide ClassToken, Terminated, ClassClose;
  }

  function Plain(c: char): Token {
    if c == '*' then Star else if c == '?' then AnyChar else Literal(c)
  }

  lemma ParseEnd(pat: string, i: nat, classes: bool, signedChar: bool)
    requires i == |pat|
    ensures Parse(pat, i, classes, signedChar) == []
  {}

  /** A pattern read from some position on is the pattern that starts there. */
  lemma {:induction false} ParseBehind(x: string, q: string, i: nat, classes: bool, signedChar: bool)
    requires i <= |q|
    ensures Parse(x + q, |x| + i, classes, signedChar) == Parse(q, i, classes, signedChar)
    decreases |q| - i
  {
    hide *;
    if i == |q| {
      ParseEnd(x + q, |x| + i, classes, signedChar);
      ParseEnd(q, i, classes, signedChar);
    } else {
      ParseStep(x + q, |x| + i, classes, signedChar);
      ParseStep(q, i, classes, signedChar);
      assert (x + q)[|x| + i] == q[i];
      if q[i] == '\\' {
        if i + 1 < |q| {
          assert (x + q)[|x| + i + 1] == q[i + 1];
          ParseBehind(x, q, i + 2, classes, signedChar);
        }
      } else if classes && q[i] == '[' {
        ClassBehind(x, q, i, signedChar);
        if Terminated(q, i) {
          ParseBehind(x, q, ClassClose(q, i) + 1, classes, signedChar);
        }
      } else {
        ParseBehind(x, q, i + 1, classes, signedChar);
      }
    }
  }

  lemma TokensBehind(x: string, q: string, classes: bool, signedChar: bool)
    ensures Parse(x + q, |x|, classes, signedChar) == Tokens(q, classes, signedChar)
  {
    ParseBehind(x, q, 0, classes, signedChar);
  }

  lemma MatchesFirst(s: string, t: Token, p: seq<Token>, cs: bool)
    requires !t.Star?
    ensures Matches(s, [t] + p, cs) <==> s != "" && Admits(t, s[0], cs) && Matches(s[1..], p, cs)
  {
    assert ([t] + p)[1..] == p;
    hide Admits;
  }

  /** An empty pattern matches the empty text. */
  lemma EmptyText(s: string, classes: bool, signedChar: bool, cs: bool)
    ensures Matches(s, Tokens("", classes, signedChar), cs) <==> s == ""
  {}

  /** A question mark matches any one character. */
  lemma QuestionMarkText(rest: string, s: string, classes: bool, signedChar: bool, cs: bool)
    ensures Matches(s, Tokens("?" + rest, classes, signedChar), cs) <==>
      s != "" && Matches(s[1..], Tokens(rest, classes, signedChar), cs)
  {
    TokensBehind("?", rest, classes, signedChar);
    MatchesFirst(s, AnyChar, Tokens(rest, classes, signedChar), cs);
    hide Matches;
  }

  /** A star matches any text, the empty one included. */
  lemma StarText(rest: string, s: string, classes: bool, signedChar: bool, cs: bool)
    ensures Matches(s, Tokens("*" + rest, classes, signedChar), cs) <==>
      exists k | 0 <= k <= |s| :: Matches(s[k..], Tokens(rest, classes, signedChar), cs)
  {
    var p := Tokens(rest, classes, signedChar);
    TokensBehind("*", rest, classes, signedChar);
    assert Tokens("*" + rest, classes, signedChar) == [Star] + p && ([Star] + p)[1..] == p;
    hide Tokens;
  }

  /** A character behind a backslash stands for itself, whatever it is, up to case if case is ignored. */
  lemma EscapeText(c: char, rest: string, s: string, classes: bool, signedChar: bool, cs: bool)
    ensures Matches(s, Tokens(['\\', c] + rest, classes, signedChar), cs) <==>
      && s != "" && (s[0] == c || (!cs && (TwoCases(s[0], c) || TwoCases(c, s[0]))))
      && Matches(s[1..], Tokens(rest, classes, signedChar), cs)
  {
    TokensBehind(['\\', c], rest, classes, signedChar);
    assert Tokens(['\\', c] + rest, classes, signedChar) == [Literal(c)] + Tokens(rest, classes, signedChar);
    MatchesFirst(s, Literal(c), Tokens(rest, classes, signedChar), cs);
    if s != "" {
      EqualCharMeans(s[0], c, cs);
    }
    hide Matches, Tokens, TwoCases, EqualChar;
  }

  /** A backslash at the end matches nothing. */
  lemma LoneBackslashText(s: string, classes: bool, signedChar: bool, cs: bool)
    ensures !Matches(s, Tokens("\\", classes, signedChar), cs)
  {}

  /** Any other character stands for itself; a bracket does so where there are no classes. */
  lemma OtherText(c: char, rest: string, s: string, classes: bool, signedChar: bool, cs: bool)
    requires c !in "\\*?" && (classes ==> c != '[')
    ensures Matches(s, Tokens([c] + rest, classes, signedChar), cs) <==>
      && s != "" && (s[0] == c || (!cs && (TwoCases(s[0], c) || TwoCases(c, s[0]))))
      && Matches(s[1..], Tokens(rest, classes, signedChar), cs)
  {
    TokensBehind([c], rest, classes, signedChar);
    assert "\\*?"[0] != c && "\\*?"[1] != c && "\\*?"[2] != c;
    assert Tokens([c] + rest, classes, signedChar) == [Literal(c)] + Tokens(rest, classes, signedChar);
    MatchesFirst(s, Literal(c), Tokens(rest, classes, signedChar), cs);
    if s != "" {
      EqualCharMeans(s[0], c, cs);
    }
    hide Matches, Tokens, TwoCases, EqualChar;
  }

  /** A hyphen of a class that is neither the first nor the last of its elements. */
  predicate Hyphen(body: string, k: nat) {
    0 < k && k + 1 < |body| && body[k] == '-'
  }

  predicate Ascends(body: string, k: nat, signedChar: bool)
    requires Hyphen(body, k)
  {
    Value(body[k - 1], signedChar) < Value(body[k + 1], signedChar)
  }

  /** Such a hyphen makes a range, unless it is itself the end of a valid one. */
  predicate MakesRange(body: string, k: nat, signedChar: bool) {
    Hyphen(body, k) && !(MakesRange(body, k - 1, signedChar) && Ascends(body, k - 1, signedChar))
  }

  /** What element k of a class takes in: a range, the values from that of the character before it,
      exclusive, to that of the one behind it, which is nothing for an invalid one; anything else, itself. */
  predicate TakesAt(body: string, k: nat, x: char, signedChar: bool)
    requires k < |body|
  {
    if MakesRange(body, k, signedChar) then
      Value(body[k - 1], signedChar) < Value(x, signedChar) <= Value(body[k + 1], signedChar)
    else x == body[k]
  }

  ghost predicate TakesHere(body: string, k: nat, c: char, cs: bool, signedChar: bool)
    requires k < |body|
  {
    exists x: char | x < 256 as char :: TakesAt(body, k, x, signedChar) && EqualChar(c, x, cs)
  }

  ghost predicate TakesFrom(body: string, k: nat, c: char, cs: bool, signedChar: bool) {
    exists i | k <= i < |body| :: TakesHere(body, i, c, cs, signedChar)
  }

  /** Whether a class with these elements takes in c, or, if case is ignored, c in its other case. */
  ghost predicate Takes(body: string, c: char, cs: bool, signedChar: bool) {
    exists i, x: char | 0 <= i < |body| && x < 256 as char ::
      TakesAt(body, i, x, signedChar) && (c == x || (!cs && (TwoCases(c, x) || TwoCases(x, c))))
  }

  lemma TakesFromMore(body: string, k: nat, c: char, cs: bool, signedChar: bool)
    requires k < |body|
    ensures TakesFrom(body, k, c, cs, signedChar) <==>
      TakesHere(body, k, c, cs, signedChar) || TakesFrom(body, k + 1, c, cs, signedChar)
  {
    hide TakesHere;
  }

  lemma TakesItself(body: string, k: nat, c: char, cs: bool, signedChar: bool)
    requires k < |body| && body[k] < 256 as char && !MakesRange(body, k, signedChar)
    ensures TakesHere(body, k, c, cs, signedChar) <==> EqualChar(c, body[k], cs)
  {
    hide MakesRange, EqualChar;
    assert TakesAt(body, k, body[k], signedChar);
  }

  lemma ValueOf(x: char, signedChar: bool)
    requires x < 256 as char
    ensures CharOf(Value(x, signedChar)) == x
  {}

  lemma CharAt(v: int, signedChar: bool)
    requires (if signedChar then -128 else 0) <= v <= MaxChar(signedChar)
    ensures CharOf(v) < 256 as char && Value(CharOf(v), signedChar) == v
  {}

  lemma TakesRange(body: string, k: nat, c: char, cs: bool, signedChar: bool)
    requires MakesRange(body, k, signedChar) && body[k - 1] < 256 as char && body[k + 1] < 256 as char
    ensures !Ascends(body, k, signedChar) ==> !TakesHere(body, k, c, cs, signedChar)
    ensures Ascends(body, k, signedChar) ==>
      && (TakesHere(body, k, c, cs, signedChar) <==>
            Has(Above(Value(body[k - 1], signedChar), Value(body[k + 1], signedChar)), c, cs))
      && (TakesHere(body, k + 1, c, cs, signedChar) ==> TakesHere(body, k, c, cs, signedChar))
  {
    hide EqualChar;
    var (lo, hi) := (Value(body[k - 1], signedChar), Value(body[k + 1], signedChar));
    if TakesHere(body, k, c, cs, signedChar) {
      var x: char :| x < 256 as char && TakesAt(body, k, x, signedChar) && EqualChar(c, x, cs);
      ValueOf(x, signedChar);
    }
    if v :| lo < v <= hi && EqualChar(c, CharOf(v), cs) {
      CharAt(v, signedChar);
      assert TakesAt(body, k, CharOf(v), signedChar);
    }
    if Ascends(body, k, signedChar) && TakesHere(body, k + 1, c, cs, signedChar) {
      assert !MakesRange(body, k + 1, signedChar);
      assert TakesAt(body, k, body[k + 1], signedChar);
    }
  }

  /** Position k of the pattern, where k is not the end of a valid range, as an element of the class. */
  lemma ElementAt(pat: string, start: nat, k: nat, close: nat, signedChar: bool)
    requires start <= k < close < |pat|
    requires k == start || !(MakesRange(pat[start..close], k - 1 - start, signedChar)
                             && Ascends(pat[start..close], k - 1 - start, signedChar))
    ensures var (body, j) := (pat[start..close], k - start);
      && body[j] == pat[k] && (MakesRange(body, j, signedChar) <==> DashAt(pat, start, k, close))
      && (DashAt(pat, start, k, close) ==>
            && 0 < j && j + 1 < |body| && body[j - 1] == pat[k - 1] && body[j + 1] == pat[k + 1]
            && (Ascends(body, j, signedChar) <==> ValidAt(pat, k, signedChar))
            && (ValidAt(pat, k, signedChar) ==> !MakesRange(body, j + 1, signedChar)))
  {
    hide Value;
  }

  /** The elements read from k on. */
  lemma {:induction false} ItemsTake(pat: string, start: nat, k: nat, close: nat, c: char, cs: bool, signedChar: bool)
    requires start <= k <= close < |pat| && CString(pat[start..close])
    requires k == start || !(MakesRange(pat[start..close], k - 1 - start, signedChar)
                             && Ascends(pat[start..close], k - 1 - start, signedChar))
    ensures InItems(Items(pat, start, k, close, signedChar), c, cs)
       <==> TakesFrom(pat[start..close], k - start, c, cs, signedChar)
    decreases close - k
  {
    hide InItems, Items, Has, EqualChar, TakesFrom, TakesHere, MakesRange, Ascends, Value, DashAt, ValidAt, CString;
    var body, j: nat := pat[start..close], k - start;
    if k == close {
      NoItems(pat, start, close, c, cs, signedChar);
      TakesNothing(body, c, cs, signedChar);
    } else {
      ElementAt(pat, start, k, close, signedChar);
      ItemsStep(pat, start, k, close, c, cs, signedChar);
      TakesFromMore(body, j, c, cs, signedChar);
      BodyChar(body, j);
      if DashAt(pat, start, k, close) {
        BodyChar(body, j - 1);
        BodyChar(body, j + 1);
        TakesRange(body, j, c, cs, signedChar);
        if ValidAt(pat, k, signedChar) {
          TakesFromMore(body, j + 1, c, cs, signedChar);
          ItemsTake(pat, start, k + 2, close, c, cs, signedChar);
        } else {
          ItemsTake(pat, start, k + 1, close, c, cs, signedChar);
        }
      } else {
        TakesItself(body, j, c, cs, signedChar);
        ItemsTake(pat, start, k + 1, close, c, cs, signedChar);
      }
    }
  }

  lemma BodyChar(body: string, j: nat)
    requires CString(body) && j < |body|
    ensures body[j] < 256 as char
  {
    assert IsChar(body[j]);
  }

  lemma TakesNothing(body: string, c: char, cs: bool, signedChar: bool)
    ensures !TakesFrom(body, |body|, c, cs, signedChar)
  {}

  lemma TakesIs(body: string, c: char, cs: bool, signedChar: bool)
    ensures Takes(body, c, cs, signedChar) <==> TakesFrom(body, 0, c, cs, signedChar)
  {
    hide TwoCases, TakesAt, EqualChar;
    forall x {
      EqualCharMeans(c, x, cs);
    }
    if Takes(body, c, cs, signedChar) {
      var i, x: char :| 0 <= i < |body| && x < 256 as char && TakesAt(body, i, x, signedChar) && EqualChar(c, x, cs);
      assert TakesHere(body, i, c, cs, signedChar);
    }
  }

  lemma {:induction false} FindCloseAt(pat: string, j: nat, k: nat)
    requires j <= k < |pat| && pat[k] == ']' && ']' !in pat[j..k]
    ensures FindClose(pat, j) == k
    decreases k - j
  {
    if j < k {
      assert pat[j] == pat[j..k][0];
      assert pat[j..k][1..] == pat[j + 1..k];
      FindCloseAt(pat, j + 1, k);
    }
  }

  /** Elements of a class: at least one, and a closing bracket only as the first. */
  predicate IsBody(body: string) {
    body != "" && ']' !in body[1..]
  }

  /** The text of a class, with the rest of the pattern. */
  function ClassPattern(negated: bool, body: string, rest: string): string {
    (if negated then "[!" else "[") + body + "]" + rest
  }

  lemma ClassIs(negated: bool, body: string, rest: string, c: char, cs: bool, signedChar: bool)
    requires IsBody(body) && (!negated ==> body[0] != '!') && CString(body)
    ensures var pat := ClassPattern(negated, body, rest);
      && Terminated(pat, 0)
      && (Admits(ClassToken(pat, 0, signedChar), c, cs) <==> Takes(body, c, cs, signedChar) != negated)
      && ClassClose(pat, 0) + 1 == |pat| - |rest| && pat[ClassClose(pat, 0) + 1..] == rest
  {
    var pat := ClassPattern(negated, body, rest);
    var start: nat := if negated then 2 else 1;
    var close: nat := start + |body|;
    assert pat[start..close] == body && pat[close] == ']' && pat[close + 1..] == rest;
    assert pat[start + 1..close] == body[1..];
    assert ClassStart(pat, 0) == start;
    FindCloseAt(pat, start + 1, close);
    ItemsTake(pat, start, start, close, c, cs, signedChar);
    TakesIs(body, c, cs, signedChar);
    hide Items, InItems, TakesFrom, Takes, CString, FindClose;
  }

  /** A class matches one character: one that its elements take in, or, with `!` in front of them, one that
      they do not. */
  lemma ClassText(negated: bool, body: string, rest: string, s: string, signedChar: bool, cs: bool)
    requires IsBody(body) && (!negated ==> body[0] != '!') && CString(body)
    ensures Matches(s, Tokens(ClassPattern(negated, body, rest), true, signedChar), cs) <==>
      && s != "" && Takes(body, s[0], cs, signedChar) != negated
      && Matches(s[1..], Tokens(rest, true, signedChar), cs)
  {
    var pat, c := ClassPattern(negated, body, rest), if s == "" then 'x' else s[0];
    ClassIs(negated, body, rest, c, cs, signedChar);
    hide Takes, Admits, ClassToken, CString;
    var n := ClassClose(pat, 0) + 1;
    assert pat[..n] + rest == pat && pat[0] == '[';
    TokensBehind(pat[..n], rest, true, signedChar);
    assert Tokens(pat, true, signedChar) == [ClassToken(pat, 0, signedChar)] + Tokens(rest, true, signedChar);
    hide Tokens, Parse, Matches, ClassPattern;
    MatchesFirst(s, ClassToken(pat, 0, signedChar), Tokens(rest, true, signedChar), cs);
  }

  method MatchChars(str: string, pattern: string, caseSensitive: bool, classes: bool, signedChar: bool)
    returns (r: bool)
    requires CString(str) && CString(pattern) && WellFormed(pattern, 0, classes, signedChar)
    ensures r <==> Run(str, Parse(pattern, 0, classes, signedChar), Fail, caseSensitive)
  {
    hide Run, Parse, EqualChar, RangesEnd, Items, FindClose, InItems, CString;
    var star, escape := false, false;
    var s, p, pat := 0, 0, 0;
    ghost var answer := Run(str, Parse(pattern, 0, classes, signedChar), Fail, caseSensitive);
    ghost var restart := Fail;
    ghost var cur: nat := 0;  // where the token being read starts
    assert str[0..] == str;
    while s < |str|
      invariant 0 <= s <= |str| && 0 <= p <= |pattern| && 0 <= pat <= |pattern|
      invariant p == if escape then cur + 1 else cur
      invariant escape ==> s < |str| && pattern[cur] == '\\'
      invariant WellFormed(pattern, cur, classes, signedChar)
      invariant answer == Run(str[s..], Parse(pattern, cur, classes, signedChar), restart, caseSensitive)
      invariant restart == if star then After(Parse(pattern, pat, classes, signedChar)) else Fail
      invariant star ==> WellFormed(pattern, pat, classes, signedChar)
      decreases |str| - s, |pattern| - p
    {
      NulDiffers(str, s, caseSensitive);
      NulEnds(pattern, p);
      if At(pattern, cur) != '*' {
        StepToken(str, s, pattern, cur, restart, caseSensitive, classes, signedChar);
      }
      if !escape && At(pattern, p) == '\\' {
        p := p + 1;
        escape := true;
      } else if !escape && At(pattern, p) == '*' {
        star := true;
        StepStar(str, s, pattern, p, restart, caseSensitive, classes, signedChar);
        pat := SkipStars(pattern, p, classes, signedChar);
        ParseNoStar(pattern, pat, classes, signedChar);
        NulEnds(pattern, pat);
        if At(pattern, pat) == '\0' {
          return true;
        }
        p := pat;
        restart, cur := After(Parse(pattern, pat, classes, signedChar)), p;
      } else if !escape && At(pattern, p) == '?' {
        s := s + 1;
        p := p + 1;
        cur := p;
      } else if !escape && classes && At(pattern, p) == '[' {
        var matched;
        matched, p := EqualClass(str[s], pattern, p, caseSensitive, signedChar);
        if matched {
          p := p + 1;
        } else {
          if !star {
            return false;
          }
          p := pat;
        }
        s := s + 1;
        cur := p;
      } else if !EqualChar(str[s], At(pattern, p), caseSensitive) {
        if !star {
          return false;
        }
        s := s + 1;
        p := pat;
        escape := false;
        cur := p;
      } else {
        s := s + 1;
        p := p + 1;
        escape := false;
        cur := p;
      }
    }
    assert str[s..] == [];
    StepEnd(pattern, p, restart, caseSensitive, classes, signedChar);
    if At(pattern, p) == '*' {
      p := SkipStars(pattern, p, classes, signedChar);
    }
    ParseNoStar(pattern, p, classes, signedChar);
    NulEnds(pattern, p);
    return At(pattern, p) == '\0';
  }

  method WildMatch(str: Pointer, pattern: Pointer, caseSensitive: bool, classes: bool, signedChar: bool)
    returns (r: bool)
    requires str.Chars? ==> CString(str.chars)
    requires pattern.Chars? ==> CString(pattern.chars) && WellFormed(pattern.chars, 0, classes, signedChar)
    ensures str.Null? && pattern.Null? ==> r
    ensures str.Null? != pattern.Null? ==> !r
    ensures str.Chars? && pattern.Chars? ==>
      && (r <==> Run(str.chars, Tokens(pattern.chars, classes, signedChar), Fail, caseSensitive))
      && (r ==> Matches(str.chars, Tokens(pattern.chars, classes, signedChar), caseSensitive))
      && (Safe(Tokens(pattern.chars, classes, signedChar), caseSensitive) ==>
            (r <==> Matches(str.chars, Tokens(pattern.chars, classes, signedChar), caseSensitive)))
  {
    if str.Null? && pattern.Null? {
      return true;
    }
    if pattern.Null? || str.Null? {
      return false;
    }
    r := MatchChars(str.chars, pattern.chars, caseSensitive, classes, signedChar);
    ghost var tokens := Tokens(pattern.chars, classes, signedChar);
    if r {
      RunSound(str.chars, tokens, Fail, caseSensitive);
    }
    ExactIffSafe(tokens, caseSensitive);
  }
}
