/** Characters in the POSIX locale. */
module Characters {
  function Lower(c: char): char {
    if 'A' <= c <= 'Z' then c + ('a' - 'A') else c
  }

  /** The 26 letters, capital and small. */
  const CAPITALS := "ABCDEFGHIJKLMNOPQRSTUVWXYZ"
  const SMALL := "abcdefghijklmnopqrstuvwxyz"

  ghost predicate TwoCases(a: char, b: char) {
    exists i | 0 <= i < 26 :: a == CAPITALS[i] && b == SMALL[i]
  }

  /** Two characters are equal but for case exactly if they are equal or the two cases of one letter. */
  lemma SameLetter(a: char, b: char)
    ensures Lower(a) == Lower(b) <==> a == b || TwoCases(a, b) || TwoCases(b, a)
  {
    LetterAt(a, b);
    LetterAt(b, a);
  }

  lemma LetterAt(a: char, b: char)
    ensures TwoCases(a, b) <==> 'A' <= a <= 'Z' && b as int == a as int + 32
  {
    forall i | 0 <= i < 26 ensures CAPITALS[i] as int == 65 + i && SMALL[i] as int == 97 + i {
      Letters(i);
    }
    if 'A' <= a <= 'Z' && b as int == a as int + 32 {
      assert a == CAPITALS[a as int - 65] && b == SMALL[a as int - 65];
    }
  }

  lemma Letters(i: nat)
    requires i < 26
    ensures CAPITALS[i] as int == 65 + i && SMALL[i] as int == 97 + i
  {}
}
