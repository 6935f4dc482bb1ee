/** Case-insensitive string comparison, as used to check a guess against the secret word. */
module Text {

  /** Lower-cases an ASCII capital letter; every other character is kept. */
  function LowerChar(c: char): char
  {
    if 'A' <= c <= 'Z' then (c as int + 32) as char else c
  }

  /** `a.equals(b, ignoreCase = true)` restricted to ASCII case folding: same
      length, and the same character at every position once ASCII letters are
      brought to one case. */
  predicate EqualsIgnoreCase(a: string, b: string)
  {
    |a| == |b| && forall i | 0 <= i < |a| :: LowerChar(a[i]) == LowerChar(b[i])
  }

  /** The whole string lower-cased, one character at a time. */
  function Lowercase(s: string): string
  {
    if s == [] then [] else [LowerChar(s[0])] + Lowercase(s[1..])
  }

  lemma {:induction false} LowercaseAt(s: string)
    ensures |Lowercase(s)| == |s|
    ensures forall i | 0 <= i < |s| :: Lowercase(s)[i] == LowerChar(s[i])
  {
    if s != [] {
      LowercaseAt(s[1..]);
    }
  }

  /** The position-wise comparison agrees with comparing the lower-cased strings,
      so a guess is accepted exactly when it spells the word up to ASCII case. */
  lemma {:induction false} EqualsIgnoreCaseIffSameLowercase(a: string, b: string)
    ensures EqualsIgnoreCase(a, b) <==> Lowercase(a) == Lowercase(b)
  {
    LowercaseAt(a);
    LowercaseAt(b);
    if Lowercase(a) == Lowercase(b) {
      forall i | 0 <= i < |a| ensures LowerChar(a[i]) == LowerChar(b[i]) {
        assert Lowercase(a)[i] == Lowercase(b)[i];
      }
    }
  }
}
