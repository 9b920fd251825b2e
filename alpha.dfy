/**
 * The ISO-8859-1 (Latin-1) letter classification and case conversion of the
 * program: which bytes are letters, which are upper or lower case, and the
 * fixed distance of 32 between the two cases.
 */
module Alpha {
  import opened Common

  /** A letter: ASCII A-Z and a-z, and the Latin-1 accented letters except the
      multiplication sign 0xD7 and the division sign 0xF7. */
  predicate IsAlpha(c: byte)
  {
    ('A' as int <= c <= 'Z' as int) || ('a' as int <= c <= 'z' as int)
    || (0xC0 <= c <= 0xD6) || (0xD8 <= c <= 0xDE)
    || (0xE0 <= c <= 0xF6) || (0xF8 <= c <= 0xFE)
  }

  /** An upper-case letter: A-Z, 0xC0-0xD6 and 0xD8-0xDE. */
  predicate IsUpperCase(c: byte)
  {
    ('A' as int <= c <= 'Z' as int) || (0xC0 <= c <= 0xD6) || (0xD8 <= c <= 0xDE)
  }

  /** A lower-case letter: a-z, 0xE0-0xF6 and 0xF8-0xFE. */
  predicate IsLowerCase(c: byte)
  {
    ('a' as int <= c <= 'z' as int) || (0xE0 <= c <= 0xF6) || (0xF8 <= c <= 0xFE)
  }

  /** The lower-case partner of an upper-case letter (the source adds 32). */
  function UpperToLowerCase(c: byte): (r: byte)
    requires IsUpperCase(c)
    ensures IsLowerCase(r) && r - c == 32
  {
    c + 32
  }

  /** The upper-case partner of a lower-case letter (the source subtracts 32). */
  function LowerToUpperCase(c: byte): (r: byte)
    requires IsLowerCase(c)
    ensures IsUpperCase(r) && UpperToLowerCase(r) == c
  {
    c - 32
  }

  /** The case folding the dictionary applies to every byte of a word before
      storing or searching it: upper-case letters become lower case, every
      other byte is kept. */
  function FoldCase(c: byte): (r: byte)
  {
    if IsUpperCase(c) then UpperToLowerCase(c) else c
  }

  /** Case folding applied to every byte of a word. */
  function FoldWord(w: seq<byte>): (r: seq<byte>)
    ensures |r| == |w|
    ensures forall k :: 0 <= k < |w| ==> r[k] == FoldCase(w[k])
  {
    if w == [] then [] else [FoldCase(w[0])] + FoldWord(w[1..])
  }

  /** A word with no upper-case letter, as every word stored in the dictionary is. */
  predicate Folded(w: seq<byte>)
  {
    forall k :: 0 <= k < |w| ==> !IsUpperCase(w[k])
  }

  /** Letters are exactly the upper-case and the lower-case letters, and no
      byte is both. */
  lemma LettersSplitByCase(c: byte)
    ensures IsAlpha(c) <==> (IsUpperCase(c) || IsLowerCase(c))
    ensures !(IsUpperCase(c) && IsLowerCase(c))
  {
  }

  /** The two case conversions are inverse bijections between the upper-case
      and the lower-case letters. */
  lemma CaseConversionRoundTrip(c: byte)
    ensures IsUpperCase(c) ==> LowerToUpperCase(UpperToLowerCase(c)) == c
    ensures IsLowerCase(c) ==> UpperToLowerCase(LowerToUpperCase(c)) == c
  {
  }

  /** Among the Latin-1 bytes from 0xC0 on, the multiplication sign, the
      division sign, the sharp s and y with diaeresis are not letters (the
      last two have no partner in the other case). */
  lemma NonLetterLatin1()
    ensures !IsAlpha(0xD7) && !IsAlpha(0xF7) && !IsAlpha(0xDF) && !IsAlpha(0xFF)
  {
  }

  /** Folding never leaves an upper-case letter, keeps letters letters, and
      changes only upper-case letters. */
  lemma FoldCaseProperties(c: byte)
    ensures !IsUpperCase(FoldCase(c))
    ensures IsAlpha(FoldCase(c)) == IsAlpha(c)
    ensures FoldCase(c) != c <==> IsUpperCase(c)
    ensures FoldCase(FoldCase(c)) == FoldCase(c)
  {
  }

  /** A folded word is unchanged by folding, and folding always yields a
      folded word: folding is idempotent. */
  lemma {:induction false} FoldWordIdempotent(w: seq<byte>)
    ensures Folded(FoldWord(w))
    ensures Folded(w) ==> FoldWord(w) == w
    ensures FoldWord(FoldWord(w)) == FoldWord(w)
  {
    var f := FoldWord(w);
    forall k | 0 <= k < |w| ensures !IsUpperCase(f[k]) { FoldCaseProperties(w[k]); }
    if Folded(w) {
      forall k | 0 <= k < |w| ensures f[k] == w[k] { FoldCaseProperties(w[k]); }
    }
    var g := FoldWord(f);
    forall k | 0 <= k < |w| ensures g[k] == f[k] { FoldCaseProperties(w[k]); }
  }
}
