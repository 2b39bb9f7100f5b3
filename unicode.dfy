/**
 * The Unicode machinery the engines call, as a concrete excerpt of the
 * Unicode tables: ASCII, the Latin-1 Supplement letters, Ÿ (U+0178, the
 * upper case of ÿ), the basic Greek letters and the combining marks
 * U+0300..U+036F. Characters outside the excerpt are treated as caseless,
 * uncased, undecomposable non-letters.
 *
 *  - `toLowerCase` / `toUpperCase` (full case mapping, so "ß" upper-cases to
 *    "SS", and the Final_Sigma rule, so a word-final "Σ" lower-cases to "ς");
 *  - `normalize("NFD")` followed by removing `\p{Diacritic}`;
 *  - `normalize("NFC")` (composition of a base letter with the one combining
 *    mark right after it);
 *  - `\p{Letter}`.
 */
module Unicode {
  import opened Wrappers

  function LowerChar(c: char): char
  {
    var v := c as int;
    if 'A' <= c <= 'Z' || (0xC0 <= v <= 0xDE && v != 0xD7) || (0x391 <= v <= 0x3A9 && v != 0x3A2)
    then (v + 0x20) as char
    else if v == 0x178 then '\U{FF}'
    else c
  }

  /**
   * The `Cased` characters of the excerpt: all of its letters. U+0345, which
   * Unicode lists as both cased and case-ignorable, counts as case-ignorable
   * only, as ICU's lower-casing treats it.
   */
  predicate IsCased(c: char)
  {
    IsLetter(c)
  }

  /** The `Case_Ignorable` characters of the excerpt. */
  predicate IsCaseIgnorable(c: char)
  {
    var v := c as int;
    || v == 0x27 || v == 0x2E || v == 0x3A || v == 0x5E || v == 0x60
    || v == 0xA8 || v == 0xAD || v == 0xAF || v == 0xB4 || v == 0xB7 || v == 0xB8
    || (0x2B0 <= v <= 0x36F) || v == 0x374 || v == 0x375 || v == 0x37A
    || v == 0x384 || v == 0x385 || v == 0x387
  }

  /** Before position `i` there is a cased character, then only case-ignorable ones. */
  predicate CasedBefore(s: string, i: int)
    requires 0 <= i <= |s|
  {
    i > 0 && (IsCased(s[i - 1]) || (IsCaseIgnorable(s[i - 1]) && CasedBefore(s, i - 1)))
  }

  /** From position `j` on there are case-ignorable characters, then a cased one. */
  predicate CasedFrom(s: string, j: int)
    requires 0 <= j <= |s|
    decreases |s| - j
  {
    j < |s| && (IsCased(s[j]) || (IsCaseIgnorable(s[j]) && CasedFrom(s, j + 1)))
  }

  /**
   * The Final_Sigma casing context of the Unicode Standard (section 3.13,
   * table 3-17) at position `i`: the end of a word that has a cased letter.
   */
  predicate FinalSigma(s: string, i: int)
    requires 0 <= i < |s|
  {
    CasedBefore(s, i) && !CasedFrom(s, i + 1)
  }

  /** The lower case of `s[i]` in its context. */
  function LowerAt(s: string, i: int): char
    requires 0 <= i < |s|
  {
    if s[i] == '\U{3A3}' && FinalSigma(s, i) then '\U{3C2}' else LowerChar(s[i])
  }

  /**
   * `String.prototype.toLowerCase`: every character is lower-cased on its
   * own, except that a capital sigma ending a word becomes the final form ς.
   */
  function ToLower(s: string): (r: string)
    ensures |r| == |s|
    ensures forall i :: 0 <= i < |s| ==> r[i] == LowerAt(s, i)
    ensures forall i :: 0 <= i < |s| && s[i] != '\U{3A3}' ==> r[i] == LowerChar(s[i])
    ensures forall i :: 0 <= i < |s| ==> r[i] != '\U{3A3}'
  {
    seq(|s|, i requires 0 <= i < |s| => LowerAt(s, i))
  }

  /**
   * The sigma rule on words: a word-final capital sigma lower-cases to ς, one
   * with no cased letter before it, or one inside a word, to σ.
   */
  lemma FinalSigmaExamples()
    ensures ToLower("\U{39F}\U{394}\U{39F}\U{3A3}") == "\U{3BF}\U{3B4}\U{3BF}\U{3C2}"
    ensures ToLower("\U{3A3}") == "\U{3C3}"
    ensures ToLower("\U{3A3}\U{391}") == "\U{3C3}\U{3B1}"
    ensures ToLower("\U{391}\U{3A3} \U{391}") == "\U{3B1}\U{3C2} \U{3B1}"
    ensures ToLower("\U{391}.\U{3A3}.") == "\U{3B1}.\U{3C2}."
  {
    var odos := "\U{39F}\U{394}\U{39F}\U{3A3}";
    assert CasedBefore(odos, 3) && !CasedFrom(odos, 4);
    var sa := "\U{3A3}\U{391}";
    assert CasedFrom(sa, 1);
    var words := "\U{391}\U{3A3} \U{391}";
    assert CasedBefore(words, 1) && !CasedFrom(words, 2);
    var dots := "\U{391}.\U{3A3}.";
    assert CasedBefore(dots, 1) && CasedBefore(dots, 2);
    assert !CasedFrom(dots, 4) && !CasedFrom(dots, 3);
  }

  lemma LowerCharIdempotent(c: char)
    ensures LowerChar(LowerChar(c)) == LowerChar(c)
    ensures LowerChar('\U{3C2}') == '\U{3C2}'
  {
  }

  /** Lower-casing is idempotent: its result holds no capital sigma and no other upper case. */
  lemma ToLowerIdempotent(s: string)
    ensures ToLower(ToLower(s)) == ToLower(s)
  {
    var t := ToLower(s);
    forall i | 0 <= i < |s| ensures ToLower(t)[i] == t[i] {
      LowerCharIdempotent(s[i]);
    }
  }

  /** Upper-casing one character; it can grow ("ß" becomes "SS"). */
  function UpperChar(c: char): seq<char>
  {
    var v := c as int;
    if 'a' <= c <= 'z' || (0xE0 <= v <= 0xFE && v != 0xF7) || (0x3B1 <= v <= 0x3C9 && v != 0x3C2)
    then [(v - 0x20) as char]
    else if v == 0xDF then "SS"
    else if v == 0xFF then ['\U{178}']
    else if v == 0xB5 then ['\U{39C}']
    else if v == 0x3C2 then ['\U{3A3}']
    else [c]
  }

  /** `String.prototype.toUpperCase`. */
  function ToUpper(s: string): string
  {
    if s == [] then [] else UpperChar(s[0]) + ToUpper(s[1..])
  }

  /** The `\p{Diacritic}` code points of the excerpt. */
  predicate IsDiacritic(c: char)
  {
    var v := c as int;
    || v == 0x5E || v == 0x60 || v == 0xA8 || v == 0xAF || v == 0xB4 || v == 0xB7 || v == 0xB8
    || (0x300 <= v <= 0x34E) || (0x350 <= v <= 0x357) || (0x35D <= v <= 0x362)
    || v == 0x374 || v == 0x375 || v == 0x37A || v == 0x384 || v == 0x385
  }

  /**
   * Canonical decomposition of a precomposed Latin-1 letter, or of Ÿ, into a base letter
   * and one combining mark; None for every other character.
   */
  function Decompose(c: char): (r: Option<(char, char)>)
    ensures r.Some? ==> IsDiacritic(r.value.1) && !IsDiacritic(r.value.0) && 'A' <= r.value.0 <= 'z'
  {
    var v := c as int;
    if v == 0xFF then Some(('y', '\U{308}'))
    else if v == 0x178 then Some(('Y', '\U{308}'))
    else if 0xC0 <= v <= 0xFD && v != 0xD7 && v != 0xF7 then
      var lower := v >= 0xE0;
      var u := if lower then v - 0x20 else v;
      var b: Option<(char, int)> :=
        if u <= 0xC5 then Some(('A', [0x300, 0x301, 0x302, 0x303, 0x308, 0x30A][u - 0xC0]))
        else if u == 0xC7 then Some(('C', 0x327))
        else if 0xC8 <= u <= 0xCB then Some(('E', [0x300, 0x301, 0x302, 0x308][u - 0xC8]))
        else if 0xCC <= u <= 0xCF then Some(('I', [0x300, 0x301, 0x302, 0x308][u - 0xCC]))
        else if u == 0xD1 then Some(('N', 0x303))
        else if 0xD2 <= u <= 0xD6 then Some(('O', [0x300, 0x301, 0x302, 0x303, 0x308][u - 0xD2]))
        else if 0xD9 <= u <= 0xDC then Some(('U', [0x300, 0x301, 0x302, 0x308][u - 0xD9]))
        else if u == 0xDD then Some(('Y', 0x301))
        else None;
      match b
      case None => None
      case Some((base, mark)) =>
        Some((if lower then (base as int + 0x20) as char else base, mark as char))
    else None
  }

  /** NFD followed by removing the diacritics, for one character. */
  function FoldChar(c: char): (r: seq<char>)
    ensures |r| <= 1
    ensures forall i :: 0 <= i < |r| ==> !IsDiacritic(r[i]) && Decompose(r[i]).None?
  {
    if IsDiacritic(c) then []
    else match Decompose(c)
      case Some((base, _)) => [base]
      case None => [c]
  }

  /** `s.normalize("NFD").replace(/\p{Diacritic}/gu, "")`. */
  function StripDiacritics(s: string): (r: string)
    ensures |r| <= |s|
  {
    if s == [] then [] else FoldChar(s[0]) + StripDiacritics(s[1..])
  }

  /** The precomposed character whose decomposition is `(base, mark)`, if any. */
  function Compose(base: char, mark: char): (r: Option<char>)
    ensures r.Some? ==> Decompose(r.value) == Some((base, mark))
  {
    if base == 'Y' && mark == '\U{308}' then Some('\U{178}') else ComposeFrom(base, mark, 0xC0)
  }

  function ComposeFrom(base: char, mark: char, v: int): (r: Option<char>)
    requires 0xC0 <= v <= 0x100
    ensures r.Some? ==> Decompose(r.value) == Some((base, mark))
    decreases 0x100 - v
  {
    if v == 0x100 then None
    else if Decompose(v as char) == Some((base, mark)) then Some(v as char)
    else ComposeFrom(base, mark, v + 1)
  }

  /**
   * `s.normalize("NFC")`, for text whose combining marks each follow their
   * base letter directly: a base letter and the mark right after it are
   * composed when the excerpt has the precomposed letter.
   */
  function Nfc(s: string): string
  {
    if |s| >= 2 && Compose(s[0], s[1]).Some? then [Compose(s[0], s[1]).value] + Nfc(s[2..])
    else if s == [] then []
    else [s[0]] + Nfc(s[1..])
  }

  /** The `\p{Letter}` code points of the excerpt. */
  predicate IsLetter(c: char)
  {
    var v := c as int;
    || ('A' <= c <= 'Z') || ('a' <= c <= 'z') || v == 0xAA || v == 0xB5 || v == 0xBA
    || (0xC0 <= v <= 0xD6) || (0xD8 <= v <= 0xF6) || (0xF8 <= v <= 0xFF) || v == 0x178
    || (0x391 <= v <= 0x3A1) || (0x3A3 <= v <= 0x3A9) || (0x3B1 <= v <= 0x3C9)
  }

  /** Stripping never leaves a diacritic behind, so it is idempotent. */
  lemma {:induction false} StripDiacriticsIdempotent(s: string)
    ensures StripDiacritics(StripDiacritics(s)) == StripDiacritics(s)
  {
    if s != [] {
      StripDiacriticsIdempotent(s[1..]);
      StripAppend(FoldChar(s[0]), StripDiacritics(s[1..]));
      var f := FoldChar(s[0]);
      if f != [] {
        assert StripDiacritics(f) == FoldChar(f[0]) + StripDiacritics(f[1..]);
        assert f[1..] == [];
      }
    }
  }

  lemma {:induction false} StripAppend(a: string, b: string)
    ensures StripDiacritics(a + b) == StripDiacritics(a) + StripDiacritics(b)
  {
    if a == [] {
      assert a + b == b;
    } else {
      assert (a + b)[1..] == a[1..] + b;
      StripAppend(a[1..], b);
    }
  }
}
