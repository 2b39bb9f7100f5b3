/**
 * The alphabetical index (`GenerateIndex`): books without a saga are listed
 * on their own, books of a saga are gathered into one aggregate per saga,
 * and every item is filed under the initial of its title (or saga name)
 * and sorted within its letter.
 *
 * `localeCompare` is the parameter `collate`, with `collate(x, y)` standing
 * for `x.localeCompare(y) <= 0`. `IGNORAR_ESPACIOS` is the constant `false`,
 * so the sort key never removes white space first.
 */
module LetterIndex {
  import opened Wrappers
  import opened Seqs
  import opened JsString
  import opened Unicode
  import opened Ordering

  datatype Book = Book(
    titulo: string, autor: string, publicacion: string, tipo: string, tema: string,
    idioma: string, original: string, saga: string, otros: string, subido: string,
    formato: string, editado: string, enlace: string)

  /** `normalizar`: decomposed, diacritics removed, lower-cased. */
  function Normalizar(texto: string): string
  {
    ToLower(StripDiacritics(texto))
  }

  /** `texto.match(/\p{Letter}/u)`: the first letter of the text. */
  function FirstLetter(s: string): (r: Option<char>)
    ensures r.None? <==> forall i :: 0 <= i < |s| ==> !IsLetter(s[i])
    ensures r.Some? ==> IsLetter(r.value)
    ensures r.Some? ==> exists i :: (0 <= i < |s| && s[i] == r.value && forall j :: 0 <= j < i ==> !IsLetter(s[j]))
  {
    if s == [] then None
    else if IsLetter(s[0]) then Some(s[0])
    else
      var r := FirstLetter(s[1..]);
      assert r.Some? ==> exists i :: (1 <= i < |s| && s[i] == r.value && forall j :: 0 <= j < i ==> !IsLetter(s[j])) by {
        if r.Some? {
          var k :| 0 <= k < |s[1..]| && s[1..][k] == r.value && forall j :: 0 <= j < k ==> !IsLetter(s[1..][j]);
          forall j | 1 <= j < k + 1 ensures !IsLetter(s[j]) {
            assert s[j] == s[1..][j - 1];
          }
        }
      }
      r
  }

  /** The headings of the index page: A to N, Ñ, O to Z, and `#` for the rest. */
  const Letras: seq<string> := [
    "A", "B", "C", "D", "E", "F", "G", "H", "I", "J",
    "K", "L", "M", "N", "Ñ", "O", "P", "Q", "R", "S",
    "T", "U", "V", "W", "X", "Y", "Z", "#"]

  /** One of the headings. */
  predicate IsHeading(l: string)
  {
    l == "#" || l == "Ñ" || (|l| == 1 && 'A' <= l[0] <= 'Z')
  }

  /**
   * `getLetra(texto)`: the upper-cased first letter; "Ñ" is kept as it is,
   * any other letter loses its diacritics and must then be one of A to Z;
   * everything else, and text without a letter, goes under `#`.
   */
  function GetLetra(texto: string): (r: string)
    ensures IsHeading(r)
  {
    if |texto| == 0 then "#"
    else
      match FirstLetter(texto)
      case None => "#"
      case Some(c) =>
        var letra := ToUpper([c]);
        if letra == "Ñ" then "Ñ"
        else
          var base := StripDiacritics(letra);
          if |base| == 1 && 'A' <= base[0] <= 'Z' then base else "#"
  }

  lemma SingleChar(c: char)
    ensures ToUpper([c]) == UpperChar(c)
    ensures StripDiacritics([c]) == FoldChar(c)
  {
    assert [c][1..] == [];
  }

  /** Every heading `getLetra` gives is one the page lists. */
  lemma HeadingListed(l: string)
    requires IsHeading(l)
    ensures l in Letras
  {
    if l != "#" && l != "Ñ" {
      var c := l[0];
      assert l == [c];
      if c <= 'N' {
        LetterBeforeEnye(c);
      } else {
        LetterAfterEnye(c);
      }
    }
  }

  lemma LetterBeforeEnye(c: char)
    requires 'A' <= c <= 'N'
    ensures Letras[(c as int) - ('A' as int)] == [c]
  {
  }

  lemma LetterAfterEnye(c: char)
    requires 'N' < c <= 'Z'
    ensures Letras[(c as int) - ('A' as int) + 1] == [c]
  {
  }

  /** Text without any letter goes under `#`. */
  lemma NoLetterIsHash(texto: string)
    requires forall i :: 0 <= i < |texto| ==> !IsLetter(texto[i])
    ensures GetLetra(texto) == "#"
  {
  }

  /** A first letter ñ or Ñ gives the heading Ñ, not N. */
  lemma EnyeKept(texto: string)
    requires FirstLetter(texto) == Some('ñ') || FirstLetter(texto) == Some('Ñ')
    ensures GetLetra(texto) == "Ñ"
  {
    assert |texto| > 0;
    SingleChar(FirstLetter(texto).value);
  }

  /** A first letter that is a plain or accented Latin letter gives its upper-case base letter. */
  lemma LatinLetterHeading(texto: string, c: char, base: char, mark: char)
    requires FirstLetter(texto) == Some(c)
    requires c != 'ñ' && c != 'Ñ'
    requires Decompose(c) == Some((base, mark))
    ensures GetLetra(texto) == ToUpper([base])
    ensures GetLetra(texto) != "#" && GetLetra(texto) != "Ñ"
  {
    assert |texto| > 0;
    SingleChar(c);
    var v := c as int;
    var lower := 0xE0 <= v <= 0xFF;
    var u := if v == 0xFF then '\U{178}' else if lower then (v - 0x20) as char else c;
    var ub := if lower then (base as int - 0x20) as char else base;
    assert UpperChar(c) == [u] && UpperChar(base) == [ub] && 'A' <= ub <= 'Z' by {
      UpperOfPrecomposed(c, base, mark);
    }
    assert FoldChar(u) == [ub] by {
      UpperOfPrecomposed(c, base, mark);
    }
    SingleChar(u);
    SingleChar(base);
  }

  /** Upper-casing a precomposed letter upper-cases its base letter and keeps its mark. */
  lemma UpperOfPrecomposed(c: char, base: char, mark: char)
    requires Decompose(c) == Some((base, mark))
    ensures var lower := 0xE0 <= c as int <= 0xFF;
      var u := if c as int == 0xFF then '\U{178}' else if lower then (c as int - 0x20) as char else c;
      var ub := if lower then (base as int - 0x20) as char else base;
      && UpperChar(c) == [u] && UpperChar(base) == [ub] && 'A' <= ub <= 'Z'
      && Decompose(u) == Some((ub, mark)) && !IsDiacritic(u)
  {
    var v := c as int;
    if v == 0xFF || v == 0x178 {
    } else if v >= 0xE0 {
      assert 0xE0 <= v <= 0xFD;
    } else {
      assert 0xC0 <= v <= 0xDD;
    }
  }

  /** A title starting with ÿ goes under Y: its upper case Ÿ decomposes to Y and a diaeresis. */
  lemma YDiaeresisHeading(texto: string)
    requires FirstLetter(texto) == Some('\U{FF}')
    ensures GetLetra(texto) == "Y"
  {
    LatinLetterHeading(texto, '\U{FF}', 'y', '\U{308}');
    SingleChar('y');
  }

  /** A letter of the Greek block gives `#`: it has no Latin base letter. */
  lemma GreekIsHash(texto: string, c: char)
    requires FirstLetter(texto) == Some(c)
    requires 0x391 <= c as int <= 0x3C9
    ensures GetLetra(texto) == "#"
  {
    assert |texto| > 0;
    SingleChar(c);
  }

  /** The characters `/[^a-zñ0-9]/gi` keeps. */
  predicate IsSortChar(c: char)
  {
    ('a' <= c <= 'z') || ('A' <= c <= 'Z') || ('0' <= c <= '9') || c == 'ñ' || c == 'Ñ'
  }

  /** The sort key of `ordenar`: the normalised text with every other character removed. */
  function SortKey(s: string): string
  {
    Filter(Normalizar(s), IsSortChar)
  }

  lemma {:induction false} StripHasNoPrecomposed(s: string, i: nat)
    requires i < |StripDiacritics(s)|
    ensures Decompose(StripDiacritics(s)[i]).None?
  {
    var f := FoldChar(s[0]);
    if i >= |f| {
      StripHasNoPrecomposed(s[1..], i - |f|);
    }
  }

  /**
   * The sort key holds only a to z and 0 to 9: normalising has already split
   * ñ into n and a removed tilde, so the ñ of the character class never
   * matches, and upper case never survives the lower-casing.
   */
  lemma SortKeyChars(s: string)
    ensures forall i :: 0 <= i < |SortKey(s)| ==> ('a' <= SortKey(s)[i] <= 'z') || ('0' <= SortKey(s)[i] <= '9')
  {
    var t := StripDiacritics(s);
    forall i | 0 <= i < |t| ensures t[i] != 'ñ' && t[i] != 'Ñ' {
      StripHasNoPrecomposed(s, i);
    }
    forall i | 0 <= i < |SortKey(s)| ensures ('a' <= SortKey(s)[i] <= 'z') || ('0' <= SortKey(s)[i] <= '9') {
      var c := SortKey(s)[i];
      assert c in Normalizar(s);
      var k :| 0 <= k < |Normalizar(s)| && Normalizar(s)[k] == c;
      assert c == LowerChar(t[k]);
    }
  }

  /** The comparator of `ordenar` as an order: by sort key, under `localeCompare`. */
  function OrdenarLe(collate: (string, string) -> bool): (string, string) -> bool
  {
    (a: string, b: string) => collate(SortKey(a), SortKey(b))
  }

  lemma OrdenarIsTotalPreorder(collate: (string, string) -> bool)
    requires TotalPreorder(collate)
    ensures TotalPreorder(OrdenarLe(collate))
  {
    KeyedIsTotalPreorder(SortKey, collate);
    assert forall a, b :: OrdenarLe(collate)(a, b) == collate(SortKey(a), SortKey(b));
  }

  /** Texts with the same sort key are tied under `ordenar`, whatever their accents, case or punctuation. */
  lemma SameKeyTied(collate: (string, string) -> bool, a: string, b: string)
    requires TotalPreorder(collate)
    requires SortKey(a) == SortKey(b)
    ensures OrdenarLe(collate)(a, b) && OrdenarLe(collate)(b, a)
  {
    assert collate(SortKey(a), SortKey(a)) || collate(SortKey(a), SortKey(a));
  }

  /** The length of the run of decimal digits starting at `j`. */
  function DigitRun(s: string, j: nat): (k: nat)
    ensures j + k <= |s| || (j >= |s| && k == 0)
    ensures forall m :: j <= m < j + k ==> IsDigit(s[m])
    ensures j + k < |s| ==> !IsDigit(s[j + k])
    decreases |s| - j
  {
    if j < |s| && IsDigit(s[j]) then 1 + DigitRun(s, j + 1) else 0
  }

  /** `(#` followed by at least one digit and `)` starts at `i`. */
  predicate MarkerAt(s: string, i: nat)
  {
    i + 2 <= |s| && s[i] == '(' && s[i + 1] == '#' &&
    var k := DigitRun(s, i + 2);
    k >= 1 && i + 2 + k < |s| && s[i + 2 + k] == ')'
  }

  /** The number the first marker at or after `i` holds; 0 when there is none. */
  function OrdinalFrom(s: string, i: nat): nat
    decreases |s| - i
  {
    if i >= |s| then 0
    else if MarkerAt(s, i) then DigitsValue(s[i + 2..i + 2 + DigitRun(s, i + 2)])
    else OrdinalFrom(s, i + 1)
  }

  /** `parseInt(titulo.match(/\(#(\d+)\)/)?.[1] || "0")`. */
  function Ordinal(titulo: string): nat
  {
    OrdinalFrom(titulo, 0)
  }

  /** With no marker anywhere, the ordinal is 0. */
  lemma {:induction false} NoMarkerIsZero(s: string, i: nat)
    requires forall j :: i <= j < |s| ==> !MarkerAt(s, j)
    ensures OrdinalFrom(s, i) == 0
    decreases |s| - i
  {
    if i < |s| {
      NoMarkerIsZero(s, i + 1);
    }
  }

  /** The ordinal is the number in the leftmost marker. */
  lemma {:induction false} FirstMarkerGivesOrdinal(s: string, i: nat, m: nat)
    requires i <= m && MarkerAt(s, m)
    requires forall j :: i <= j < m ==> !MarkerAt(s, j)
    ensures OrdinalFrom(s, i) == DigitsValue(s[m + 2..m + 2 + DigitRun(s, m + 2)])
    decreases m - i
  {
    if i < m {
      FirstMarkerGivesOrdinal(s, i + 1, m);
    }
  }

  /** `ordenarSaga` as an order: by ordinal, which the stable sort keeps ties of in table order. */
  function SagaLe(): (Book, Book) -> bool
  {
    (a: Book, b: Book) => Ordinal(a.titulo) <= Ordinal(b.titulo)
  }

  lemma SagaLeIsTotalPreorder()
    ensures TotalPreorder(SagaLe())
  {
  }

  /** Ordinals compare as numbers: "(#2)" comes before "(#10)", although "(#10)" is first in code-unit order. */
  lemma OrdinalsAreNumeric()
    ensures Ordinal("(#2)") == 2 && Ordinal("(#10)") == 10
    ensures CodeUnitLe("(#10)", "(#2)") && !CodeUnitLe("(#2)", "(#10)")
  {
    var two := "(#2)";
    assert DigitRun(two, 3) == 0;
    assert DigitRun(two, 2) == 1;
    assert MarkerAt(two, 0);
    assert two[2..3] == "2";
    var ten := "(#10)";
    assert DigitRun(ten, 4) == 0;
    assert DigitRun(ten, 3) == 1;
    assert DigitRun(ten, 2) == 2;
    assert MarkerAt(ten, 0);
    assert ten[2..4] == "10";
    assert "10"[..1] == "1";
    assert DigitsValue("1") == 1;
    assert DigitsValue("10") == 10;
    CodeUnitsExample();
  }

  lemma CodeUnitsExample()
    ensures CodeUnitLe("(#10)", "(#2)") && !CodeUnitLe("(#2)", "(#10)")
  {
    var ten, two := CodeUnits("(#10)"), CodeUnits("(#2)");
    assert ten == ['(' as int, '#' as int, '1' as int, '0' as int, ')' as int] by {
      AsciiCodeUnits("(#10)");
    }
    assert two == ['(' as int, '#' as int, '2' as int, ')' as int] by {
      AsciiCodeUnits("(#2)");
    }
    LexLeFirstDifference(ten, two, 2);
  }

  /** Characters below U+10000 are one code unit each. */
  lemma {:induction false} AsciiCodeUnits(s: string)
    requires forall i :: 0 <= i < |s| ==> (s[i] as int) < 0x10000
    ensures |CodeUnits(s)| == |s|
    ensures forall i :: 0 <= i < |s| ==> CodeUnits(s)[i] == s[i] as int
  {
    if s != [] {
      AsciiCodeUnits(s[1..]);
    }
  }

  /** An entry of the index: a book on its own, or a saga aggregate. */
  datatype Item = Single(book: Book) | SagaGroup(saga: string, autores: seq<string>, libros: seq<Book>)

  /** The text an entry is filed and sorted by: the title of a book, the name of a saga. */
  function Texto(it: Item): string
  {
    if it.Single? then it.book.titulo else it.saga
  }

  function NoSaga(b: Book): bool
  {
    |b.saga| == 0
  }

  function InSaga(n: string): Book -> bool
  {
    (b: Book) => b.saga == n
  }

  function AutorOf(b: Book): string
  {
    b.autor
  }

  /** The saga names of the books that have one, in table order, with repeats. */
  function SagasOf(books: seq<Book>): seq<string>
  {
    if books == [] then []
    else
      var rest := SagasOf(books[..|books| - 1]);
      var b := books[|books| - 1];
      if |b.saga| > 0 then rest + [b.saga] else rest
  }

  lemma SagasOfSnoc(books: seq<Book>, b: Book)
    ensures SagasOf(books + [b]) == if |b.saga| > 0 then SagasOf(books) + [b.saga] else SagasOf(books)
  {
    assert (books + [b])[..|books|] == books;
  }

  lemma {:induction false} SagasOfMembers(books: seq<Book>, n: string)
    ensures n in SagasOf(books) <==> |n| > 0 && exists i :: 0 <= i < |books| && books[i].saga == n
  {
    if books != [] {
      var init, b := books[..|books| - 1], books[|books| - 1];
      SagasOfMembers(init, n);
      assert SagasOf(books) == if |b.saga| > 0 then SagasOf(init) + [b.saga] else SagasOf(init);
      SagaOfLast(books, init, n);
    }
  }

  lemma SagaOfLast(books: seq<Book>, init: seq<Book>, n: string)
    requires books != [] && init == books[..|books| - 1]
    ensures (exists i :: 0 <= i < |books| && books[i].saga == n) <==>
      (exists i :: 0 <= i < |init| && init[i].saga == n) || books[|books| - 1].saga == n
  {
    if exists i :: 0 <= i < |books| && books[i].saga == n {
      var i :| 0 <= i < |books| && books[i].saga == n;
      if i < |init| {
        assert init[i].saga == n;
      }
    }
    if exists i :: 0 <= i < |init| && init[i].saga == n {
      var i :| 0 <= i < |init| && init[i].saga == n;
      assert books[i].saga == n;
    }
  }

  /** The sagas, each once, in the order their first book appears. */
  function SagaNames(books: seq<Book>): seq<string>
  {
    Dedup(SagasOf(books))
  }

  /** The books of saga `n`, in table order. */
  function Members(books: seq<Book>, n: string): seq<Book>
  {
    Filter(books, InSaga(n))
  }

  /** `sagas[n]` after the partition loop: the name, the distinct whole `Autor` strings, the books. */
  function GroupOf(books: seq<Book>, n: string): Item
  {
    SagaGroup(n, Dedup(Map(Members(books, n), AutorOf)), Members(books, n))
  }

  /** The state of the partition loop. */
  ghost predicate Partitioned(books: seq<Book>, sagas: map<string, Item>, order: seq<string>, sueltos: seq<Book>)
  {
    && sueltos == Filter(books, NoSaga)
    && order == SagaNames(books)
    && (forall n :: n in sagas <==> n in order)
    && (forall n :: n in sagas ==> sagas[n] == GroupOf(books, n))
  }

  lemma MembersSnoc(books: seq<Book>, b: Book, n: string)
    ensures Members(books + [b], n) == Members(books, n) + if b.saga == n then [b] else []
  {
    FilterSnoc(books, b, InSaga(n));
  }

  /** `autores.add(book.Autor)` on the `Set` of the saga's authors. */
  function AddAutor(autores: seq<string>, autor: string): seq<string>
  {
    if autor in autores then autores else autores + [autor]
  }

  lemma AutoresSnoc(books: seq<Book>, b: Book)
    ensures Dedup(Map(Members(books + [b], b.saga), AutorOf)) == AddAutor(Dedup(Map(Members(books, b.saga), AutorOf)), b.autor)
  {
    var ms := Members(books, b.saga);
    MembersSnoc(books, b, b.saga);
    MapSnoc(ms, b, AutorOf);
    DedupSnoc(Map(ms, AutorOf), b.autor);
    DedupMembers(Map(ms, AutorOf), b.autor);
  }

  lemma OtherGroupUnchanged(books: seq<Book>, b: Book, m: string)
    requires b.saga != m
    ensures GroupOf(books + [b], m) == GroupOf(books, m)
  {
    MembersSnoc(books, b, m);
    var ms := Members(books + [b], m);
    assert ms == Members(books, m);
  }

  /** A saga the loop has not met yet has no books so far. */
  lemma UnseenSagaEmpty(books: seq<Book>, n: string)
    requires |n| > 0 && n !in SagaNames(books)
    ensures GroupOf(books, n) == SagaGroup(n, [], [])
  {
    DedupMembers(SagasOf(books), n);
    SagasOfMembers(books, n);
    FilterNone(books, InSaga(n));
  }

  lemma OrderStep(books: seq<Book>, b: Book, order: seq<string>, seen: bool)
    requires order == SagaNames(books) && |b.saga| > 0
    requires seen <==> b.saga in order
    ensures SagaNames(books + [b]) == if seen then order else order + [b.saga]
  {
    SagasOfSnoc(books, b);
    DedupSnoc(SagasOf(books), b.saga);
    DedupMembers(SagasOf(books), b.saga);
  }

  lemma GroupOfStep(books: seq<Book>, b: Book, g: Item, autores: seq<string>)
    requires g == GroupOf(books, b.saga)
    requires autores == AddAutor(g.autores, b.autor)
    ensures GroupOf(books + [b], b.saga) == SagaGroup(b.saga, autores, g.libros + [b])
  {
    MembersSnoc(books, b, b.saga);
    AutoresSnoc(books, b);
  }

  lemma PartitionStep(books: seq<Book>, b: Book, sagas: map<string, Item>, order: seq<string>, sueltos: seq<Book>,
                      g: Item, autores: seq<string>)
    requires Partitioned(books, sagas, order, sueltos)
    requires |b.saga| > 0
    requires g == if b.saga in sagas then sagas[b.saga] else SagaGroup(b.saga, [], [])
    requires autores == AddAutor(g.autores, b.autor)
    ensures Partitioned(books + [b], sagas[b.saga := SagaGroup(b.saga, autores, g.libros + [b])],
                        if b.saga in sagas then order else order + [b.saga], sueltos)
  {
    var n := b.saga;
    var sagas' := sagas[n := SagaGroup(n, autores, g.libros + [b])];
    var order' := if n in sagas then order else order + [n];
    FilterSnoc(books, b, NoSaga);
    OrderStep(books, b, order, n in sagas);
    if n !in sagas {
      UnseenSagaEmpty(books, n);
    }
    GroupOfStep(books, b, g, autores);
    GroupsStep(books, b, sagas, SagaGroup(n, autores, g.libros + [b]));
    KeysStep(sagas, order, n, SagaGroup(n, autores, g.libros + [b]), order');
    assert sueltos == Filter(books + [b], NoSaga);
    assert forall m :: m in sagas' <==> m in order';
    assert forall m :: m in sagas' ==> sagas'[m] == GroupOf(books + [b], m);
    assert Partitioned(books + [b], sagas', order', sueltos);
  }

  lemma KeysStep(sagas: map<string, Item>, order: seq<string>, n: string, group: Item, order': seq<string>)
    requires forall m :: m in sagas <==> m in order
    requires order' == if n in sagas then order else order + [n]
    ensures forall m :: m in sagas[n := group] <==> m in order'
  {
  }

  lemma GroupsStep(books: seq<Book>, b: Book, sagas: map<string, Item>, group: Item)
    requires forall n :: n in sagas ==> sagas[n] == GroupOf(books, n)
    requires GroupOf(books + [b], b.saga) == group
    ensures forall m :: m in sagas[b.saga := group] ==> sagas[b.saga := group][m] == GroupOf(books + [b], m)
  {
    forall m | m in sagas[b.saga := group] ensures sagas[b.saga := group][m] == GroupOf(books + [b], m) {
      if m != b.saga {
        OtherGroupUnchanged(books, b, m);
      }
    }
  }

  lemma PartitionStepLoose(books: seq<Book>, b: Book, sagas: map<string, Item>, order: seq<string>, sueltos: seq<Book>)
    requires Partitioned(books, sagas, order, sueltos)
    requires |b.saga| == 0
    ensures Partitioned(books + [b], sagas, order, sueltos + [b])
  {
    FilterSnoc(books, b, NoSaga);
    SagasOfSnoc(books, b);
    forall m | m in sagas ensures sagas[m] == GroupOf(books + [b], m) {
      SagasOfMembers(books, m);
      OtherGroupUnchanged(books, b, m);
    }
  }

  /** The first loop of `agrupado`: books with a saga into their aggregate, the rest into `librosSueltos`. */
  method PartitionBooks(books: seq<Book>) returns (sagas: map<string, Item>, order: seq<string>, sueltos: seq<Book>)
    ensures Partitioned(books, sagas, order, sueltos)
  {
    sagas := map[];
    order := [];
    sueltos := [];
    for i := 0 to |books|
      invariant Partitioned(books[..i], sagas, order, sueltos)
    {
      var book := books[i];
      assert books[..i + 1] == books[..i] + [book];
      if |book.saga| > 0 {
        var n := book.saga;
        var g := if n in sagas then sagas[n] else SagaGroup(n, [], []);
        var autores := AddAutor(g.autores, book.autor);
        PartitionStep(books[..i], book, sagas, order, sueltos, g, autores);
        if n !in sagas {
          order := order + [n];
        }
        sagas := sagas[n := SagaGroup(n, autores, g.libros + [book])];
      } else {
        PartitionStepLoose(books[..i], book, sagas, order, sueltos);
        sueltos := sueltos + [book];
      }
    }
    assert books[..|books|] == books;
  }

  // ---------------------------------------------------------------------
  // Sorting the sagas and the loose books, and putting them together.
  // ---------------------------------------------------------------------

  /** A saga aggregate after `sagas[key].libros.sort(ordenarSaga)`. */
  function SortedGroup(books: seq<Book>, n: string): Item
  {
    SagaGroup(n, Dedup(Map(Members(books, n), AutorOf)), SortBy(Members(books, n), SagaLe()))
  }

  function SortedGroupOf(books: seq<Book>): string -> Item
  {
    (n: string) => SortedGroup(books, n)
  }

  /** The state of the sorting loop: the first `i` sagas of `order` are sorted, the others are as partitioned. */
  ghost predicate SortedUpTo(books: seq<Book>, sorted: map<string, Item>, order: seq<string>, i: nat)
  {
    forall j :: 0 <= j < |order| ==>
      order[j] in sorted && sorted[order[j]] == if j < i then SortedGroup(books, order[j]) else GroupOf(books, order[j])
  }

  /** One step of the sorting loop: the next saga's books replaced by their sorted copy. */
  lemma SortSagaStep(books: seq<Book>, sorted: map<string, Item>, order: seq<string>, i: nat, libros: seq<Book>)
    requires i < |order| && NoDuplicates(order)
    requires SortedUpTo(books, sorted, order, i)
    requires libros == SortBy(sorted[order[i]].libros, SagaLe())
    ensures SortedUpTo(books, sorted[order[i] := SagaGroup(order[i], sorted[order[i]].autores, libros)], order, i + 1)
  {
    var n := order[i];
    var s' := sorted[n := SagaGroup(n, sorted[n].autores, libros)];
    forall j | 0 <= j < |order|
      ensures order[j] in s' && s'[order[j]] == if j < i + 1 then SortedGroup(books, order[j]) else GroupOf(books, order[j])
    {
      if j == i {
        SortedOfGroup(books, n, sorted[n], libros);
      } else {
        DistinctAt(order, i, j);
      }
    }
  }

  lemma SortedOfGroup(books: seq<Book>, n: string, g: Item, libros: seq<Book>)
    requires g == GroupOf(books, n) && libros == SortBy(g.libros, SagaLe())
    ensures SagaGroup(n, g.autores, libros) == SortedGroup(books, n)
  {
  }

  /** `libros.sort(ordenarSaga)`, on a copy. */
  method OrdenarSaga(libros: seq<Book>) returns (r: seq<Book>)
    ensures r == SortBy(libros, SagaLe())
  {
    SagaLeIsTotalPreorder();
    r := SortCopy(libros, SagaLe());
  }

  /** The second loop of `agrupado`: each saga's books sorted by their ordinal. */
  method SortSagaBooks(ghost books: seq<Book>, sagas: map<string, Item>, order: seq<string>)
      returns (sorted: map<string, Item>)
    requires forall n :: n in sagas <==> n in order
    requires forall n :: n in sagas ==> sagas[n] == GroupOf(books, n)
    requires NoDuplicates(order)
    ensures forall n :: n in sorted <==> n in order
    ensures forall n :: n in sorted ==> sorted[n] == SortedGroup(books, n)
  {
    sorted := sagas;
    for i := 0 to |order|
      invariant forall n :: n in sorted <==> n in order
      invariant SortedUpTo(books, sorted, order, i)
    {
      var n := order[i];
      var g := sorted[n];
      var libros := OrdenarSaga(g.libros);
      SortSagaStep(books, sorted, order, i, libros);
      sorted := sorted[n := SagaGroup(n, g.autores, libros)];
    }
    forall n | n in sorted ensures sorted[n] == SortedGroup(books, n) {
      var j :| 0 <= j < |order| && order[j] == n;
    }
  }

  /** `ordenar` on the titles of two books. */
  function TituloLe(collate: (string, string) -> bool): (Book, Book) -> bool
  {
    (a: Book, b: Book) => collate(SortKey(a.titulo), SortKey(b.titulo))
  }

  /** `ordenar` on the texts of two entries. */
  function ItemLe(collate: (string, string) -> bool): (Item, Item) -> bool
  {
    (a: Item, b: Item) => collate(SortKey(Texto(a)), SortKey(Texto(b)))
  }

  lemma TituloLeIsTotalPreorder(collate: (string, string) -> bool)
    requires TotalPreorder(collate)
    ensures TotalPreorder(TituloLe(collate))
  {
    KeyedIsTotalPreorder((b: Book) => SortKey(b.titulo), collate);
    assert forall a, b :: TituloLe(collate)(a, b) == collate(SortKey(a.titulo), SortKey(b.titulo));
  }

  lemma ItemLeIsTotalPreorder(collate: (string, string) -> bool)
    requires TotalPreorder(collate)
    ensures TotalPreorder(ItemLe(collate))
  {
    KeyedIsTotalPreorder((it: Item) => SortKey(Texto(it)), collate);
    assert forall a, b :: ItemLe(collate)(a, b) == collate(SortKey(Texto(a)), SortKey(Texto(b)));
  }

  /** `Object.values(sagas)`, in the order the keys were inserted. */
  function ValuesIn(m: map<string, Item>, keys: seq<string>): (r: seq<Item>)
    requires forall k :: k in keys ==> k in m
    ensures |r| == |keys|
    ensures forall i :: 0 <= i < |keys| ==> r[i] == m[keys[i]]
  {
    if keys == [] then [] else [m[keys[0]]] + ValuesIn(m, keys[1..])
  }

  /**
   * `todoJunto`: the loose books sorted by title, each as its own entry,
   * followed by the saga aggregates in the order their first book appears.
   */
  function TodoJunto(books: seq<Book>, collate: (string, string) -> bool): seq<Item>
  {
    Map(SortBy(Filter(books, NoSaga), TituloLe(collate)), (b: Book) => Single(b)) +
    Map(SagaNames(books), SortedGroupOf(books))
  }

  /** The heading an entry is filed under. */
  function LetterOf(it: Item): string
  {
    GetLetra(Texto(it))
  }

  function InLetter(l: string): Item -> bool
  {
    (it: Item) => LetterOf(it) == l
  }

  lemma BucketStep(todo: seq<Item>, it: Item, buckets: map<string, seq<Item>>)
    requires forall l :: l in buckets <==> l in Map(todo, LetterOf)
    requires forall l :: l in buckets ==> buckets[l] == Filter(todo, InLetter(l))
    ensures var l := LetterOf(it);
      var b' := buckets[l := (if l in buckets then buckets[l] else []) + [it]];
      && (forall k :: k in b' <==> k in Map(todo + [it], LetterOf))
      && (forall k :: k in b' ==> b'[k] == Filter(todo + [it], InLetter(k)))
  {
    var l := LetterOf(it);
    var b' := buckets[l := (if l in buckets then buckets[l] else []) + [it]];
    assert forall k :: k in b' <==> k in Map(todo + [it], LetterOf) by {
      MapSnoc(todo, it, LetterOf);
    }
    forall k | k in b' ensures b'[k] == Filter(todo + [it], InLetter(k)) {
      FilterSnoc(todo, it, InLetter(k));
      if k == l && l !in buckets {
        NoneInLetter(todo, l);
      }
    }
  }

  /** No entry is filed under a heading none of the entries has. */
  lemma NoneInLetter(todo: seq<Item>, l: string)
    requires l !in Map(todo, LetterOf)
    ensures Filter(todo, InLetter(l)) == []
  {
    forall i | 0 <= i < |todo| ensures !InLetter(l)(todo[i]) {
      assert Map(todo, LetterOf)[i] == LetterOf(todo[i]);
    }
    FilterNone(todo, InLetter(l));
  }

  /** The third loop of `agrupado`: every entry appended to the list of its heading. */
  method GroupByLetter(todo: seq<Item>) returns (buckets: map<string, seq<Item>>)
    ensures forall l :: l in buckets <==> l in Map(todo, LetterOf)
    ensures forall l :: l in buckets ==> buckets[l] == Filter(todo, InLetter(l))
  {
    buckets := map[];
    for i := 0 to |todo|
      invariant forall l :: l in buckets <==> l in Map(todo[..i], LetterOf)
      invariant forall l :: l in buckets ==> buckets[l] == Filter(todo[..i], InLetter(l))
    {
      var item := todo[i];
      var letra := GetLetra(Texto(item));
      BucketStep(todo[..i], item, buckets);
      assert todo[..i + 1] == todo[..i] + [item];
      if letra !in buckets {
        buckets := buckets[letra := []];
      }
      buckets := buckets[letra := buckets[letra] + [item]];
    }
    assert todo[..|todo|] == todo;
  }

  /** The last loop of `agrupado`: each heading's entries sorted with `ordenar`. */
  method SortBuckets(buckets: map<string, seq<Item>>, collate: (string, string) -> bool)
      returns (sorted: map<string, seq<Item>>)
    requires TotalPreorder(collate)
    ensures sorted.Keys == buckets.Keys
    ensures forall l :: l in sorted ==> sorted[l] == SortBy(buckets[l], ItemLe(collate))
  {
    ItemLeIsTotalPreorder(collate);
    sorted := buckets;
    var pending := buckets.Keys;
    while pending != {}
      invariant pending <= buckets.Keys
      invariant sorted.Keys == buckets.Keys
      invariant forall l :: l in sorted ==>
        sorted[l] == if l in pending then buckets[l] else SortBy(buckets[l], ItemLe(collate))
      decreases |pending|
    {
      var l :| l in pending;
      var entries := SortCopy(sorted[l], ItemLe(collate));
      sorted := sorted[l := entries];
      pending := pending - {l};
    }
  }

  /**
   * `agrupado`: the index page's entries by heading. Its headings are
   * exactly those of the entries, and each heading holds the entries filed
   * under it, sorted with `ordenar` (a stable sort, so entries whose keys tie
   * keep their order in `todoJunto`).
   */
  method Agrupado(books: seq<Book>, collate: (string, string) -> bool) returns (index: map<string, seq<Item>>)
    requires TotalPreorder(collate)
    ensures forall l :: l in index ==> IsHeading(l) && l in Letras
    ensures forall l :: l in index <==> l in Map(TodoJunto(books, collate), LetterOf)
    ensures forall l :: l in index ==> index[l] == SortBy(Filter(TodoJunto(books, collate), InLetter(l)), ItemLe(collate))
    ensures forall l :: l in index ==> Sorted(ItemLe(collate), index[l])
  {
    var sagas, order, sueltos := PartitionBooks(books);
    var librosSueltos := OrdenarSueltos(sueltos, collate);
    var sorted := SortSagaBooks(books, sagas, order);
    var todoJunto := Map(librosSueltos, (b: Book) => Single(b)) + ValuesIn(sorted, order);
    assert ValuesIn(sorted, order) == Map(SagaNames(books), SortedGroupOf(books));
    var buckets := GroupByLetter(todoJunto);
    index := SortBuckets(buckets, collate);
    SortedBuckets(todoJunto, buckets, index, collate);
  }

  /** `librosSueltos.sort(...)` by `ordenar` on the titles, on a copy. */
  method OrdenarSueltos(sueltos: seq<Book>, collate: (string, string) -> bool) returns (r: seq<Book>)
    requires TotalPreorder(collate)
    ensures r == SortBy(sueltos, TituloLe(collate))
  {
    TituloLeIsTotalPreorder(collate);
    r := SortCopy(sueltos, TituloLe(collate));
  }

  /** Every heading of the sorted buckets is listed, and its entries are in `ordenar` order. */
  lemma SortedBuckets(todo: seq<Item>, buckets: map<string, seq<Item>>, index: map<string, seq<Item>>,
                      collate: (string, string) -> bool)
    requires TotalPreorder(collate)
    requires forall l :: l in buckets <==> l in Map(todo, LetterOf)
    requires index.Keys == buckets.Keys
    requires forall l :: l in index ==> index[l] == SortBy(buckets[l], ItemLe(collate))
    ensures forall l :: l in index ==> IsHeading(l) && l in Letras && Sorted(ItemLe(collate), index[l])
  {
    ItemLeIsTotalPreorder(collate);
    forall l | l in index ensures IsHeading(l) && l in Letras && Sorted(ItemLe(collate), index[l]) {
      var k :| 0 <= k < |todo| && Map(todo, LetterOf)[k] == l;
      HeadingListed(l);
      SortBySorted(buckets[l], ItemLe(collate));
    }
  }

  // ---------------------------------------------------------------------
  // What the index promises about the books.
  // ---------------------------------------------------------------------

  /** The books an entry stands for. */
  function BooksOfItem(it: Item): seq<Book>
  {
    if it.Single? then [it.book] else it.libros
  }

  function BooksOf(items: seq<Item>): seq<Book>
  {
    if items == [] then [] else BooksOfItem(items[0]) + BooksOf(items[1..])
  }

  lemma {:induction false} BooksOfAppend(a: seq<Item>, b: seq<Item>)
    ensures BooksOf(a + b) == BooksOf(a) + BooksOf(b)
  {
    if a == [] {
      assert a + b == b;
    } else {
      assert (a + b)[1..] == a[1..] + b;
      BooksOfAppend(a[1..], b);
    }
  }

  lemma {:induction false} BooksOfSingles(xs: seq<Book>)
    ensures BooksOf(Map(xs, (b: Book) => Single(b))) == xs
  {
    if xs != [] {
      BooksOfSingles(xs[1..]);
      assert Map(xs, (b: Book) => Single(b))[1..] == Map(xs[1..], (b: Book) => Single(b));
    }
  }

  /** The books of the given sagas, saga after saga, in table order within each. */
  function MembersOf(books: seq<Book>, names: seq<string>): seq<Book>
  {
    if names == [] then [] else Members(books, names[0]) + MembersOf(books, names[1..])
  }

  lemma {:induction false} BooksOfGroups(books: seq<Book>, names: seq<string>)
    ensures multiset(BooksOf(Map(names, SortedGroupOf(books)))) == multiset(MembersOf(books, names))
  {
    if names != [] {
      BooksOfGroups(books, names[1..]);
      assert Map(names, SortedGroupOf(books))[1..] == Map(names[1..], SortedGroupOf(books));
    }
  }

  lemma {:induction false} MembersOfAppend(books: seq<Book>, a: seq<string>, b: seq<string>)
    ensures MembersOf(books, a + b) == MembersOf(books, a) + MembersOf(books, b)
  {
    if a == [] {
      assert a + b == b;
    } else {
      assert (a + b)[1..] == a[1..] + b;
      MembersOfAppend(books, a[1..], b);
    }
  }

  lemma NoDuplicatesTail<T>(s: seq<T>)
    requires NoDuplicates(s) && s != []
    ensures NoDuplicates(s[1..]) && s[0] !in s[1..]
  {
    forall i, j | 0 <= i < j < |s| - 1 ensures s[1..][i] != s[1..][j] {
      assert s[i + 1] != s[j + 1];
    }
    forall k | 0 <= k < |s| - 1 ensures s[1..][k] != s[0] {
      assert s[0] != s[k + 1];
    }
  }

  lemma {:induction false} MembersOfSnoc(books: seq<Book>, b: Book, names: seq<string>)
    requires NoDuplicates(names)
    ensures multiset(MembersOf(books + [b], names)) ==
      multiset(MembersOf(books, names)) + if b.saga in names then multiset{b} else multiset{}
  {
    if names != [] {
      var n0, rest := names[0], names[1..];
      NoDuplicatesTail(names);
      MembersOfSnoc(books, b, rest);
      MembersSnoc(books, b, n0);
      var a, c := Members(books, n0), MembersOf(books, rest);
      var head: seq<Book> := if b.saga == n0 then [b] else [];
      var tail := MembersOf(books + [b], rest);
      assert MembersOf(books + [b], names) == (a + head) + tail;
      assert MembersOf(books, names) == a + c;
      MultisetConsStep(MembersOf(books + [b], names), MembersOf(books, names), a, head, tail, c,
        if b.saga in rest then multiset{b} else multiset{});
      InCons(names, b.saga);
      assert multiset(head) + (if b.saga in rest then multiset{b} else multiset{}) ==
        if b.saga in names then multiset{b} else multiset{};
    }
  }

  lemma LooseBookStep(init: seq<Book>, b: Book)
    requires |b.saga| == 0
    ensures SagaNames(init + [b]) == SagaNames(init)
    ensures b.saga !in SagaNames(init)
  {
    SagasOfSnoc(init, b);
    SagasOfMembers(init, b.saga);
    DedupMembers(SagasOf(init), b.saga);
  }

  lemma SeenSagaStep(init: seq<Book>, b: Book)
    requires |b.saga| > 0 && b.saga in SagaNames(init)
    ensures multiset(MembersOf(init + [b], SagaNames(init + [b]))) == multiset(MembersOf(init, SagaNames(init))) + multiset{b}
  {
    var names := SagaNames(init);
    OrderStep(init, b, names, true);
    MembersOfSnoc(init, b, names);
  }

  lemma AppendNewSaga(books: seq<Book>, b: Book, names: seq<string>)
    requires NoDuplicates(names) && b.saga !in names && Members(books, b.saga) == []
    ensures multiset(MembersOf(books + [b], names + [b.saga])) == multiset(MembersOf(books, names)) + multiset{b}
  {
    var n := b.saga;
    var x, f, g := MembersOf(books + [b], names + [n]), MembersOf(books + [b], names), MembersOf(books, names);
    assert multiset(f) == multiset(g) by {
      MembersOfSnoc(books, b, names);
    }
    assert x == f + [b] by {
      MembersOfAppend(books + [b], names, [n]);
      MembersOfOne(books + [b], n);
      MembersSnoc(books, b, n);
    }
    MultisetOfSnoc(x, f, g, b);
  }

  lemma MembersOfOne(books: seq<Book>, n: string)
    ensures MembersOf(books, [n]) == Members(books, n)
  {
    assert [n][1..] == [];
  }

  lemma UnseenSagaStep(init: seq<Book>, b: Book)
    requires |b.saga| > 0 && b.saga !in SagaNames(init)
    ensures multiset(MembersOf(init + [b], SagaNames(init + [b]))) == multiset(MembersOf(init, SagaNames(init))) + multiset{b}
  {
    OrderStep(init, b, SagaNames(init), false);
    UnseenSagaEmpty(init, b.saga);
    AppendNewSaga(init, b, SagaNames(init));
  }

  lemma SagaBookStep(init: seq<Book>, b: Book)
    requires |b.saga| > 0
    ensures multiset(MembersOf(init + [b], SagaNames(init + [b]))) == multiset(MembersOf(init, SagaNames(init))) + multiset{b}
  {
    if b.saga in SagaNames(init) {
      SeenSagaStep(init, b);
    } else {
      UnseenSagaStep(init, b);
    }
  }

  /** The loose books and the books of the sagas are the table's books, each exactly once. */
  lemma {:induction false} EveryBookOnce(books: seq<Book>)
    ensures multiset(Filter(books, NoSaga)) + multiset(MembersOf(books, SagaNames(books))) == multiset(books)
  {
    if books != [] {
      var init := books[..|books| - 1];
      var b := books[|books| - 1];
      assert books == init + [b];
      EveryBookOnce(init);
      BookStep(init, b);
    }
  }

  /** One more book adds itself once: to the loose books or to its saga. */
  lemma BookStep(init: seq<Book>, b: Book)
    ensures multiset(Filter(init + [b], NoSaga)) + multiset(MembersOf(init + [b], SagaNames(init + [b]))) ==
      multiset(Filter(init, NoSaga)) + multiset(MembersOf(init, SagaNames(init))) + multiset{b}
  {
    FilterSnoc(init, b, NoSaga);
    if |b.saga| == 0 {
      LooseBookStep(init, b);
      MembersOfSnoc(init, b, SagaNames(init));
    } else {
      SagaBookStep(init, b);
    }
    MultisetStep(Filter(init + [b], NoSaga), Filter(init, NoSaga),
      multiset(MembersOf(init + [b], SagaNames(init + [b]))), multiset(MembersOf(init, SagaNames(init))), b);
  }

  /** Every book of the table appears in `todoJunto` exactly as often as in the table. */
  lemma IndexListsEveryBookOnce(books: seq<Book>, collate: (string, string) -> bool)
    ensures multiset(BooksOf(TodoJunto(books, collate))) == multiset(books)
  {
    var loose := SortBy(Filter(books, NoSaga), TituloLe(collate));
    BooksOfAppend(Map(loose, (b: Book) => Single(b)), Map(SagaNames(books), SortedGroupOf(books)));
    BooksOfSingles(loose);
    BooksOfGroups(books, SagaNames(books));
    EveryBookOnce(books);
  }

  /** Every entry of `todoJunto` is in the list of its own heading. */
  lemma EntryUnderItsHeading(todo: seq<Item>, it: Item, le: (Item, Item) -> bool)
    requires it in todo
    ensures it in SortBy(Filter(todo, InLetter(LetterOf(it))), le)
  {
    var f := Filter(todo, InLetter(LetterOf(it)));
    var k :| 0 <= k < |todo| && todo[k] == it;
    assert it in f;
    assert it in multiset(f);
  }

  /** A book without a saga is an entry of its own, filed under the initial of its title. */
  lemma LooseBookListed(books: seq<Book>, collate: (string, string) -> bool, b: Book)
    requires b in books && |b.saga| == 0
    ensures Single(b) in TodoJunto(books, collate)
    ensures Single(b) in SortBy(Filter(TodoJunto(books, collate), InLetter(GetLetra(b.titulo))), ItemLe(collate))
  {
    LooseInTodo(books, collate, b);
    EntryUnderItsHeading(TodoJunto(books, collate), Single(b), ItemLe(collate));
  }

  lemma LooseInTodo(books: seq<Book>, collate: (string, string) -> bool, b: Book)
    requires b in books && |b.saga| == 0
    ensures Single(b) in TodoJunto(books, collate)
  {
    var loose := SortBy(Filter(books, NoSaga), TituloLe(collate));
    var singles := Map(loose, (x: Book) => Single(x));
    assert b in Filter(books, NoSaga) by {
      var k :| 0 <= k < |books| && books[k] == b;
      assert NoSaga(books[k]);
    }
    assert b in multiset(loose);
    var j :| 0 <= j < |loose| && loose[j] == b;
    assert singles[j] == Single(b);
    assert TodoJunto(books, collate)[j] == singles[j];
  }

  lemma GroupListed(books: seq<Book>, collate: (string, string) -> bool, n: string)
    requires n in SagaNames(books)
    ensures SortedGroup(books, n) in TodoJunto(books, collate)
  {
    var singles := Map(SortBy(Filter(books, NoSaga), TituloLe(collate)), (x: Book) => Single(x));
    var groups := Map(SagaNames(books), SortedGroupOf(books));
    var j :| 0 <= j < |SagaNames(books)| && SagaNames(books)[j] == n;
    assert groups[j] == SortedGroup(books, n);
    assert TodoJunto(books, collate) == singles + groups;
    InRightPart(singles, groups, j);
  }

  /** The only entries of their own are the books without a saga. */
  lemma SinglesAreLoose(books: seq<Book>, collate: (string, string) -> bool, b: Book)
    requires Single(b) in TodoJunto(books, collate)
    ensures b in books && |b.saga| == 0
  {
    var todo := TodoJunto(books, collate);
    var loose := SortBy(Filter(books, NoSaga), TituloLe(collate));
    var singles := Map(loose, (x: Book) => Single(x));
    var groups := Map(SagaNames(books), SortedGroupOf(books));
    var m :| 0 <= m < |todo| && todo[m] == Single(b);
    assert todo == singles + groups;
    if m < |singles| {
      assert todo[m] == singles[m];
      assert loose[m] == b;
      PermutationMember(loose, Filter(books, NoSaga), m);
    }
  }

  lemma AutoresOfGroup(books: seq<Book>, n: string, a: string)
    ensures a in SortedGroup(books, n).autores <==>
      exists i :: 0 <= i < |books| && books[i].saga == n && books[i].autor == a
  {
    DedupMembers(Map(Members(books, n), AutorOf), a);
    AutorOfMembers(books, n, a);
  }

  lemma AutorOfMembers(books: seq<Book>, n: string, a: string)
    ensures a in Map(Members(books, n), AutorOf) <==>
      exists i :: 0 <= i < |books| && books[i].saga == n && books[i].autor == a
  {
    var ms := Members(books, n);
    if a in Map(ms, AutorOf) {
      AutorOfMember(books, n, a);
    }
    if exists i :: 0 <= i < |books| && books[i].saga == n && books[i].autor == a {
      var i :| 0 <= i < |books| && books[i].saga == n && books[i].autor == a;
      assert InSaga(n)(books[i]);
      MapMember(ms, AutorOf, books[i]);
    }
  }

  lemma AutorOfMember(books: seq<Book>, n: string, a: string)
    requires a in Map(Members(books, n), AutorOf)
    ensures exists i :: 0 <= i < |books| && books[i].saga == n && books[i].autor == a
  {
    var ms := Members(books, n);
    var autores := Map(ms, AutorOf);
    var p :| 0 <= p < |ms| && autores[p] == a;
    assert ms[p] in books && ms[p].saga == n;
    var i :| 0 <= i < |books| && books[i] == ms[p];
    assert books[i].saga == n && books[i].autor == a;
  }

  /**
   * A book of a saga is not an entry of its own: it is in the one aggregate
   * of its saga, whose books are sorted by ordinal and whose authors are the
   * distinct `Autor` strings of those books.
   */
  lemma SagaBookGrouped(books: seq<Book>, collate: (string, string) -> bool, b: Book)
    requires b in books && |b.saga| > 0
    ensures SortedGroup(books, b.saga) in TodoJunto(books, collate)
    ensures b in SortedGroup(books, b.saga).libros
    ensures Single(b) !in TodoJunto(books, collate)
    ensures Sorted(SagaLe(), SortedGroup(books, b.saga).libros)
    ensures forall a :: a in SortedGroup(books, b.saga).autores <==>
      exists i :: 0 <= i < |books| && books[i].saga == b.saga && books[i].autor == a
  {
    var n := b.saga;
    var k :| 0 <= k < |books| && books[k] == b;
    SagasOfMembers(books, n);
    DedupMembers(SagasOf(books), n);
    GroupListed(books, collate, n);
    assert b in Members(books, n);
    assert b in multiset(Members(books, n));
    if Single(b) in TodoJunto(books, collate) {
      SinglesAreLoose(books, collate, b);
    }
    SagaLeIsTotalPreorder();
    SortBySorted(Members(books, n), SagaLe());
    forall a ensures a in SortedGroup(books, n).autores <==>
      exists i :: 0 <= i < |books| && books[i].saga == n && books[i].autor == a
    {
      AutoresOfGroup(books, n, a);
    }
  }

  /** No saga has two aggregates, and no heading lists an entry it does not hold. */
  lemma SagasDistinct(books: seq<Book>)
    ensures NoDuplicates(SagaNames(books))
    ensures forall i :: 0 <= i < |SagaNames(books)| ==> |SagaNames(books)[i]| > 0
  {
    forall i | 0 <= i < |SagaNames(books)| ensures |SagaNames(books)[i]| > 0 {
      var n := SagaNames(books)[i];
      DedupMembers(SagasOf(books), n);
      SagasOfMembers(books, n);
    }
  }
}
