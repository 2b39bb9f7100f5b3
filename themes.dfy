/**
 * The comma-separated `Tema` field: splitting it into trimmed, non-empty
 * themes, and the sorted set of all themes the search page offers.
 */
module Themes {
  import opened Seqs
  import opened JsString
  import opened Ordering

  /** The trimmed, non-empty pieces, in order. */
  function NonEmptyTrimmed(pieces: seq<string>): (r: seq<string>)
    ensures forall i :: 0 <= i < |r| ==> |r[i]| > 0 && IsTrimmed(r[i])
  {
    if pieces == [] then []
    else
      var t := Trim(pieces[0]);
      (if |t| > 0 then [t] else []) + NonEmptyTrimmed(pieces[1..])
  }

  /** `valor.split(",").map((tema) => tema.trim()).filter((tema) => tema.length > 0)`. */
  function ThemesOf(valor: string): seq<string>
  {
    NonEmptyTrimmed(Split(valor, ','))
  }

  /** Every theme counted is non-empty, trimmed and free of commas. */
  lemma ThemesOfShape(valor: string, tema: string)
    requires tema in ThemesOf(valor)
    ensures |tema| > 0 && IsTrimmed(tema) && ',' !in tema
  {
    TemaFromPiece(Split(valor, ','), tema);
  }

  lemma {:induction false} TemaFromPiece(pieces: seq<string>, tema: string)
    requires forall i :: 0 <= i < |pieces| ==> ',' !in pieces[i]
    requires tema in NonEmptyTrimmed(pieces)
    ensures ',' !in tema
  {
    var t := Trim(pieces[0]);
    if |t| > 0 && tema == t {
      TrimSubset(pieces[0]);
    } else {
      assert tema in NonEmptyTrimmed(pieces[1..]);
      TemaFromPiece(pieces[1..], tema);
    }
  }

  /** The themes of every item, item after item. */
  function AllThemes(items: seq<string>): seq<string>
  {
    if items == [] then [] else AllThemes(items[..|items| - 1]) + ThemesOf(items[|items| - 1])
  }

  lemma {:induction false} NonEmptyTrimmedSnoc(pieces: seq<string>, x: string)
    ensures NonEmptyTrimmed(pieces + [x]) == NonEmptyTrimmed(pieces) + (if |Trim(x)| > 0 then [Trim(x)] else [])
  {
    var tail := if |Trim(x)| > 0 then [Trim(x)] else [];
    if pieces == [] {
      assert pieces + [x] == [x];
    } else {
      var ps := pieces + [x];
      var t := Trim(pieces[0]);
      var h := if |t| > 0 then [t] else [];
      SnocTail(pieces, x);
      assert NonEmptyTrimmed(ps) == h + NonEmptyTrimmed(pieces[1..] + [x]);
      NonEmptyTrimmedSnoc(pieces[1..], x);
      AppendAssoc(h, NonEmptyTrimmed(pieces[1..]), tail);
    }
  }

  /** `tema.split(",").map((s) => s.trim())`: the theme list a book is matched against. */
  function ThemeList(tema: string): seq<string>
  {
    TrimEach(Split(tema, ','))
  }

  /** `temas.every((t) => themeList.includes(t))`: every selected theme is among the field's trimmed themes. */
  predicate HasThemes(tema: string, temas: seq<string>)
  {
    forall t :: t in temas ==> t in ThemeList(tema)
  }

  /** The counted themes of a field are exactly its non-empty listed themes. */
  lemma {:induction false} ThemesOfInThemeList(pieces: seq<string>, t: string)
    ensures t in NonEmptyTrimmed(pieces) <==> |t| > 0 && t in TrimEach(pieces)
  {
    if pieces != [] {
      ThemesOfInThemeList(pieces[1..], t);
    }
  }

  lemma NextSeen(before: seq<string>, pieces: seq<string>, j: nat)
    requires j < |pieces|
    ensures before + NonEmptyTrimmed(pieces[..j + 1]) ==
      (before + NonEmptyTrimmed(pieces[..j])) + (if |Trim(pieces[j])| > 0 then [Trim(pieces[j])] else [])
  {
    assert pieces[..j + 1] == pieces[..j] + [pieces[j]];
    NonEmptyTrimmedSnoc(pieces[..j], pieces[j]);
  }

  /** The themes of one more book added to the set, piece by piece. */
  method AddThemes(found: seq<string>, tema: string, ghost before: seq<string>) returns (r: seq<string>)
    requires found == Dedup(before)
    ensures r == Dedup(before + ThemesOf(tema))
  {
    var pieces := Split(tema, ',');
    r := found;
    assert pieces[..0] == [];
    assert before + NonEmptyTrimmed(pieces[..0]) == before;
    for j := 0 to |pieces|
      invariant r == Dedup(before + NonEmptyTrimmed(pieces[..j]))
    {
      ghost var seen := before + NonEmptyTrimmed(pieces[..j]);
      var trimmed := Trim(pieces[j]);
      NextSeen(before, pieces, j);
      if |trimmed| > 0 {
        DedupStep(seen, trimmed);
        if trimmed !in r {
          r := r + [trimmed];
        }
      } else {
        assert before + NonEmptyTrimmed(pieces[..j + 1]) == seen;
      }
    }
    assert pieces[..|pieces|] == pieces;
  }

  lemma AllThemesStep(items: seq<string>, i: nat)
    requires i < |items|
    ensures AllThemes(items[..i + 1]) == AllThemes(items[..i]) + ThemesOf(items[i])
  {
    assert items[..i + 1][..i] == items[..i];
  }

  /**
   * `themesSet`: every non-empty trimmed theme of every book, each once, in
   * the default (code-unit) order.
   */
  method ThemesSet(temas: seq<string>) returns (r: seq<string>)
    ensures r == SortBy(Dedup(AllThemes(temas)), CodeUnitLe)
    ensures Sorted(CodeUnitLe, r) && NoDuplicates(r)
    ensures forall i :: 0 <= i < |r| ==> r[i] in AllThemes(temas)
    ensures forall i :: 0 <= i < |AllThemes(temas)| ==> AllThemes(temas)[i] in r
  {
    var found: seq<string> := [];
    for i := 0 to |temas|
      invariant found == Dedup(AllThemes(temas[..i]))
    {
      AllThemesStep(temas, i);
      found := AddThemes(found, temas[i], AllThemes(temas[..i]));
    }
    assert temas[..|temas|] == temas;
    r := SortCodeUnits(found);
    DistinctSorted(AllThemes(temas));
  }
}
