/**
 * The older search table (`TableFetch`): nine filter keys with the themes
 * under `Tema`, a boolean `Editado` column compared through its string
 * form, no author table, plain distinct options, and filter updates that
 * push the new query at once.
 */
module LegacyTable {
  import opened Wrappers
  import opened Seqs
  import opened JsString
  import opened Unicode
  import opened Ordering
  import opened Themes
  import QueryCodec
  import TableSort

  /** A row of the table; `Editado` is a boolean here. */
  datatype Book = Book(
    titulo: string, autor: string, publicacion: string, tipo: string, tema: string,
    idioma: string, original: string, saga: string, otros: string, subido: string,
    formato: string, editado: bool, enlace: string)

  /** The filter state; `Editado` holds "", "true" or whatever the URL gave. */
  datatype Filters = Filters(
    titulo: string, autor: string, publicacion: string, tipo: string, tema: seq<string>,
    idioma: string, original: string, saga: string, editado: string)

  const DefaultFilters := Filters("", "", "", "", [], "", "", "", "")

  const FiltersSchema := QueryCodec.Schema(
    ["Título", "Autor", "Publicación", "Tipo", "Tema", "Idioma", "Original", "Saga", "Editado"], "Tema")

  lemma FiltersSchemaValid()
    ensures QueryCodec.ValidSchema(FiltersSchema)
  {
  }

  /** Only the fifth key, `Tema`, holds a list. */
  lemma ListKeyAt(i: nat)
    requires i < |FiltersSchema.names|
    ensures FiltersSchema.names[i] == FiltersSchema.listName <==> i == 4
  {
  }

  function ToValues(f: Filters): (vs: seq<QueryCodec.Value>)
    ensures |vs| == |FiltersSchema.names|
  {
    [QueryCodec.Text(f.titulo), QueryCodec.Text(f.autor), QueryCodec.Text(f.publicacion),
     QueryCodec.Text(f.tipo), QueryCodec.List(f.tema), QueryCodec.Text(f.idioma),
     QueryCodec.Text(f.original), QueryCodec.Text(f.saga), QueryCodec.Text(f.editado)]
  }

  function TextAt(vs: seq<QueryCodec.Value>, i: nat): string
  {
    if i < |vs| && vs[i].Text? then vs[i].text else ""
  }

  function ListAt(vs: seq<QueryCodec.Value>, i: nat): seq<string>
  {
    if i < |vs| && vs[i].List? then vs[i].items else []
  }

  function FromValues(vs: seq<QueryCodec.Value>): Filters
  {
    Filters(TextAt(vs, 0), TextAt(vs, 1), TextAt(vs, 2), TextAt(vs, 3), ListAt(vs, 4),
            TextAt(vs, 5), TextAt(vs, 6), TextAt(vs, 7), TextAt(vs, 8))
  }

  lemma FromToValues(f: Filters)
    ensures FromValues(ToValues(f)) == f
  {
  }

  lemma {:induction false} ToFromValues(vs: seq<QueryCodec.Value>)
    requires QueryCodec.WellFormed(FiltersSchema, vs)
    ensures ToValues(FromValues(vs)) == vs
  {
    forall i | 0 <= i < |vs| ensures ToValues(FromValues(vs))[i] == vs[i] {
      ListKeyAt(i);
    }
  }

  lemma DefaultValues()
    ensures ToValues(DefaultFilters) == QueryCodec.Defaults(FiltersSchema)
  {
    var names := FiltersSchema.names;
    forall i | 0 <= i < |names|
      ensures ToValues(DefaultFilters)[i] == QueryCodec.DefaultValue(FiltersSchema, names[i])
    {
      ListKeyAt(i);
    }
  }

  function TextParam(ps: seq<QueryCodec.Param>, name: string): string
  {
    var p := QueryCodec.Get(ps, name);
    if p.Some? && |p.value| > 0 then p.value else ""
  }

  function ThemesParam(ps: seq<QueryCodec.Param>): seq<string>
  {
    var p := QueryCodec.Get(ps, "Tema");
    if p.Some? && |p.value| > 0 then ThemeList(p.value) else []
  }

  /** `parseQuery`: the nine keys read on their own, `Tema` split and trimmed, every other parameter ignored. */
  function Parse(ps: seq<QueryCodec.Param>): (f: Filters)
    ensures f == Filters(
      TextParam(ps, "Título"), TextParam(ps, "Autor"), TextParam(ps, "Publicación"),
      TextParam(ps, "Tipo"), ThemesParam(ps), TextParam(ps, "Idioma"), TextParam(ps, "Original"),
      TextParam(ps, "Saga"), TextParam(ps, "Editado"))
  {
    DecodedFields(ps);
    FromValues(QueryCodec.Decode(FiltersSchema, ps))
  }

  lemma DecodedText(ps: seq<QueryCodec.Param>, i: nat)
    requires i < |FiltersSchema.names| && i != 4
    ensures TextAt(QueryCodec.Decode(FiltersSchema, ps), i) == TextParam(ps, FiltersSchema.names[i])
  {
    QueryCodec.DecodeAt(FiltersSchema, ps, i);
    assert FiltersSchema.names[i] != FiltersSchema.listName;
  }

  lemma DecodedFields(ps: seq<QueryCodec.Param>)
    ensures FromValues(QueryCodec.Decode(FiltersSchema, ps)) == Filters(
      TextParam(ps, "Título"), TextParam(ps, "Autor"), TextParam(ps, "Publicación"),
      TextParam(ps, "Tipo"), ThemesParam(ps), TextParam(ps, "Idioma"), TextParam(ps, "Original"),
      TextParam(ps, "Saga"), TextParam(ps, "Editado"))
  {
    QueryCodec.DecodeAt(FiltersSchema, ps, 4);
    DecodedText(ps, 0);
    DecodedText(ps, 1);
    DecodedText(ps, 2);
    DecodedText(ps, 3);
    DecodedText(ps, 5);
    DecodedText(ps, 6);
    DecodedText(ps, 7);
    DecodedText(ps, 8);
  }

  /** `serializeFilters(filters)`. */
  function Serialize(f: Filters): seq<QueryCodec.Param>
  {
    QueryCodec.Encode(FiltersSchema, ToValues(f))
  }

  /** `parseQuery`, run as the key loop. */
  method ParseQuery(ps: seq<QueryCodec.Param>) returns (f: Filters)
    ensures f == Parse(ps)
  {
    var parsed := QueryCodec.ParseQuery(FiltersSchema, ps);
    f := FromValues(parsed);
  }

  /** `serializeFilters`, run as the key loop. */
  method SerializeFilters(f: Filters) returns (params: seq<QueryCodec.Param>)
    ensures params == Serialize(f)
  {
    params := QueryCodec.SerializeFilters(FiltersSchema, ToValues(f));
  }

  /** The default filters serialise to the empty query. */
  lemma SerializeDefaults()
    ensures Serialize(DefaultFilters) == []
  {
    DefaultValues();
    QueryCodec.EncodeDefaults(FiltersSchema);
  }

  predicate CanonicalText(s: string)
  {
    |s| == 0 || |Trim(s)| > 0
  }

  predicate CanonicalThemes(ts: seq<string>)
  {
    |ts| == 0 ||
    (!(|ts| == 1 && |ts[0]| == 0) && forall i :: 0 <= i < |ts| ==> ',' !in ts[i] && IsTrimmed(ts[i]))
  }

  predicate CanonicalFilters(f: Filters)
  {
    && CanonicalText(f.titulo) && CanonicalText(f.autor) && CanonicalText(f.publicacion)
    && CanonicalText(f.tipo) && CanonicalThemes(f.tema) && CanonicalText(f.idioma)
    && CanonicalText(f.original) && CanonicalText(f.saga) && CanonicalText(f.editado)
  }

  lemma CanonicalValueAt(f: Filters, i: nat)
    requires i < |FiltersSchema.names|
    ensures QueryCodec.CanonicalValue(FiltersSchema, FiltersSchema.names[i], ToValues(f)[i]) <==>
      if i == 4 then CanonicalThemes(f.tema) else CanonicalText(ToValues(f)[i].text)
  {
    ListKeyAt(i);
  }

  lemma CanonicalValues(f: Filters)
    ensures QueryCodec.Canonical(FiltersSchema, ToValues(f)) <==> CanonicalFilters(f)
  {
    var vs := ToValues(f);
    if CanonicalFilters(f) {
      forall i | 0 <= i < |vs| ensures QueryCodec.CanonicalValue(FiltersSchema, FiltersSchema.names[i], vs[i]) {
        CanonicalValueAt(f, i);
        assert i == 0 || i == 1 || i == 2 || i == 3 || i == 4 || i == 5 || i == 6 || i == 7 || i == 8;
      }
    }
    if QueryCodec.Canonical(FiltersSchema, vs) {
      CanonicalValueAt(f, 0);
      CanonicalValueAt(f, 1);
      CanonicalValueAt(f, 2);
      CanonicalValueAt(f, 3);
      CanonicalValueAt(f, 4);
      CanonicalValueAt(f, 5);
      CanonicalValueAt(f, 6);
      CanonicalValueAt(f, 7);
      CanonicalValueAt(f, 8);
    }
  }

  /** Round trip: parsing the serialised filters gives them back exactly when they are canonical. */
  lemma FiltersRoundTrip(f: Filters)
    ensures Parse(Serialize(f)) == f <==> CanonicalFilters(f)
  {
    var vs := ToValues(f);
    FiltersSchemaValid();
    QueryCodec.RoundTrip(FiltersSchema, vs);
    CanonicalValues(f);
    var d := QueryCodec.Decode(FiltersSchema, QueryCodec.Encode(FiltersSchema, vs));
    FromToValues(f);
    if FromValues(d) == f {
      QueryCodec.DecodeWellFormed(FiltersSchema, QueryCodec.Encode(FiltersSchema, vs));
      ToFromValues(d);
    }
  }

  /** The keys `updateFilter` is called with a string for. */
  datatype TextKey = Titulo | Autor | Publicacion | Tipo | Idioma | Original | Saga | Editado

  function TextOf(f: Filters, k: TextKey): string
  {
    match k
    case Titulo => f.titulo
    case Autor => f.autor
    case Publicacion => f.publicacion
    case Tipo => f.tipo
    case Idioma => f.idioma
    case Original => f.original
    case Saga => f.saga
    case Editado => f.editado
  }

  /** One call of `updateFilter`: a string under a string key, or the new theme list under `Tema`. */
  datatype Update = SetText(key: TextKey, value: string) | SetTema(themes: seq<string>)

  /** `{ ...filters, [key]: value }`: the one key replaced, every other key as it was. */
  function Apply(f: Filters, u: Update): (r: Filters)
    ensures forall k :: TextOf(r, k) == if u.SetText? && u.key == k then u.value else TextOf(f, k)
    ensures r.tema == if u.SetTema? then u.themes else f.tema
  {
    match u
    case SetTema(themes) => f.(tema := themes)
    case SetText(key, value) =>
      match key
      case Titulo => f.(titulo := value)
      case Autor => f.(autor := value)
      case Publicacion => f.(publicacion := value)
      case Tipo => f.(tipo := value)
      case Idioma => f.(idioma := value)
      case Original => f.(original := value)
      case Saga => f.(saga := value)
      case Editado => f.(editado := value)
  }

  /** Updating a key with the value it already has changes nothing. */
  lemma ApplySame(f: Filters, k: TextKey)
    ensures Apply(f, SetText(k, TextOf(f, k))) == f
  {
  }

  /** A later update of the same key overrides an earlier one. */
  lemma ApplyOverride(f: Filters, k: TextKey, v: string, w: string)
    ensures Apply(Apply(f, SetText(k, v)), SetText(k, w)) == Apply(f, SetText(k, w))
  {
  }

  /** Updates of two different keys commute. */
  lemma ApplyCommutes(f: Filters, k: TextKey, v: string, j: TextKey, w: string)
    requires k != j
    ensures Apply(Apply(f, SetText(k, v)), SetText(j, w)) == Apply(Apply(f, SetText(j, w)), SetText(k, v))
  {
  }

  /**
   * `updateFilter(key, value)`: the new filters and the query pushed to the
   * router (`"?" + query`), which is the serialisation of the new filters.
   */
  method UpdateFilter(filters: Filters, u: Update) returns (newFilters: Filters, pushed: seq<QueryCodec.Param>)
    ensures newFilters == Apply(filters, u)
    ensures pushed == Serialize(newFilters)
  {
    newFilters := Apply(filters, u);
    pushed := SerializeFilters(newFilters);
  }

  /** `String(book.Editado)`. */
  function BoolString(b: bool): string
  {
    if b then "true" else "false"
  }

  /** The `filteredData` predicate for one book. */
  predicate Matches(f: Filters, b: Book)
  {
    && (|f.titulo| == 0 || Includes(ToLower(b.titulo), ToLower(f.titulo)))
    && (|f.autor| == 0 || Includes(ToLower(b.autor), ToLower(f.autor)))
    && (|f.publicacion| == 0 || Includes(b.publicacion, f.publicacion))
    && (|f.tipo| == 0 || b.tipo == f.tipo)
    && (|f.tema| == 0 || HasThemes(b.tema, f.tema))
    && (|f.idioma| == 0 || b.idioma == f.idioma)
    && (|f.original| == 0 || b.original == f.original)
    && (|f.saga| == 0 || Includes(ToLower(b.saga), ToLower(f.saga)))
    && (|f.editado| == 0 || BoolString(b.editado) == f.editado)
  }

  function Matcher(f: Filters): Book -> bool
  {
    b => Matches(f, b)
  }

  /** `filteredData`: the books that pass every filter, in table order, each with all its copies. */
  function FilteredData(books: seq<Book>, f: Filters): (r: seq<Book>)
    ensures IsSubsequence(r, books)
    ensures forall b :: b in r <==> b in books && Matches(f, b)
    ensures forall b :: multiset(r)[b] == if Matches(f, b) then multiset(books)[b] else 0
  {
    FilterIsSubsequence(books, Matcher(f));
    forall b {
      FilterMultiset(books, Matcher(f), b);
    }
    Filter(books, Matcher(f))
  }

  lemma DefaultsPassAll(books: seq<Book>)
    ensures FilteredData(books, DefaultFilters) == books
  {
    FilterAll(books, Matcher(DefaultFilters));
  }

  lemma FilterTwice(books: seq<Book>, f: Filters)
    ensures FilteredData(FilteredData(books, f), f) == FilteredData(books, f)
  {
    FilterIdempotent(books, Matcher(f));
  }

  /**
   * `Editado` compares the boolean's string form: "true" keeps exactly the
   * edited books, "false" exactly the others, and any other non-empty text
   * keeps none.
   */
  lemma EditadoFilter(f: Filters, b: Book)
    requires |f.editado| > 0
    ensures Matches(f, b) ==> (f.editado == "true" && b.editado) || (f.editado == "false" && !b.editado)
    ensures f.editado == "true" ==> (Matches(f, b) <==> Matches(f.(editado := ""), b) && b.editado)
    ensures f.editado == "false" ==> (Matches(f, b) <==> Matches(f.(editado := ""), b) && !b.editado)
  {
  }

  /** The `Tema` column. */
  function Temas(books: seq<Book>): (r: seq<string>)
    ensures |r| == |books| && forall i :: 0 <= i < |books| ==> r[i] == books[i].tema
  {
    Map(books, (b: Book) => b.tema)
  }

  /** `temasSet`: the distinct non-empty trimmed themes of the table, in code-unit order. */
  method TemasSet(books: seq<Book>) returns (r: seq<string>)
    ensures r == SortBy(Dedup(AllThemes(Temas(books))), CodeUnitLe)
    ensures Sorted(CodeUnitLe, r) && NoDuplicates(r)
    ensures forall i :: 0 <= i < |r| ==> r[i] in AllThemes(Temas(books))
    ensures forall i :: 0 <= i < |AllThemes(Temas(books))| ==> AllThemes(Temas(books))[i] in r
  {
    r := Themes.ThemesSet(Temas(books));
  }

  /** The keys of `Book`. */
  datatype BookField =
    | Titulo | Autor | Publicacion | Tipo | Tema | Idioma | Original | Saga | Otros | Subido
    | Formato | Editado | Enlace

  /** `book[field]` when it is a string; `Editado` is a boolean and is skipped by `typeof`. */
  function StringField(b: Book, field: BookField): Option<string>
  {
    match field
    case Titulo => Some(b.titulo)
    case Autor => Some(b.autor)
    case Publicacion => Some(b.publicacion)
    case Tipo => Some(b.tipo)
    case Tema => Some(b.tema)
    case Idioma => Some(b.idioma)
    case Original => Some(b.original)
    case Saga => Some(b.saga)
    case Otros => Some(b.otros)
    case Subido => Some(b.subido)
    case Formato => Some(b.formato)
    case Editado => None
    case Enlace => Some(b.enlace)
  }

  /** The string values of one field, in table order. */
  function Strings(books: seq<Book>, field: BookField): seq<string>
  {
    if books == [] then []
    else
      var rest := Strings(books[..|books| - 1], field);
      var v := StringField(books[|books| - 1], field);
      if v.Some? then rest + [v.value] else rest
  }

  lemma StringsSnoc(books: seq<Book>, b: Book, field: BookField)
    ensures Strings(books + [b], field) ==
      if StringField(b, field).Some? then Strings(books, field) + [StringField(b, field).value] else Strings(books, field)
  {
    assert (books + [b])[..|books|] == books;
  }

  lemma StringsPrefixStep(books: seq<Book>, i: nat, field: BookField)
    requires i < |books|
    ensures Strings(books[..i + 1], field) ==
      if StringField(books[i], field).Some? then Strings(books[..i], field) + [StringField(books[i], field).value]
      else Strings(books[..i], field)
  {
    assert books[..i + 1] == books[..i] + [books[i]];
    StringsSnoc(books[..i], books[i], field);
  }

  /** The boolean column offers no options. */
  lemma {:induction false} NoEditadoOptions(books: seq<Book>)
    ensures Strings(books, BookField.Editado) == []
  {
    if books != [] {
      NoEditadoOptions(books[..|books| - 1]);
    }
  }

  /** The loop of `opcionesSet`: each string value of the field once, in first-seen order. */
  method DistinctStrings(books: seq<Book>, field: BookField) returns (found: seq<string>)
    ensures found == Dedup(Strings(books, field))
  {
    found := [];
    for i := 0 to |books|
      invariant found == Dedup(Strings(books[..i], field))
    {
      ghost var before := Strings(books[..i], field);
      StringsPrefixStep(books, i, field);
      var value := StringField(books[i], field);
      if value.Some? {
        DedupStep(before, value.value);
        if value.value !in found {
          found := found + [value.value];
        }
      }
    }
    assert books[..|books|] == books;
  }

  /**
   * `opcionesSet(field)`: the distinct string values of the field, each
   * once, in code-unit order.
   */
  method OpcionesSet(books: seq<Book>, field: BookField) returns (r: seq<string>)
    ensures r == SortBy(Dedup(Strings(books, field)), CodeUnitLe)
    ensures Sorted(CodeUnitLe, r) && NoDuplicates(r)
    ensures forall x :: x in r <==> x in Strings(books, field)
  {
    var found := DistinctStrings(books, field);
    r := SortCodeUnits(found);
    DistinctSorted(Strings(books, field));
  }

  /** The text a sortable column holds. */
  function SortColumn(b: Book, key: TableSort.SortKey): string
  {
    match key
    case Titulo => b.titulo
    case Autor => b.autor
    case Publicacion => b.publicacion
    case Tipo => b.tipo
  }

  /** The sorted view of the filtered table. */
  method SortedBooks(rows: seq<Book>, config: Option<TableSort.SortConfig>, collate: (string, string) -> bool)
    returns (r: seq<Book>)
    requires TotalPreorder(collate)
    ensures config.None? ==> r == rows
    ensures config.Some? ==> r == SortBy(rows, TableSort.Comparator(config.value, SortColumn, collate))
    ensures multiset(r) == multiset(rows)
    ensures config.Some? ==> Sorted(TableSort.Comparator(config.value, SortColumn, collate), r)
  {
    r := TableSort.SortedData(rows, config, SortColumn, collate);
  }
}
