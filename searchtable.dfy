/**
 * The search page's query engine (`GenerateTable`): the typed filter record
 * and its URL codec, the conjunctive filter over the book table with the
 * join against the author table, and the distinct-option lists offered by
 * the sidebar.
 */
module SearchTable {
  import opened Wrappers
  import opened Seqs
  import opened JsString
  import opened Unicode
  import opened Ordering
  import opened Themes
  import QueryCodec
  import TableSort

  /** A row of the book table. */
  datatype Book = Book(
    titulo: string, autor: string, publicacion: string, tipo: string, tema: string,
    idioma: string, original: string, saga: string, otros: string, subido: string,
    formato: string, editado: string, enlace: string, id: string)

  /** A row of the author table; "" stands for a missing `Sexo` or `País`. */
  datatype Author = Author(nombre: string, sexo: string, pais: string)

  /** The search page's filter state. */
  datatype Filters = Filters(
    titulo: string, autor: string, publicacion: string, tipo: string, temas: seq<string>,
    idioma: string, original: string, saga: string, editado: string, sexo: string, pais: string)

  /** `defaultFilters`: nothing selected. */
  const DefaultFilters := Filters("", "", "", "", [], "", "", "", "", "", "")

  /** The keys of `Filters` in declaration order, `temas` being the list-valued one. */
  const FiltersSchema := QueryCodec.Schema(
    ["título", "autor", "publicación", "tipo", "temas", "idioma", "original", "saga", "editado", "sexo", "país"],
    "temas")

  lemma FiltersSchemaValid()
    ensures QueryCodec.ValidSchema(FiltersSchema)
  {
  }

  /** The record as one value per key. */
  function ToValues(f: Filters): (vs: seq<QueryCodec.Value>)
    ensures |vs| == |FiltersSchema.names|
  {
    [QueryCodec.Text(f.titulo), QueryCodec.Text(f.autor), QueryCodec.Text(f.publicacion),
     QueryCodec.Text(f.tipo), QueryCodec.List(f.temas), QueryCodec.Text(f.idioma),
     QueryCodec.Text(f.original), QueryCodec.Text(f.saga), QueryCodec.Text(f.editado),
     QueryCodec.Text(f.sexo), QueryCodec.Text(f.pais)]
  }

  function TextAt(vs: seq<QueryCodec.Value>, i: nat): string
  {
    if i < |vs| && vs[i].Text? then vs[i].text else ""
  }

  function ListAt(vs: seq<QueryCodec.Value>, i: nat): seq<string>
  {
    if i < |vs| && vs[i].List? then vs[i].items else []
  }

  /** The record read back from one value per key. */
  function FromValues(vs: seq<QueryCodec.Value>): Filters
  {
    Filters(TextAt(vs, 0), TextAt(vs, 1), TextAt(vs, 2), TextAt(vs, 3), ListAt(vs, 4),
            TextAt(vs, 5), TextAt(vs, 6), TextAt(vs, 7), TextAt(vs, 8), TextAt(vs, 9), TextAt(vs, 10))
  }

  lemma FromToValues(f: Filters)
    ensures FromValues(ToValues(f)) == f
  {
  }

  lemma {:induction false} ToFromValues(vs: seq<QueryCodec.Value>)
    requires QueryCodec.WellFormed(FiltersSchema, vs)
    ensures ToValues(FromValues(vs)) == vs
  {
    forall i | 0 <= i < |vs| ensures ToValues(FromValues(vs))[i] == vs[i] {
      ListKeyAt(i);
    }
  }

  lemma DefaultValues()
    ensures ToValues(DefaultFilters) == QueryCodec.Defaults(FiltersSchema)
  {
    var names := FiltersSchema.names;
    forall i | 0 <= i < |names|
      ensures ToValues(DefaultFilters)[i] == QueryCodec.DefaultValue(FiltersSchema, names[i])
    {
      ListKeyAt(i);
    }
  }

  /** What `parseQuery` reads for a string key: the parameter when it is present and non-empty, else "". */
  function TextParam(ps: seq<QueryCodec.Param>, name: string): string
  {
    var p := QueryCodec.Get(ps, name);
    if p.Some? && |p.value| > 0 then p.value else ""
  }

  /** What `parseQuery` reads for `temas`: the parameter split on "," and trimmed, else no themes. */
  function ThemesParam(ps: seq<QueryCodec.Param>): seq<string>
  {
    var p := QueryCodec.Get(ps, "temas");
    if p.Some? && |p.value| > 0 then ThemeList(p.value) else []
  }

  /**
   * `parseQuery(searchParams)`: each of the eleven keys read on its own,
   * every other parameter ignored.
   */
  function Parse(ps: seq<QueryCodec.Param>): (f: Filters)
    ensures f == Filters(
      TextParam(ps, "título"), TextParam(ps, "autor"), TextParam(ps, "publicación"),
      TextParam(ps, "tipo"), ThemesParam(ps), TextParam(ps, "idioma"), TextParam(ps, "original"),
      TextParam(ps, "saga"), TextParam(ps, "editado"), TextParam(ps, "sexo"), TextParam(ps, "país"))
  {
    DecodedFields(ps);
    FromValues(QueryCodec.Decode(FiltersSchema, ps))
  }

  lemma DecodedText(ps: seq<QueryCodec.Param>, i: nat)
    requires i < |FiltersSchema.names| && i != 4
    ensures TextAt(QueryCodec.Decode(FiltersSchema, ps), i) == TextParam(ps, FiltersSchema.names[i])
  {
    QueryCodec.DecodeAt(FiltersSchema, ps, i);
    assert FiltersSchema.names[i] != FiltersSchema.listName;
  }

  lemma DecodedFields(ps: seq<QueryCodec.Param>)
    ensures FromValues(QueryCodec.Decode(FiltersSchema, ps)) == Filters(
      TextParam(ps, "título"), TextParam(ps, "autor"), TextParam(ps, "publicación"),
      TextParam(ps, "tipo"), ThemesParam(ps), TextParam(ps, "idioma"), TextParam(ps, "original"),
      TextParam(ps, "saga"), TextParam(ps, "editado"), TextParam(ps, "sexo"), TextParam(ps, "país"))
  {
    QueryCodec.DecodeAt(FiltersSchema, ps, 4);
    DecodedText(ps, 0);
    DecodedText(ps, 1);
    DecodedText(ps, 2);
    DecodedText(ps, 3);
    DecodedText(ps, 5);
    DecodedText(ps, 6);
    DecodedText(ps, 7);
    DecodedText(ps, 8);
    DecodedText(ps, 9);
    DecodedText(ps, 10);
  }

  /** `serializeFilters(filters)`. */
  function Serialize(f: Filters): seq<QueryCodec.Param>
  {
    QueryCodec.Encode(FiltersSchema, ToValues(f))
  }

  /** `parseQuery`, run as the key loop. */
  method ParseQuery(ps: seq<QueryCodec.Param>) returns (f: Filters)
    ensures f == Parse(ps)
  {
    var parsed := QueryCodec.ParseQuery(FiltersSchema, ps);
    f := FromValues(parsed);
  }

  /** `serializeFilters`, run as the key loop. */
  method SerializeFilters(f: Filters) returns (params: seq<QueryCodec.Param>)
    ensures params == Serialize(f)
  {
    params := QueryCodec.SerializeFilters(FiltersSchema, ToValues(f));
  }

  /** `defaultFilters` serialises to the empty query. */
  lemma SerializeDefaults()
    ensures Serialize(DefaultFilters) == []
  {
    DefaultValues();
    QueryCodec.EncodeDefaults(FiltersSchema);
  }

  /** A string value that survives the URL: "" or not blank. */
  predicate CanonicalText(s: string)
  {
    |s| == 0 || |Trim(s)| > 0
  }

  /** A theme list that survives the URL: empty, or trimmed comma-free themes other than the single "". */
  predicate CanonicalThemes(ts: seq<string>)
  {
    |ts| == 0 ||
    (!(|ts| == 1 && |ts[0]| == 0) && forall i :: 0 <= i < |ts| ==> ',' !in ts[i] && IsTrimmed(ts[i]))
  }

  predicate CanonicalFilters(f: Filters)
  {
    && CanonicalText(f.titulo) && CanonicalText(f.autor) && CanonicalText(f.publicacion)
    && CanonicalText(f.tipo) && CanonicalThemes(f.temas) && CanonicalText(f.idioma)
    && CanonicalText(f.original) && CanonicalText(f.saga) && CanonicalText(f.editado)
    && CanonicalText(f.sexo) && CanonicalText(f.pais)
  }

  /** Only the fifth key, `temas`, holds a list. */
  lemma ListKeyAt(i: nat)
    requires i < |FiltersSchema.names|
    ensures FiltersSchema.names[i] == FiltersSchema.listName <==> i == 4
  {
  }

  lemma CanonicalValueAt(f: Filters, i: nat)
    requires i < |FiltersSchema.names|
    ensures QueryCodec.CanonicalValue(FiltersSchema, FiltersSchema.names[i], ToValues(f)[i]) <==>
      if i == 4 then CanonicalThemes(f.temas) else CanonicalText(ToValues(f)[i].text)
  {
    ListKeyAt(i);
  }

  lemma CanonicalValues(f: Filters)
    ensures QueryCodec.Canonical(FiltersSchema, ToValues(f)) <==> CanonicalFilters(f)
  {
    var vs := ToValues(f);
    if CanonicalFilters(f) {
      forall i | 0 <= i < |vs| ensures QueryCodec.CanonicalValue(FiltersSchema, FiltersSchema.names[i], vs[i]) {
        CanonicalValueAt(f, i);
        assert i == 0 || i == 1 || i == 2 || i == 3 || i == 4 || i == 5 || i == 6 || i == 7 || i == 8 || i == 9 || i == 10;
      }
    }
    if QueryCodec.Canonical(FiltersSchema, vs) {
      CanonicalValueAt(f, 0);
      CanonicalValueAt(f, 1);
      CanonicalValueAt(f, 2);
      CanonicalValueAt(f, 3);
      CanonicalValueAt(f, 4);
      CanonicalValueAt(f, 5);
      CanonicalValueAt(f, 6);
      CanonicalValueAt(f, 7);
      CanonicalValueAt(f, 8);
      CanonicalValueAt(f, 9);
      CanonicalValueAt(f, 10);
    }
  }

  /**
   * Round trip: parsing the serialised record gives it back exactly when
   * every string is "" or not blank and the themes are canonical.
   */
  lemma FiltersRoundTrip(f: Filters)
    ensures Parse(Serialize(f)) == f <==> CanonicalFilters(f)
  {
    var vs := ToValues(f);
    FiltersSchemaValid();
    QueryCodec.RoundTrip(FiltersSchema, vs);
    CanonicalValues(f);
    var d := QueryCodec.Decode(FiltersSchema, QueryCodec.Encode(FiltersSchema, vs));
    FromToValues(f);
    if FromValues(d) == f {
      QueryCodec.DecodeWellFormed(FiltersSchema, QueryCodec.Encode(FiltersSchema, vs));
      ToFromValues(d);
    }
  }

  /**
   * The URL effect's decision for the search page: skip when the serialised
   * filters equal the serialised filters parsed from the current URL.
   */
  method UrlUpdate(filters: Filters, url: seq<QueryCodec.Param>) returns (write: Option<seq<QueryCodec.Param>>)
    ensures write.None? <==> Serialize(filters) == Serialize(Parse(url))
    ensures write.Some? ==> write.value == Serialize(filters)
  {
    QueryCodec.DecodeWellFormed(FiltersSchema, url);
    ToFromValues(QueryCodec.Decode(FiltersSchema, url));
    write := QueryCodec.UrlUpdate(FiltersSchema, ToValues(filters), url);
  }

  /** With canonical filters on both sides, the effect skips exactly when the URL already holds the same filters. */
  lemma SkipIffSameFilters(f: Filters, url: seq<QueryCodec.Param>)
    requires CanonicalFilters(f) && CanonicalFilters(Parse(url))
    ensures Serialize(f) == Serialize(Parse(url)) <==> f == Parse(url)
  {
    FiltersRoundTrip(f);
    FiltersRoundTrip(Parse(url));
  }

  /** The keys `updateFilter` is called with a string for. */
  datatype TextKey = Titulo | Autor | Publicacion | Tipo | Idioma | Original | Saga | Editado | Sexo | Pais

  function TextOf(f: Filters, k: TextKey): string
  {
    match k
    case Titulo => f.titulo
    case Autor => f.autor
    case Publicacion => f.publicacion
    case Tipo => f.tipo
    case Idioma => f.idioma
    case Original => f.original
    case Saga => f.saga
    case Editado => f.editado
    case Sexo => f.sexo
    case Pais => f.pais
  }

  /** One call of `updateFilter`: a string under a string key, or the new theme list under `temas`. */
  datatype Update = SetText(key: TextKey, value: string) | SetTemas(themes: seq<string>)

  /**
   * `updateFilter(key, value)`, the functional update `{ ...prev, [key]: value }`:
   * the one key replaced, every other key as it was. The URL follows later,
   * through the effect modelled by `UrlUpdate`.
   */
  function UpdateFilter(prev: Filters, u: Update): (r: Filters)
    ensures forall k :: TextOf(r, k) == if u.SetText? && u.key == k then u.value else TextOf(prev, k)
    ensures r.temas == if u.SetTemas? then u.themes else prev.temas
  {
    match u
    case SetTemas(themes) => prev.(temas := themes)
    case SetText(key, value) =>
      match key
      case Titulo => prev.(titulo := value)
      case Autor => prev.(autor := value)
      case Publicacion => prev.(publicacion := value)
      case Tipo => prev.(tipo := value)
      case Idioma => prev.(idioma := value)
      case Original => prev.(original := value)
      case Saga => prev.(saga := value)
      case Editado => prev.(editado := value)
      case Sexo => prev.(sexo := value)
      case Pais => prev.(pais := value)
  }

  /** The position of a string key among the record's keys. */
  function KeyIndex(k: TextKey): (i: nat)
    ensures i < |FiltersSchema.names| && i != 4
  {
    match k
    case Titulo => 0
    case Autor => 1
    case Publicacion => 2
    case Tipo => 3
    case Idioma => 5
    case Original => 6
    case Saga => 7
    case Editado => 8
    case Sexo => 9
    case Pais => 10
  }

  /**
   * After `updateFilter(key, value)` the serialised query holds `value` under
   * `key` when it is not blank and nothing under `key` when it is, and every
   * other key's parameter is what it was.
   */
  lemma UpdateFilterValues(prev: Filters, k: TextKey, v: string)
    ensures ToValues(UpdateFilter(prev, SetText(k, v))) == ToValues(prev)[KeyIndex(k) := QueryCodec.Text(v)]
  {
  }

  lemma UpdateFilterQuery(prev: Filters, k: TextKey, v: string, i: nat)
    requires i < |FiltersSchema.names|
    ensures i == KeyIndex(k) ==>
      QueryCodec.Get(Serialize(UpdateFilter(prev, SetText(k, v))), FiltersSchema.names[i]) == if |Trim(v)| > 0 then Some(v) else None
    ensures i != KeyIndex(k) ==>
      QueryCodec.Get(Serialize(UpdateFilter(prev, SetText(k, v))), FiltersSchema.names[i]) == QueryCodec.Get(Serialize(prev), FiltersSchema.names[i])
  {
    FiltersSchemaValid();
    var vs := ToValues(UpdateFilter(prev, SetText(k, v)));
    UpdateFilterValues(prev, k, v);
    QueryCodec.GetEncodeAt(FiltersSchema, vs, i);
    QueryCodec.GetEncodeAt(FiltersSchema, ToValues(prev), i);
    ListKeyAt(i);
    if i == KeyIndex(k) {
      assert vs[i] == QueryCodec.Text(v);
    } else {
      assert vs[i] == ToValues(prev)[i];
    }
  }

  /** The comma-separated co-authors of a book, trimmed. */
  function AuthorNames(b: Book): seq<string>
  {
    TrimEach(Split(b.autor, ','))
  }

  /** An author-table row names `name`, compared case-insensitively. */
  predicate NameMatches(a: Author, name: string)
  {
    ToLower(a.nombre) == ToLower(name)
  }

  /** `authors.find(...)`: the first row whose name matches, if any. */
  function FindAuthor(authors: seq<Author>, name: string): (r: Option<Author>)
    ensures r.None? <==> forall i :: 0 <= i < |authors| ==> !NameMatches(authors[i], name)
    ensures r.Some? ==> exists i :: (0 <= i < |authors| && authors[i] == r.value && NameMatches(authors[i], name)
      && forall j :: 0 <= j < i ==> !NameMatches(authors[j], name))
  {
    if authors == [] then None
    else if NameMatches(authors[0], name) then Some(authors[0])
    else
      var r := FindAuthor(authors[1..], name);
      if r.Some? then FindAuthorShift(authors, name, r.value); r else r
  }

  /** A first match in the tail of a list whose head does not match is a first match in the list. */
  lemma FindAuthorShift(authors: seq<Author>, name: string, v: Author)
    requires authors != [] && !NameMatches(authors[0], name)
    requires exists k :: (0 <= k < |authors[1..]| && authors[1..][k] == v && NameMatches(authors[1..][k], name)
      && forall j :: 0 <= j < k ==> !NameMatches(authors[1..][j], name))
    ensures exists i :: (0 <= i < |authors| && authors[i] == v && NameMatches(authors[i], name)
      && forall j :: 0 <= j < i ==> !NameMatches(authors[j], name))
  {
    var k :| 0 <= k < |authors[1..]| && authors[1..][k] == v && NameMatches(authors[1..][k], name)
      && forall j :: 0 <= j < k ==> !NameMatches(authors[1..][j], name);
    forall j | 1 <= j < k + 1 ensures !NameMatches(authors[j], name) {
      assert authors[j] == authors[1..][j - 1];
    }
    assert authors[k + 1] == v;
  }

  lemma AuthorDataShift(names: seq<string>, authors: seq<Author>, rest: seq<Author>)
    requires names != []
    requires forall a :: a in rest <==> exists i :: 0 <= i < |names[1..]| && FindAuthor(authors, names[1..][i]) == Some(a)
    ensures forall a :: a in rest <==> exists i :: 1 <= i < |names| && FindAuthor(authors, names[i]) == Some(a)
  {
    forall a ensures a in rest <==> exists i :: 1 <= i < |names| && FindAuthor(authors, names[i]) == Some(a) {
      if a in rest {
        var k :| 0 <= k < |names[1..]| && FindAuthor(authors, names[1..][k]) == Some(a);
        assert FindAuthor(authors, names[k + 1]) == Some(a);
      }
      if exists i :: 1 <= i < |names| && FindAuthor(authors, names[i]) == Some(a) {
        var k :| 1 <= k < |names| && FindAuthor(authors, names[k]) == Some(a);
        assert names[1..][k - 1] == names[k];
      }
    }
  }

  lemma AuthorDataCons(names: seq<string>, authors: seq<Author>, found: Option<Author>, rest: seq<Author>)
    requires names != [] && found == FindAuthor(authors, names[0])
    requires forall a :: a in rest <==> exists i :: 0 <= i < |names[1..]| && FindAuthor(authors, names[1..][i]) == Some(a)
    ensures forall a :: a in (if found.Some? then [found.value] else []) + rest <==>
      exists i :: 0 <= i < |names| && FindAuthor(authors, names[i]) == Some(a)
  {
    AuthorDataShift(names, authors, rest);
    var head := if found.Some? then [found.value] else [];
    forall a ensures a in head + rest <==> exists i :: 0 <= i < |names| && FindAuthor(authors, names[i]) == Some(a) {
      assert a in head + rest <==> a in head || a in rest;
      if a in head {
        assert FindAuthor(authors, names[0]) == Some(a);
      }
      if exists i :: 0 <= i < |names| && FindAuthor(authors, names[i]) == Some(a) {
        var k :| 0 <= k < |names| && FindAuthor(authors, names[k]) == Some(a);
        if k == 0 {
          assert a in head;
        } else {
          assert a in rest;
        }
      }
    }
  }

  /** `bookAuthors.map(find).filter(Boolean)`: the rows found for the names, unmatched names dropped. */
  function AuthorData(names: seq<string>, authors: seq<Author>): (r: seq<Author>)
    ensures forall a :: a in r <==> exists i :: 0 <= i < |names| && FindAuthor(authors, names[i]) == Some(a)
  {
    if names == [] then []
    else
      var rest := AuthorData(names[1..], authors);
      var found := FindAuthor(authors, names[0]);
      AuthorDataCons(names, authors, found, rest);
      (if found.Some? then [found.value] else []) + rest
  }

  /** The filters that compare fields of the book itself. */
  predicate PerBook(f: Filters, b: Book)
  {
    && (|f.titulo| == 0 || Includes(ToLower(b.titulo), ToLower(f.titulo)))
    && (|f.autor| == 0 || Includes(ToLower(b.autor), ToLower(f.autor)))
    && (|f.publicacion| == 0 || Includes(b.publicacion, f.publicacion))
    && (|f.tipo| == 0 || b.tipo == f.tipo)
    && (|f.temas| == 0 || HasThemes(b.tema, f.temas))
    && (|f.idioma| == 0 || b.idioma == f.idioma)
    && (|f.original| == 0 || b.original == f.original)
    && (|f.saga| == 0 || Includes(ToLower(b.saga), ToLower(f.saga)))
    && (|f.editado| == 0 || b.editado == f.editado)
  }

  /** The filters that go through the author table: some found co-author has the selected sex and country. */
  predicate AuthorFilters(f: Filters, data: seq<Author>)
  {
    && (|f.sexo| == 0 || exists a :: a in data && a.sexo == f.sexo)
    && (|f.pais| == 0 || exists a :: a in data && a.pais == f.pais)
  }

  /** The `filteredData` predicate for one book. */
  predicate Matches(f: Filters, authors: seq<Author>, b: Book)
  {
    PerBook(f, b) && AuthorFilters(f, AuthorData(AuthorNames(b), authors))
  }

  function Matcher(f: Filters, authors: seq<Author>): Book -> bool
  {
    b => Matches(f, authors, b)
  }

  /** `filteredData`: the books that pass every filter, in table order, each with all its copies. */
  function FilteredData(books: seq<Book>, f: Filters, authors: seq<Author>): (r: seq<Book>)
    ensures IsSubsequence(r, books)
    ensures forall b :: b in r <==> b in books && Matches(f, authors, b)
    ensures forall b :: multiset(r)[b] == if Matches(f, authors, b) then multiset(books)[b] else 0
  {
    FilterIsSubsequence(books, Matcher(f, authors));
    forall b {
      FilterMultiset(books, Matcher(f, authors), b);
    }
    Filter(books, Matcher(f, authors))
  }

  /** With nothing selected every book is shown. */
  lemma DefaultsPassAll(books: seq<Book>, authors: seq<Author>)
    ensures FilteredData(books, DefaultFilters, authors) == books
  {
    FilterAll(books, Matcher(DefaultFilters, authors));
  }

  /** Filtering the filtered table again changes nothing. */
  lemma FilterTwice(books: seq<Book>, f: Filters, authors: seq<Author>)
    ensures FilteredData(FilteredData(books, f, authors), f, authors) == FilteredData(books, f, authors)
  {
    FilterIdempotent(books, Matcher(f, authors));
  }

  /** Every selected theme must be present: the themes filter is a conjunction. */
  lemma ThemesAreAllOf()
    ensures HasThemes("Drama, Historia", ["Drama", "Historia"])
    ensures !HasThemes("Drama, Historia", ["Drama", "Comedia"])
  {
    ExampleThemeList();
    HasThemesOf("Drama, Historia", ["Drama", "Historia"], ["Drama", "Historia"]);
    HasThemesOf("Drama, Historia", ["Drama", "Comedia"], ["Drama", "Historia"]);
    ComediaMissing();
    assert ["Drama", "Comedia"][1] !in ["Drama", "Historia"];
  }

  lemma ComediaMissing()
    ensures "Comedia" !in ["Drama", "Historia"]
  {
    assert |"Comedia"| != |"Drama"| && |"Comedia"| != |"Historia"|;
  }

  lemma HasThemesOf(tema: string, temas: seq<string>, list: seq<string>)
    requires ThemeList(tema) == list
    ensures HasThemes(tema, temas) <==> forall i :: 0 <= i < |temas| ==> temas[i] in list
  {
    if HasThemes(tema, temas) {
      forall i | 0 <= i < |temas| ensures temas[i] in list {
        assert temas[i] in temas;
      }
    }
    if forall i :: 0 <= i < |temas| ==> temas[i] in list {
      forall t | t in temas ensures t in ThemeList(tema) {
        var i :| 0 <= i < |temas| && temas[i] == t;
      }
    }
  }

  lemma ExampleThemeList()
    ensures ThemeList("Drama, Historia") == ["Drama", "Historia"]
  {
    ExampleSplit();
    ExampleTrim();
    TrimOfTrimmed("Drama");
    var pieces := ["Drama", " Historia"];
    assert TrimEach(pieces) == [Trim(pieces[0])] + TrimEach(pieces[1..]);
    assert TrimEach(pieces[1..]) == [Trim(" Historia")] + TrimEach([]);
  }

  lemma ExampleSplit()
    ensures Split("Drama, Historia", ',') == ["Drama", " Historia"]
  {
    var a, b := "Drama", " Historia";
    assert ',' !in a && ',' !in b;
    assert a + [','] + b == "Drama, Historia";
    SplitPrefix(a, b, ',');
    SplitNoSeparator(b, ',');
  }

  lemma ExampleTrim()
    ensures Trim(" Historia") == "Historia"
  {
    assert " Historia" == " " + "Historia";
    TrimStartOfBlankPrefix(" ", "Historia");
    TrimEndOfBlankSuffix("Historia", "");
    assert "Historia" + "" == "Historia";
  }

  /** `publicación` is a plain substring match of the year text. */
  lemma PublicationIsSubstring()
    ensures Includes("1983", "198") && Includes("1980", "198")
    ensures !Includes("1998", "198")
  {
    assert "1983"[..3] == "198";
    assert "1980"[..3] == "198";
    NotAt1998();
    IncludesAt("1998", "198");
  }

  lemma NotAt1998()
    ensures forall i :: !OccursAt("1998", "198", i)
  {
    assert "1998"[0..3] != "198" by {
      assert "1998"[0..3][2] == '9' && "198"[2] == '8';
    }
    assert "1998"[1..4] != "198" by {
      assert "1998"[1..4][0] == '9' && "198"[0] == '1';
    }

  }

  /** A book none of whose co-authors is in the author table fails an active sex or country filter. */
  lemma UnmatchedAuthorsFail(f: Filters, authors: seq<Author>, b: Book)
    requires forall i :: 0 <= i < |AuthorNames(b)| ==> FindAuthor(authors, AuthorNames(b)[i]).None?
    requires |f.sexo| > 0 || |f.pais| > 0
    ensures !Matches(f, authors, b)
  {
    var data := AuthorData(AuthorNames(b), authors);
    assert forall a :: a !in data;
  }

  /**
   * The sex filter is an existential join: it passes exactly when some
   * co-author's first matching row has the selected sex.
   */
  /** The `i`-th co-author of `b` has a row in the author table, and that row has sex `sexo`. */
  predicate CoAuthorHasSexo(authors: seq<Author>, b: Book, i: nat, sexo: string)
  {
    i < |AuthorNames(b)| && FindAuthor(authors, AuthorNames(b)[i]).Some? &&
    FindAuthor(authors, AuthorNames(b)[i]).value.sexo == sexo
  }

  /**
   * The sex filter is an existential join: with no country selected, it
   * passes exactly when some co-author's first matching row has the
   * selected sex.
   */
  lemma SexoJoin(f: Filters, authors: seq<Author>, b: Book)
    requires |f.sexo| > 0 && |f.pais| == 0
    ensures AuthorFilters(f, AuthorData(AuthorNames(b), authors)) <==>
      exists i: nat :: CoAuthorHasSexo(authors, b, i, f.sexo)
  {
    var names := AuthorNames(b);
    var data := AuthorData(names, authors);
    if exists i: nat :: CoAuthorHasSexo(authors, b, i, f.sexo) {
      var i: nat :| CoAuthorHasSexo(authors, b, i, f.sexo);
      assert FindAuthor(authors, names[i]).value in data;
    }
    if AuthorFilters(f, data) {
      var a :| a in data && a.sexo == f.sexo;
      var i :| 0 <= i < |names| && FindAuthor(authors, names[i]) == Some(a);
      assert CoAuthorHasSexo(authors, b, i, f.sexo);
    }
  }

  /**
   * `g` asks for less than `f`: each of its filters is cleared or the same
   * as `f`'s, and its themes are among `f`'s.
   */
  predicate Weaker(g: Filters, f: Filters)
  {
    && (|g.titulo| == 0 || g.titulo == f.titulo) && (|g.autor| == 0 || g.autor == f.autor)
    && (|g.publicacion| == 0 || g.publicacion == f.publicacion) && (|g.tipo| == 0 || g.tipo == f.tipo)
    && (forall t :: t in g.temas ==> t in f.temas)
    && (|g.idioma| == 0 || g.idioma == f.idioma) && (|g.original| == 0 || g.original == f.original)
    && (|g.saga| == 0 || g.saga == f.saga) && (|g.editado| == 0 || g.editado == f.editado)
    && (|g.sexo| == 0 || g.sexo == f.sexo) && (|g.pais| == 0 || g.pais == f.pais)
  }

  lemma WeakerPerBook(f: Filters, g: Filters, b: Book)
    requires Weaker(g, f) && PerBook(f, b)
    ensures PerBook(g, b)
  {
    if |g.temas| > 0 {
      assert g.temas[0] in f.temas;
    }
  }

  lemma WeakerMatches(f: Filters, g: Filters, authors: seq<Author>, b: Book)
    requires Weaker(g, f) && Matches(f, authors, b)
    ensures Matches(g, authors, b)
  {
    WeakerPerBook(f, g, b);
  }

  /**
   * Clearing filters only widens the result: filtering by `f` is filtering
   * by the weaker `g` and then by `f`, so `f`'s result is a subsequence of `g`'s.
   */
  lemma ClearingWidens(books: seq<Book>, f: Filters, g: Filters, authors: seq<Author>)
    requires Weaker(g, f)
    ensures FilteredData(FilteredData(books, g, authors), f, authors) == FilteredData(books, f, authors)
    ensures IsSubsequence(FilteredData(books, f, authors), FilteredData(books, g, authors))
  {
    forall b | Matcher(f, authors)(b) ensures Matcher(g, authors)(b) {
      WeakerMatches(f, g, authors, b);
    }
    FilterNarrow(books, Matcher(f, authors), Matcher(g, authors));
  }

  /** The `Tema` column. */
  function Temas(books: seq<Book>): (r: seq<string>)
    ensures |r| == |books| && forall i :: 0 <= i < |books| ==> r[i] == books[i].tema
  {
    Map(books, (b: Book) => b.tema)
  }

  /** `themesSet`: every non-empty trimmed theme of the table once, in code-unit order. */
  method ThemesSet(books: seq<Book>) returns (r: seq<string>)
    ensures r == SortBy(Dedup(AllThemes(Temas(books))), CodeUnitLe)
    ensures Sorted(CodeUnitLe, r) && NoDuplicates(r)
    ensures forall i :: 0 <= i < |r| ==> r[i] in AllThemes(Temas(books))
    ensures forall i :: 0 <= i < |AllThemes(Temas(books))| ==> AllThemes(Temas(books))[i] in r
  {
    r := Themes.ThemesSet(Temas(books));
  }

  /** The keys of `Book`, the fields `optionsSet` can be asked for. */
  datatype BookField =
    | Titulo | Autor | Publicacion | Tipo | Tema | Idioma | Original | Saga | Otros | Subido
    | Formato | Editado | Enlace | Id

  function FieldValue(b: Book, field: BookField): string
  {
    match field
    case Titulo => b.titulo
    case Autor => b.autor
    case Publicacion => b.publicacion
    case Tipo => b.tipo
    case Tema => b.tema
    case Idioma => b.idioma
    case Original => b.original
    case Saga => b.saga
    case Otros => b.otros
    case Subido => b.subido
    case Formato => b.formato
    case Editado => b.editado
    case Enlace => b.enlace
    case Id => b.id
  }

  /** The column of one field. */
  function Column(books: seq<Book>, field: BookField): (r: seq<string>)
    ensures |r| == |books| && forall i :: 0 <= i < |books| ==> r[i] == FieldValue(books[i], field)
  {
    Map(books, (b: Book) => FieldValue(b, field))
  }

  /** The key two values share when `optionsSet` treats them as one option. */
  function OptionKey(v: string): string
  {
    ToLower(Trim(Nfc(v)))
  }

  /** The entries of `optionsSet`'s Map, in insertion order. */
  datatype Entry = Entry(key: string, value: string)

  function EntryKeys(m: seq<Entry>): (r: seq<string>)
    ensures |r| == |m| && forall i :: 0 <= i < |m| ==> r[i] == m[i].key
  {
    Map(m, (e: Entry) => e.key)
  }

  function EntryValues(m: seq<Entry>): (r: seq<string>)
    ensures |r| == |m| && forall i :: 0 <= i < |m| ==> r[i] == m[i].value
  {
    Map(m, (e: Entry) => e.value)
  }

  /**
   * The Map after the given values, filled with "set `key(v)` to `shown(v)`
   * unless `key(v)` is already there".
   */
  function FirstByKey(values: seq<string>, key: string -> string, shown: string -> string): seq<Entry>
  {
    if values == [] then []
    else
      var m := FirstByKey(values[..|values| - 1], key, shown);
      var v := values[|values| - 1];
      if key(v) in EntryKeys(m) then m else m + [Entry(key(v), shown(v))]
  }

  lemma FirstByKeySnoc(values: seq<string>, v: string, key: string -> string, shown: string -> string)
    ensures FirstByKey(values + [v], key, shown) ==
      var m := FirstByKey(values, key, shown);
      if key(v) in EntryKeys(m) then m else m + [Entry(key(v), shown(v))]
  {
    assert (values + [v])[..|values|] == values;
  }

  /** The Map holds each key once, in the order the keys first appear. */
  lemma {:induction false} FirstByKeyKeys(values: seq<string>, key: string -> string, shown: string -> string)
    ensures EntryKeys(FirstByKey(values, key, shown)) == Dedup(Map(values, key))
  {
    if values != [] {
      var init := values[..|values| - 1];
      var v := values[|values| - 1];
      assert values == init + [v];
      FirstByKeyKeys(init, key, shown);
      FirstByKeySnoc(init, v, key, shown);
      MapSnoc(init, v, key);
      DedupSnoc(Map(init, key), key(v));
      DedupMembers(Map(init, key), key(v));
      var m := FirstByKey(init, key, shown);
      if key(v) !in EntryKeys(m) {
        EntryKeysSnoc(m, Entry(key(v), shown(v)));
      }
    }
  }

  lemma EntryKeysSnoc(m: seq<Entry>, e: Entry)
    ensures EntryKeys(m + [e]) == EntryKeys(m) + [e.key]
  {
    MapSnoc(m, e, (e: Entry) => e.key);
  }

  /** `values[j]` is the first value whose key is `key(values[j])`. */
  predicate FirstWithKey(values: seq<string>, key: string -> string, j: nat)
  {
    j < |values| && forall k :: 0 <= k < j ==> key(values[k]) != key(values[j])
  }

  /** Each entry is the key and shown form of the first value with that key. */
  lemma {:induction false} FirstByKeyValues(values: seq<string>, key: string -> string, shown: string -> string, i: nat)
    requires i < |FirstByKey(values, key, shown)|
    ensures exists j: nat :: (FirstWithKey(values, key, j) &&
      FirstByKey(values, key, shown)[i] == Entry(key(values[j]), shown(values[j])))
  {
    var init := values[..|values| - 1];
    var v := values[|values| - 1];
    assert values == init + [v];
    FirstByKeySnoc(init, v, key, shown);
    var m := FirstByKey(init, key, shown);
    if i < |m| {
      FirstByKeyValues(init, key, shown, i);
      var j: nat :| FirstWithKey(init, key, j) && m[i] == Entry(key(init[j]), shown(init[j]));
      assert forall k :: 0 <= k <= j ==> values[k] == init[k];
      assert FirstWithKey(values, key, j);
    } else {
      var j := |values| - 1;
      FirstByKeyKeys(init, key, shown);
      DedupMembers(Map(init, key), key(v));
      forall k | 0 <= k < j ensures key(values[k]) != key(values[j]) {
        assert values[k] == init[k];
        assert Map(init, key)[k] == key(init[k]);
      }
      assert FirstWithKey(values, key, j);
    }
  }

  /** The entries of `optionsSet`'s Map over a column: the normalised key, shown as the first value's trim. */
  function OptionEntries(values: seq<string>): seq<Entry>
  {
    FirstByKey(values, OptionKey, Trim)
  }

  /** The `forEach` that fills the Map: a new key gets its value, a key already present is left alone. */
  method FillByKey(values: seq<string>, key: string -> string, shown: string -> string) returns (entries: seq<Entry>)
    ensures entries == FirstByKey(values, key, shown)
  {
    entries := [];
    for i := 0 to |values|
      invariant entries == FirstByKey(values[..i], key, shown)
    {
      var value := values[i];
      var normalized := key(value);
      assert values[..i + 1] == values[..i] + [value];
      FirstByKeySnoc(values[..i], value, key, shown);
      if normalized !in EntryKeys(entries) {
        entries := entries + [Entry(normalized, shown(value))];
      }
    }
    assert values[..|values|] == values;
  }

  /**
   * `optionsSet(field)`: one option per key (NFC-normalised, trimmed,
   * lower-cased), shown as the trim of the first value with that key, in
   * code-unit order.
   */
  method OptionsSet(books: seq<Book>, field: BookField) returns (r: seq<string>)
    ensures r == SortBy(EntryValues(OptionEntries(Column(books, field))), CodeUnitLe)
    ensures Sorted(CodeUnitLe, r)
    ensures multiset(r) == multiset(EntryValues(OptionEntries(Column(books, field))))
  {
    var entries := FillByKey(Column(books, field), OptionKey, Trim);
    CodeUnitLeIsTotalPreorder();
    r := SortCopy(EntryValues(entries), CodeUnitLe);
    SortBySorted(EntryValues(entries), CodeUnitLe);
  }

  /** The options are one per distinct key: the Map's keys are the column's keys without repeats. */
  lemma OptionKeysDistinct(values: seq<string>)
    ensures EntryKeys(OptionEntries(values)) == Dedup(Map(values, OptionKey))
  {
    FirstByKeyKeys(values, OptionKey, Trim);
  }

  /** Each option is the trim of the first value carrying its key. */
  lemma OptionIsFirstValue(values: seq<string>, i: nat)
    requires i < |OptionEntries(values)|
    ensures exists j: nat :: (FirstWithKey(values, OptionKey, j) &&
      OptionEntries(values)[i] == Entry(OptionKey(values[j]), Trim(values[j])))
  {
    FirstByKeyValues(values, OptionKey, Trim, i);
  }

  /** `a[sortConfig.key]`: the text a sortable column holds. */
  function SortColumn(b: Book, key: TableSort.SortKey): string
  {
    match key
    case Titulo => b.titulo
    case Autor => b.autor
    case Publicacion => b.publicacion
    case Tipo => b.tipo
  }

  /** `sortedData`: the filtered books, sorted by the configured column when there is one. */
  method SortedBooks(rows: seq<Book>, config: Option<TableSort.SortConfig>, collate: (string, string) -> bool)
    returns (r: seq<Book>)
    requires TotalPreorder(collate)
    ensures config.None? ==> r == rows
    ensures config.Some? ==> r == SortBy(rows, TableSort.Comparator(config.value, SortColumn, collate))
    ensures multiset(r) == multiset(rows)
    ensures config.Some? ==> Sorted(TableSort.Comparator(config.value, SortColumn, collate), r)
  {
    r := TableSort.SortedData(rows, config, SortColumn, collate);
  }
}
