/**
 * The aggregations behind the statistics page (components/GenerateGraphics.tsx):
 * uploads per month, publications per year, category pies and the top themes.
 * Count tables are filled in loops exactly as the page's `forEach` callbacks
 * fill its records; each method is proved against the occurrence counts of the
 * values it is given.
 */
module Statistics {
  import opened Wrappers
  import opened Seqs
  import opened Tally
  import opened Ordering
  import opened JsString
  import opened JsNumber
  import opened JsDate
  import opened Themes

  /** The fields of a book record that the page reads; a missing field is "". */
  datatype Book = Book(
    titulo: string, subido: string, publicacion: string,
    tipo: string, idioma: string, original: string, tema: string)

  /**
   * `keys` and `counts` are a bar chart of `xs`: the distinct values in the
   * default `sort()` order, each with its number of occurrences.
   */
  predicate CountChart(keys: seq<string>, counts: seq<nat>, xs: seq<string>)
  {
    && Sorted(CodeUnitLe, keys)
    && NoDuplicates(keys)
    && (forall i :: 0 <= i < |keys| ==> keys[i] in xs)
    && (forall i :: 0 <= i < |xs| ==> xs[i] in keys)
    && |counts| == |keys|
    && (forall i :: 0 <= i < |keys| ==> counts[i] == Count(xs, keys[i]) >= 1)
    && Sum(counts) == |xs|
  }

  lemma TallyOfSnoc<K>(xs: seq<K>, x: K)
    ensures TallyOf(xs + [x]) == Bump(TallyOf(xs), x)
  {
    assert (xs + [x])[..|xs|] == xs;
  }

  /** Sorting a tally's keys and reading their counts gives its chart. */
  lemma SortedTallyIsChart(xs: seq<string>, keys: seq<string>, counts: seq<nat>)
    requires keys == SortBy(Keys(TallyOf(xs)), CodeUnitLe)
    requires |counts| == |keys|
    requires forall i :: 0 <= i < |keys| ==> counts[i] == Lookup(TallyOf(xs), keys[i])
    ensures CountChart(keys, counts, xs)
  {
    var t := TallyOf(xs);
    CodeUnitLeIsTotalPreorder();
    SortBySorted(Keys(t), CodeUnitLe);
    TallyKeys(xs);
    NoDuplicatesPermutation(Keys(t), keys);
    ChartMembership(xs, keys);
    forall i | 0 <= i < |keys| ensures counts[i] == Count(xs, keys[i]) >= 1 {
      TallyLookup(xs, keys[i]);
    }
    ChartSum(xs, keys, counts);
  }

  lemma ChartMembership(xs: seq<string>, keys: seq<string>)
    requires multiset(keys) == multiset(Dedup(xs))
    ensures forall i :: 0 <= i < |keys| ==> keys[i] in xs
    ensures forall i :: 0 <= i < |xs| ==> xs[i] in keys
  {
    forall i | 0 <= i < |keys| ensures keys[i] in xs {
      assert keys[i] in multiset(Dedup(xs));
    }
    forall i | 0 <= i < |xs| ensures xs[i] in keys {
      assert xs[i] in Dedup(xs);
      assert xs[i] in multiset(keys);
    }
  }

  lemma ChartSum(xs: seq<string>, keys: seq<string>, counts: seq<nat>)
    requires multiset(keys) == multiset(Keys(TallyOf(xs)))
    requires |counts| == |keys|
    requires forall i :: 0 <= i < |keys| ==> counts[i] == Lookup(TallyOf(xs), keys[i])
    ensures Sum(counts) == |xs|
  {
    var t := TallyOf(xs);
    var f := k => Lookup(t, k);
    assert counts == Map(keys, f);
    SumMapPermutation(keys, Keys(t), f);
    TallyKeys(xs);
    LookupKeys(t, f);
    TallySum(xs);
  }

  /** `Object.keys(conteo).sort()` and `.map((k) => conteo[k])`. */
  method ChartOf(conteo: seq<Entry<string>>, ghost xs: seq<string>) returns (keys: seq<string>, counts: seq<nat>)
    requires conteo == TallyOf(xs)
    ensures keys == SortBy(Dedup(xs), CodeUnitLe)
    ensures CountChart(keys, counts, xs)
  {
    keys := SortCodeUnits(Keys(conteo));
    counts := Map(keys, k => Lookup(conteo, k));
    TallyKeys(xs);
    SortedTallyIsChart(xs, keys, counts);
  }

  // ---------------------------------------------------------------------
  // generarDatosPorAño
  // ---------------------------------------------------------------------

  /** `año && !isNaN(Number(año))`. */
  predicate IsYear(a: string)
  {
    a != "" && IsNumeric(a)
  }

  /** `generarDatosPorAño`: counts of the non-empty numeric items, by value. */
  method GenerarDatosPorAnio(items: seq<string>) returns (anios: seq<string>, cantidades: seq<nat>)
    ensures anios == SortBy(Dedup(Filter(items, IsYear)), CodeUnitLe)
    ensures CountChart(anios, cantidades, Filter(items, IsYear))
  {
    var conteo: seq<Entry<string>> := [];
    for i := 0 to |items|
      invariant conteo == TallyOf(Filter(items[..i], IsYear))
    {
      ghost var before := Filter(items[..i], IsYear);
      FilterPrefixStep(items, i, IsYear);
      if items[i] != "" && IsNumeric(items[i]) {
        assert Filter(items[..i + 1], IsYear) == before + [items[i]];
        TallyOfSnoc(before, items[i]);
        conteo := Bump(conteo, items[i]);
      } else {
        assert Filter(items[..i + 1], IsYear) == before;
      }
    }
    assert items[..|items|] == items;
    anios, cantidades := ChartOf(conteo, Filter(items, IsYear));
  }

  // ---------------------------------------------------------------------
  // generarDatosPie
  // ---------------------------------------------------------------------

  /** `valor.trim() || "Sin especificar"`. */
  function PieKey(valor: string): (k: string)
    ensures |k| > 0 && IsTrimmed(k)
  {
    if |Trim(valor)| == 0 then "Sin especificar" else Trim(valor)
  }

  /** Blank values, and only they, go to the "Sin especificar" slice (unless written out). */
  lemma PieKeyOfBlank(valor: string)
    ensures IsBlank(valor) ==> PieKey(valor) == "Sin especificar"
    ensures !IsBlank(valor) ==> PieKey(valor) == Trim(valor)
  {
    TrimIsEmptyIffBlank(valor);
  }

  /** The keys the pie counts, one per item. */
  function PieKeys(items: seq<string>): (ks: seq<string>)
    ensures |ks| == |items|
  {
    if items == [] then [] else PieKeys(items[..|items| - 1]) + [PieKey(items[|items| - 1])]
  }

  lemma {:induction false} PieKeysAt(items: seq<string>, k: nat)
    requires k < |items|
    ensures PieKeys(items)[k] == PieKey(items[k])
  {
    var p := items[..|items| - 1];
    assert PieKeys(items) == PieKeys(p) + [PieKey(items[|items| - 1])];
    if k < |p| {
      PieKeysAt(p, k);
      assert p[k] == items[k];
    }
  }

  /**
   * The pie of `items`: one label per distinct key in first-seen order, each
   * non-blank and trimmed, with its number of occurrences; the counts add up
   * to the number of items.
   */
  predicate IsPieChart(items: seq<string>, labels: seq<string>, data: seq<nat>)
  {
    && labels == Dedup(PieKeys(items))
    && |data| == |labels|
    && (forall i :: 0 <= i < |labels| ==> data[i] == Count(PieKeys(items), labels[i]) >= 1)
    && Sum(data) == |items|
    && (forall i :: 0 <= i < |labels| ==> |labels[i]| > 0 && IsTrimmed(labels[i]))
  }

  /** The tally of the pie keys is the pie. */
  lemma PieFacts(items: seq<string>)
    ensures IsPieChart(items, Keys(TallyOf(PieKeys(items))), Counts(TallyOf(PieKeys(items))))
  {
    var ks := PieKeys(items);
    var labels, data := Keys(TallyOf(ks)), Counts(TallyOf(ks));
    assert labels == Dedup(ks) by {
      TallyKeys(ks);
    }
    assert Sum(data) == |items| by {
      TallySum(ks);
    }
    PieCounts(ks, labels, data);
    PieLabels(items, labels);
  }

  /** `generarDatosPie`: the pie's labels in first-seen order and their counts. */
  method GenerarDatosPie(items: seq<string>) returns (labels: seq<string>, data: seq<nat>)
    ensures IsPieChart(items, labels, data)
  {
    var conteo: seq<Entry<string>> := [];
    for i := 0 to |items|
      invariant conteo == TallyOf(PieKeys(items[..i]))
    {
      ghost var before := PieKeys(items[..i]);
      var clave := PieKey(items[i]);
      assert items[..i + 1][..i] == items[..i];
      assert PieKeys(items[..i + 1]) == before + [clave];
      TallyOfSnoc(before, clave);
      conteo := Bump(conteo, clave);
    }
    assert items[..|items|] == items;
    labels := Keys(conteo);
    data := Counts(conteo);
    PieFacts(items);
  }

  lemma PieCounts(ks: seq<string>, labels: seq<string>, data: seq<nat>)
    requires labels == Keys(TallyOf(ks)) && data == Counts(TallyOf(ks))
    ensures forall i :: 0 <= i < |labels| ==> data[i] == Count(ks, labels[i]) >= 1
  {
    var t := TallyOf(ks);
    TallyEntries(ks);
    forall i | 0 <= i < |labels| ensures data[i] == Count(ks, labels[i]) >= 1 {
      assert labels[i] == t[i].key && data[i] == t[i].count;
    }
  }

  lemma PieLabels(items: seq<string>, labels: seq<string>)
    requires labels == Keys(TallyOf(PieKeys(items)))
    ensures forall i :: 0 <= i < |labels| ==> |labels[i]| > 0 && IsTrimmed(labels[i])
  {
    TallyKeys(PieKeys(items));
    forall i | 0 <= i < |labels| ensures |labels[i]| > 0 && IsTrimmed(labels[i]) {
      assert labels[i] in PieKeys(items);
      PieKeyShape(items, labels[i]);
    }
  }

  lemma PieKeyShape(items: seq<string>, key: string)
    requires key in PieKeys(items)
    ensures |key| > 0 && IsTrimmed(key)
  {
    var k :| 0 <= k < |items| && PieKeys(items)[k] == key;
    PieKeysAt(items, k);
  }

  // ---------------------------------------------------------------------
  // Uploads per month
  // ---------------------------------------------------------------------

  /** The month key of a book's upload date, or null when it has none. */
  function MonthOf(b: Book): Option<string>
  {
    match ParseFechaSubida(b.subido)
    case None => None
    case Some(d) => Some(MonthKey(d))
  }

  /** `.filter((a): a is string => !!a)` over the mapped keys: the values present, in order. */
  function Present<U>(s: seq<Option<U>>): seq<U>
  {
    if s == [] then []
    else
      var p := Present(s[..|s| - 1]);
      match s[|s| - 1]
      case None => p
      case Some(v) => p + [v]
  }

  lemma PresentSnoc<U>(s: seq<Option<U>>, x: Option<U>)
    ensures Present(s + [x]) == Present(s) + (if x.Some? then [x.value] else [])
  {
    assert (s + [x])[..|s|] == s;
  }

  /** One value is present for each element `f` gives a value for. */
  lemma {:induction false} PresentOfMap<T, U>(s: seq<T>, f: T -> Option<U>, p: T -> bool)
    requires forall x :: p(x) <==> f(x).Some?
    ensures |Present(Map(s, f))| == |Filter(s, p)|
  {
    if s != [] {
      var init, x := s[..|s| - 1], s[|s| - 1];
      assert s == init + [x];
      PresentOfMap(init, f, p);
      MapSnoc(init, x, f);
      PresentSnoc(Map(init, f), f(x));
      FilterAppend(init, [x], p);
      FilterSingleton(x, p);
    }
  }

  /** `subidasMeses`: the month keys of the books that have an upload date. */
  function SubidasMeses(books: seq<Book>): seq<string>
  {
    Present(Map(books, MonthOf))
  }

  lemma SubidasMesesSnoc(books: seq<Book>, b: Book)
    ensures SubidasMeses(books + [b]) == SubidasMeses(books) + (if MonthOf(b).Some? then [MonthOf(b).value] else [])
  {
    MapSnoc(books, b, MonthOf);
    PresentSnoc(Map(books, MonthOf), MonthOf(b));
  }

  /** `mesesOrdenados` and `cantidadesMeses`: uploads counted per month. */
  method ConteoMeses(books: seq<Book>) returns (meses: seq<string>, cantidades: seq<nat>)
    ensures meses == SortBy(Dedup(SubidasMeses(books)), CodeUnitLe)
    ensures CountChart(meses, cantidades, SubidasMeses(books))
  {
    var subidas := SubidasMeses(books);
    var conteo: seq<Entry<string>> := [];
    for i := 0 to |subidas|
      invariant conteo == TallyOf(subidas[..i])
    {
      assert subidas[..i + 1] == subidas[..i] + [subidas[i]];
      TallyOfSnoc(subidas[..i], subidas[i]);
      conteo := Bump(conteo, subidas[i]);
    }
    assert subidas[..|subidas|] == subidas;
    meses, cantidades := ChartOf(conteo, subidas);
  }

  predicate HasUploadDate(b: Book)
  {
    MonthOf(b).Some?
  }

  /** Each counted upload is one book with a parsed date: the counts add up to those books. */
  lemma SubidasMesesLength(books: seq<Book>)
    ensures |SubidasMeses(books)| == |Filter(books, HasUploadDate)|
  {
    PresentOfMap(books, MonthOf, HasUploadDate);
  }

  // ---------------------------------------------------------------------
  // Publications per year, years with at least two books
  // ---------------------------------------------------------------------

  /** A (year, count) pair the publication chart keeps. */
  predicate Frequent(p: (string, nat))
  {
    p.1 >= 2
  }

  /**
   * The `añosPublicacionRaw.forEach` filter: a year is kept, with its count,
   * when the count at the same index is at least 2.
   */
  method FiltrarFrecuentes(anios: seq<string>, cantidades: seq<nat>) returns (kept: seq<string>, counts: seq<nat>)
    ensures |kept| == |counts|
    ensures Zip(kept, counts) == Filter(Zip(anios, cantidades), Frequent)
  {
    kept, counts := [], [];
    for i := 0 to |anios|
      invariant |kept| == |counts|
      invariant Zip(kept, counts) == Filter(Zip(anios[..i], cantidades), Frequent)
    {
      ghost var before := Filter(Zip(anios[..i], cantidades), Frequent);
      assert anios[..i + 1] == anios[..i] + [anios[i]];
      ZipSnoc(anios[..i], anios[i], cantidades);
      if i < |cantidades| {
        FilterSnoc(Zip(anios[..i], cantidades), (anios[i], cantidades[i]), Frequent);
      } else {
        assert Zip(anios[..i + 1], cantidades) == Zip(anios[..i], cantidades);
      }
      if i < |cantidades| && cantidades[i] >= 2 {
        ZipSnocBoth(kept, anios[i], counts, cantidades[i]);
        kept := kept + [anios[i]];
        counts := counts + [cantidades[i]];
        assert Zip(kept, counts) == before + [(anios[i], cantidades[i])];
      }
    }
    assert anios[..|anios|] == anios;
  }

  /** `p` comes strictly before `q` in the default order of their keys. */
  predicate KeyBefore(p: (string, nat), q: (string, nat))
  {
    !CodeUnitLe(q.0, p.0)
  }

  lemma FrequentCounts(raw: seq<string>, rawCounts: seq<nat>, xs: seq<string>, labels: seq<string>, data: seq<nat>)
    requires CountChart(raw, rawCounts, xs)
    requires |labels| == |data|
    requires Zip(labels, data) == Filter(Zip(raw, rawCounts), Frequent)
    ensures forall j :: 0 <= j < |labels| ==> data[j] == Count(xs, labels[j]) >= 2
  {
    var z := Zip(raw, rawCounts);
    var fz := Zip(labels, data);
    forall j | 0 <= j < |labels| ensures data[j] == Count(xs, labels[j]) >= 2 {
      assert fz[j] in z;
      var i :| 0 <= i < |z| && z[i] == fz[j];
      ZipAt(labels, data, j);
      ZipAt(raw, rawCounts, i);
    }
  }

  lemma FrequentComplete(raw: seq<string>, rawCounts: seq<nat>, xs: seq<string>, labels: seq<string>, data: seq<nat>, y: string)
    requires CountChart(raw, rawCounts, xs)
    requires |labels| == |data|
    requires Zip(labels, data) == Filter(Zip(raw, rawCounts), Frequent)
    requires Count(xs, y) >= 2
    ensures y in labels
  {
    var z := Zip(raw, rawCounts);
    var fz := Zip(labels, data);
    var k :| 0 <= k < |xs| && xs[k] == y;
    assert xs[k] in raw;
    var i :| 0 <= i < |raw| && raw[i] == y;
    ZipAt(raw, rawCounts, i);
    assert Frequent(z[i]);
    assert z[i] in fz;
    var j :| 0 <= j < |fz| && fz[j] == z[i];
    ZipAt(labels, data, j);
    assert labels[j] == y;
  }

  lemma FrequentSorted(raw: seq<string>, rawCounts: seq<nat>, labels: seq<string>, data: seq<nat>)
    requires Sorted(CodeUnitLe, raw) && NoDuplicates(raw)
    requires |labels| == |data|
    requires Zip(labels, data) == Filter(Zip(raw, rawCounts), Frequent)
    ensures Sorted(CodeUnitLe, labels) && NoDuplicates(labels)
  {
    var z := Zip(raw, rawCounts);
    var fz := Zip(labels, data);
    SortedDistinctIsStrict(raw);
    assert Sorted(KeyBefore, z) by {
      forall i, j | 0 <= i < j < |z| ensures KeyBefore(z[i], z[j]) {
        ZipAt(raw, rawCounts, i);
        ZipAt(raw, rawCounts, j);
      }
    }
    FilterSorted(KeyBefore, z, Frequent);
    CodeUnitLeIsTotalPreorder();
    forall i, j | 0 <= i < j < |labels| ensures CodeUnitLe(labels[i], labels[j]) && labels[i] != labels[j] {
      assert KeyBefore(fz[i], fz[j]);
      ZipAt(labels, data, i);
      ZipAt(labels, data, j);
    }
  }

  /** Keeping the frequent entries of a chart gives the chart of the frequent values. */
  lemma FrequentOfChart(raw: seq<string>, rawCounts: seq<nat>, xs: seq<string>, labels: seq<string>, data: seq<nat>)
    requires CountChart(raw, rawCounts, xs)
    requires |labels| == |data|
    requires Zip(labels, data) == Filter(Zip(raw, rawCounts), Frequent)
    ensures Sorted(CodeUnitLe, labels) && NoDuplicates(labels)
    ensures forall y :: y in labels <==> Count(xs, y) >= 2
    ensures forall i :: 0 <= i < |labels| ==> data[i] == Count(xs, labels[i])
  {
    FrequentCounts(raw, rawCounts, xs, labels, data);
    forall y | Count(xs, y) >= 2 ensures y in labels {
      FrequentComplete(raw, rawCounts, xs, labels, data, y);
    }
    FrequentSorted(raw, rawCounts, labels, data);
  }

  /** `book.Publicación?.trim()`, kept when it is a non-empty numeric string. */
  function Publicaciones(books: seq<Book>): seq<string>
  {
    if books == [] then []
    else
      var a := Trim(books[|books| - 1].publicacion);
      Publicaciones(books[..|books| - 1]) + if IsYear(a) then [a] else []
  }

  lemma {:induction false} PublicacionesAreYears(books: seq<Book>)
    ensures forall i :: 0 <= i < |Publicaciones(books)| ==> IsYear(Publicaciones(books)[i])
  {
    if books != [] {
      PublicacionesAreYears(books[..|books| - 1]);
    }
  }

  /**
   * The publication chart: exactly the publication years shared by at least
   * two books, in ascending order, each with its number of books.
   */
  method PublicationChart(books: seq<Book>) returns (labels: seq<string>, data: seq<nat>)
    ensures Sorted(CodeUnitLe, labels) && NoDuplicates(labels)
    ensures forall y :: y in labels <==> Count(Publicaciones(books), y) >= 2
    ensures |data| == |labels|
    ensures forall i :: 0 <= i < |labels| ==> data[i] == Count(Publicaciones(books), labels[i])
  {
    var pubs := Publicaciones(books);
    var raw, rawCounts := GenerarDatosPorAnio(pubs);
    PublicacionesAreYears(books);
    FilterAll(pubs, IsYear);
    labels, data := FiltrarFrecuentes(raw, rawCounts);
    FrequentOfChart(raw, rawCounts, pubs, labels, data);
  }

  // ---------------------------------------------------------------------
  // generarDatosTopTemas
  // ---------------------------------------------------------------------

  /** `(a, b) => b[1] - a[1]` is at most 0: `a` is at least as frequent as `b`. */
  predicate MoreFrequent(a: Entry<string>, b: Entry<string>)
  {
    b.count <= a.count
  }

  lemma MoreFrequentIsTotalPreorder()
    ensures TotalPreorder(MoreFrequent)
  {
  }

  function Min(a: nat, b: nat): nat
  {
    if a <= b then a else b
  }

  /**
   * The table `generarDatosTopTemas` draws: the theme counts by decreasing
   * count, ties in first-seen order, cut to the first `topN`.
   */
  function Top(toks: seq<string>, topN: nat): seq<Entry<string>>
  {
    var ranked := SortBy(TallyOf(toks), MoreFrequent);
    ranked[..Min(topN, |ranked|)]
  }

  /**
   * What a top-N chart of `toks` promises: distinct labels drawn from `toks`
   * with their numbers of occurrences, by non-increasing count, and no theme
   * left out that is more frequent than the last one shown.
   */
  predicate TopChart(toks: seq<string>, topN: nat, labels: seq<string>, data: seq<nat>)
  {
    && |labels| == |data| <= topN
    && NoDuplicates(labels)
    && (forall i :: 0 <= i < |labels| ==> labels[i] in toks && data[i] == Count(toks, labels[i]) >= 1)
    && (forall i, j :: 0 <= i < j < |data| ==> data[i] >= data[j])
    && (forall t :: t in toks && t !in labels ==>
          |labels| == topN && (topN > 0 ==> Count(toks, t) <= data[topN - 1]))
  }

  /** Counting one more run of themes into a tally. */
  method BumpAll(conteo: seq<Entry<string>>, temas: seq<string>, ghost before: seq<string>)
    returns (r: seq<Entry<string>>)
    requires conteo == TallyOf(before)
    ensures r == TallyOf(before + temas)
  {
    r := conteo;
    assert before + temas[..0] == before;
    for j := 0 to |temas|
      invariant r == TallyOf(before + temas[..j])
    {
      assert before + temas[..j + 1] == (before + temas[..j]) + [temas[j]];
      TallyOfSnoc(before + temas[..j], temas[j]);
      r := Bump(r, temas[j]);
    }
    assert temas[..|temas|] == temas;
  }

  /** The theme table of `generarDatosTopTemas`, in first-seen order. */
  method ConteoTemas(items: seq<string>) returns (conteo: seq<Entry<string>>)
    ensures conteo == TallyOf(AllThemes(items))
  {
    conteo := [];
    for i := 0 to |items|
      invariant conteo == TallyOf(AllThemes(items[..i]))
    {
      assert items[..i + 1][..i] == items[..i];
      conteo := BumpAll(conteo, ThemesOf(items[i]), AllThemes(items[..i]));
    }
    assert items[..|items|] == items;
  }

  /** `generarDatosTopTemas(items, topN)`, as labels and data. */
  method GenerarDatosTopTemas(items: seq<string>, topN: nat) returns (labels: seq<string>, data: seq<nat>)
    ensures labels == Keys(Top(AllThemes(items), topN))
    ensures data == Counts(Top(AllThemes(items), topN))
    ensures TopChart(AllThemes(items), topN, labels, data)
  {
    var conteo := ConteoTemas(items);
    MoreFrequentIsTotalPreorder();
    var ranked := SortCopy(conteo, MoreFrequent);
    var top := ranked[..if topN < |ranked| then topN else |ranked|];
    labels := Keys(top);
    data := Counts(top);
    TopFacts(AllThemes(items), topN);
  }

  lemma TopFacts(toks: seq<string>, topN: nat)
    ensures TopChart(toks, topN, Keys(Top(toks, topN)), Counts(Top(toks, topN)))
  {
    var ranked := SortBy(TallyOf(toks), MoreFrequent);
    var top := Top(toks, topN);
    assert top == ranked[..Min(topN, |ranked|)];
    var labels, data := Keys(top), Counts(top);
    MoreFrequentIsTotalPreorder();
    SortBySorted(TallyOf(toks), MoreFrequent);
    PermutedTally(toks, ranked);
    TopPrefix(toks, ranked, top);
    forall t | t in toks && t !in labels
      ensures |labels| == topN && (topN > 0 ==> Count(toks, t) <= data[topN - 1])
    {
      var k :| 0 <= k < |ranked| && ranked[k].key == t;
      TopComplete(ranked, topN, k);
    }
  }

  /** A prefix of a ranking keeps its distinct keys, its counts and its order. */
  lemma TopPrefix(toks: seq<string>, ranked: seq<Entry<string>>, top: seq<Entry<string>>)
    requires NoDuplicates(Keys(ranked))
    requires forall i :: 0 <= i < |ranked| ==> ranked[i].key in toks && ranked[i].count == Count(toks, ranked[i].key) >= 1
    requires Sorted(MoreFrequent, ranked)
    requires |top| <= |ranked| && top == ranked[..|top|]
    ensures NoDuplicates(Keys(top))
    ensures forall i :: 0 <= i < |top| ==> Keys(top)[i] in toks && Counts(top)[i] == Count(toks, Keys(top)[i]) >= 1
    ensures forall i, j :: 0 <= i < j < |top| ==> Counts(top)[i] >= Counts(top)[j]
  {
    forall i, j | 0 <= i < j < |top| ensures Keys(top)[i] != Keys(top)[j] {
      assert Keys(ranked)[i] != Keys(ranked)[j];
    }
    forall i, j | 0 <= i < j < |top| ensures Counts(top)[i] >= Counts(top)[j] {
      assert MoreFrequent(ranked[i], ranked[j]);
    }
  }

  /** No entry outside the first `topN` of a ranking counts more than the last of them. */
  lemma TopComplete(ranked: seq<Entry<string>>, topN: nat, k: nat)
    requires Sorted(MoreFrequent, ranked)
    requires k < |ranked| && ranked[k].key !in Keys(ranked[..Min(topN, |ranked|)])
    ensures Min(topN, |ranked|) == topN
    ensures topN > 0 ==> ranked[k].count <= ranked[topN - 1].count
  {
    var top := ranked[..Min(topN, |ranked|)];
    assert k >= |top|;
    if topN > 0 {
      assert MoreFrequent(ranked[topN - 1], ranked[k]);
    }
  }

  /**
   * Any reordering of a tally of `toks` holds each theme of `toks` exactly once,
   * with its number of occurrences.
   */
  lemma PermutedTally(toks: seq<string>, r: seq<Entry<string>>)
    requires multiset(r) == multiset(TallyOf(toks))
    ensures NoDuplicates(Keys(r))
    ensures forall i :: 0 <= i < |r| ==> r[i].key in toks && r[i].count == Count(toks, r[i].key) >= 1
    ensures forall t :: t in toks ==> exists k :: 0 <= k < |r| && r[k].key == t
  {
    forall i | 0 <= i < |r| ensures r[i].key in toks && r[i].count == Count(toks, r[i].key) >= 1 {
      PermutedEntry(toks, r, i);
    }
    assert NoDuplicates(Keys(r)) by {
      TallyKeys(toks);
      forall i, j | 0 <= i < j < |r| ensures Keys(r)[i] != Keys(r)[j] {
        KeysDistinctAfterPermutation(TallyOf(toks), r, i, j);
      }
    }
    forall t | t in toks ensures exists k :: 0 <= k < |r| && r[k].key == t {
      var k := PermutedPosition(toks, r, t);
    }
  }

  lemma PermutedEntry(toks: seq<string>, r: seq<Entry<string>>, i: nat)
    requires multiset(r) == multiset(TallyOf(toks))
    requires i < |r|
    ensures r[i].key in toks && r[i].count == Count(toks, r[i].key) >= 1
  {
    var tally := TallyOf(toks);
    TallyKeys(toks);
    TallyEntries(toks);
    assert r[i] in multiset(tally);
    var a :| 0 <= a < |tally| && tally[a] == r[i];
    assert Keys(tally)[a] in Dedup(toks);
  }

  lemma PermutedPosition(toks: seq<string>, r: seq<Entry<string>>, t: string) returns (k: nat)
    requires multiset(r) == multiset(TallyOf(toks))
    requires t in toks
    ensures k < |r| && r[k].key == t
  {
    var tally := TallyOf(toks);
    TallyKeys(toks);
    var a :| 0 <= a < |toks| && toks[a] == t;
    assert t in Dedup(toks);
    var b :| 0 <= b < |tally| && Keys(tally)[b] == t;
    assert tally[b] in multiset(r);
    k :| 0 <= k < |r| && r[k] == tally[b];
  }

  lemma KeysDistinctAfterPermutation(t: seq<Entry<string>>, r: seq<Entry<string>>, i: nat, j: nat)
    requires NoDuplicates(Keys(t)) && multiset(r) == multiset(t)
    requires i < j < |r|
    ensures r[i].key != r[j].key
  {
    NoDuplicatesEntries(t);
    NoDuplicatesPermutation(t, r);
    assert r[i] in multiset(t) && r[j] in multiset(t);
    var a :| 0 <= a < |t| && t[a] == r[i];
    var b :| 0 <= b < |t| && t[b] == r[j];
    assert a != b;
    if a < b {
      assert Keys(t)[a] != Keys(t)[b];
    } else {
      assert Keys(t)[b] != Keys(t)[a];
    }
  }

  lemma NoDuplicatesEntries(t: seq<Entry<string>>)
    requires NoDuplicates(Keys(t))
    ensures NoDuplicates(t)
  {
    forall i, j | 0 <= i < j < |t| ensures t[i] != t[j] {
      assert Keys(t)[i] != Keys(t)[j];
    }
  }

  // ---------------------------------------------------------------------
  // Upload series by type
  // ---------------------------------------------------------------------

  /** `book.Tipo?.trim() || "Sin especificar"`. */
  function TipoDe(b: Book): string
  {
    PieKey(b.tipo)
  }

  /** The type of every book, in order. */
  function TiposDe(books: seq<Book>): (r: seq<string>)
    ensures |r| == |books|
    ensures forall i :: 0 <= i < |books| ==> r[i] == TipoDe(books[i])
  {
    if books == [] then [] else TiposDe(books[..|books| - 1]) + [TipoDe(books[|books| - 1])]
  }

  /**
   * `tiposUnicos`: `Array.from(new Set(...)).sort()`, each type once, in
   * code-unit order, exactly the types some book has.
   */
  function TiposUnicos(books: seq<Book>): (r: seq<string>)
    ensures Sorted(CodeUnitLe, r) && NoDuplicates(r)
    ensures forall i :: 0 <= i < |r| ==> r[i] in TiposDe(books)
    ensures forall j :: 0 <= j < |books| ==> TipoDe(books[j]) in r
  {
    var tipos := TiposDe(books);
    DistinctSorted(tipos);
    assert forall j :: 0 <= j < |books| ==> TipoDe(books[j]) == tipos[j];
    SortBy(Dedup(tipos), CodeUnitLe)
  }

  /** `prev.filter((t) => t !== tipo)`: the other entries, in their order, each as often as before. */
  function Without(prev: seq<string>, tipo: string): (r: seq<string>)
    ensures forall t :: t in r <==> t in prev && t != tipo
    ensures IsSubsequence(r, prev)
    ensures forall t :: multiset(r)[t] == if t == tipo then 0 else multiset(prev)[t]
  {
    if prev == [] then []
    else
      var rest := Without(prev[1..], tipo);
      assert prev == [prev[0]] + prev[1..];
      if prev[0] == tipo then
        assert IsSubsequence(rest, prev) by {
          if rest != [] {
            assert rest[0] in rest;
          }
        }
        rest
      else
        assert ([prev[0]] + rest)[1..] == rest;
        [prev[0]] + rest
  }

  /**
   * `toggleTipo`: a selected type is deselected, any other is appended; the
   * selection changes in exactly that one type.
   */
  function ToggleTipo(prev: seq<string>, tipo: string): (r: seq<string>)
    ensures forall t :: t in r <==> (t in prev <==> t != tipo)
    ensures tipo !in prev ==> r == prev + [tipo]
    ensures tipo in prev ==> IsSubsequence(r, prev) && forall t :: t != tipo ==> multiset(r)[t] == multiset(prev)[t]
  {
    if tipo in prev then Without(prev, tipo) else prev + [tipo]
  }

  lemma {:induction false} WithoutAbsent(prev: seq<string>, tipo: string)
    requires tipo !in prev
    ensures Without(prev, tipo) == prev
  {
    if prev != [] {
      WithoutAbsent(prev[1..], tipo);
    }
  }

  lemma {:induction false} WithoutNoDuplicates(prev: seq<string>, tipo: string)
    requires NoDuplicates(prev)
    ensures NoDuplicates(Without(prev, tipo))
  {
    if prev != [] {
      assert NoDuplicates(prev[1..]) by {
        forall i, j | 0 <= i < j < |prev| - 1 ensures prev[1..][i] != prev[1..][j] {
          assert prev[i + 1] != prev[j + 1];
        }
      }
      WithoutNoDuplicates(prev[1..], tipo);
      var rest := Without(prev[1..], tipo);
      if prev[0] != tipo {
        assert prev[0] !in rest;
        var r := [prev[0]] + rest;
        forall i, j | 0 <= i < j < |r| ensures r[i] != r[j] {
          if i == 0 {
            assert r[j] == rest[j - 1];
          } else {
            assert r[i] == rest[i - 1] && r[j] == rest[j - 1];
          }
        }
      } else {
        assert Without(prev, tipo) == rest;
      }
    }
  }

  /** Toggling keeps the selection free of repeats. */
  lemma ToggleTipoNoDuplicates(prev: seq<string>, tipo: string)
    requires NoDuplicates(prev)
    ensures NoDuplicates(ToggleTipo(prev, tipo))
  {
    if tipo in prev {
      WithoutNoDuplicates(prev, tipo);
    } else {
      var r := prev + [tipo];
      forall i, j | 0 <= i < j < |r| ensures r[i] != r[j] {
        if j == |prev| {
          assert r[i] == prev[i];
        } else {
          assert r[i] == prev[i] && r[j] == prev[j];
        }
      }
    }
  }

  /** Selecting a type and deselecting it again restores the selection. */
  lemma ToggleTipoTwice(prev: seq<string>, tipo: string)
    requires tipo !in prev
    ensures ToggleTipo(ToggleTipo(prev, tipo), tipo) == prev
  {
    var r := prev + [tipo];
    assert tipo in r;
    WithoutAbsent(prev, tipo);
    WithoutAppend(prev, [tipo], tipo);
  }

  lemma {:induction false} WithoutAppend(a: seq<string>, b: seq<string>, tipo: string)
    ensures Without(a + b, tipo) == Without(a, tipo) + Without(b, tipo)
  {
    if a == [] {
      assert a + b == b;
    } else {
      assert (a + b)[1..] == a[1..] + b;
      WithoutAppend(a[1..], b, tipo);
    }
  }

  /** The month keys of the dated books of one type. */
  function MesesDeTipo(books: seq<Book>, tipo: string): seq<string>
  {
    if books == [] then []
    else
      var p := books[..|books| - 1];
      var b := books[|books| - 1];
      if TipoDe(b) == tipo && MonthOf(b).Some? then MesesDeTipo(p, tipo) + [MonthOf(b).value]
      else MesesDeTipo(p, tipo)
  }

  lemma MesesDeTipoSnoc(books: seq<Book>, b: Book, tipo: string)
    ensures MesesDeTipo(books + [b], tipo) ==
      MesesDeTipo(books, tipo) + (if TipoDe(b) == tipo && MonthOf(b).Some? then [MonthOf(b).value] else [])
  {
    var s := books + [b];
    assert s != [] && s[..|s| - 1] == books && s[|s| - 1] == b;
  }

  lemma MesesDeTipoDated(books: seq<Book>, b: Book, mes: string, tipo: string)
    requires MonthOf(b) == Some(mes)
    ensures MesesDeTipo(books + [b], tipo) == MesesDeTipo(books, tipo) + (if TipoDe(b) == tipo then [mes] else [])
  {
    MesesDeTipoSnoc(books, b, tipo);
  }

  /** A type's uploads in a month never outnumber all uploads in that month. */
  lemma {:induction false} MesesDeTipoBound(books: seq<Book>, tipo: string, mes: string)
    ensures Count(MesesDeTipo(books, tipo), mes) <= Count(SubidasMeses(books), mes)
  {
    if books != [] {
      var p := books[..|books| - 1];
      var b := books[|books| - 1];
      assert p + [b] == books;
      MesesDeTipoBound(p, tipo, mes);
      MesesDeTipoSnoc(p, b, tipo);
      SubidasMesesSnoc(p, b);
      CountAppend(MesesDeTipo(p, tipo), if TipoDe(b) == tipo && MonthOf(b).Some? then [MonthOf(b).value] else [], mes);
      CountAppend(SubidasMeses(p), if MonthOf(b).Some? then [MonthOf(b).value] else [], mes);
    }
  }

  /**
   * `subidasPorTipo`: for every type with a dated book, the number of its
   * uploads per month; no other type and no other month is present.
   */
  ghost predicate IsSubidasPorTipo(m: map<string, map<string, nat>>, books: seq<Book>)
  {
    IsNestedTally(m, (tipo: string) => MesesDeTipo(books, tipo))
  }

  /** `m[k][v]` is the number of times `v` occurs in `xs(k)`, for exactly the keys and values that occur. */
  ghost predicate IsNestedTally(m: map<string, map<string, nat>>, xs: string -> seq<string>)
  {
    && (forall k :: k in m <==> |xs(k)| > 0)
    && (forall k, v :: k in m && v in m[k] ==> m[k][v] == Count(xs(k), v))
    && (forall k, v :: k in m ==> (v in m[k] <==> v in xs(k)))
  }

  /** Counting one more occurrence of `v` under `k` keeps the nested tally. */
  lemma NestedTallyStep(m: map<string, map<string, nat>>, xs: string -> seq<string>, ys: string -> seq<string>, k: string, v: string)
    requires IsNestedTally(m, xs)
    requires forall j :: ys(j) == xs(j) + (if j == k then [v] else [])
    ensures var inner := if k in m then m[k] else map[];
      IsNestedTally(m[k := inner[v := (if v in inner then inner[v] else 0) + 1]], ys)
  {
    var inner := if k in m then m[k] else map[];
    var m' := m[k := inner[v := (if v in inner then inner[v] else 0) + 1]];
    NestedTallyKeys(m, xs, ys, k, v, m');
    NestedTallyCounts(m, xs, ys, k, v, m');
    NestedTallyValues(m, xs, ys, k, v, m');
  }

  lemma NestedTallyKeys(m: map<string, map<string, nat>>, xs: string -> seq<string>, ys: string -> seq<string>, k: string, v: string,
                        m': map<string, map<string, nat>>)
    requires forall j :: j in m <==> |xs(j)| > 0
    requires forall j :: ys(j) == xs(j) + (if j == k then [v] else [])
    requires m'.Keys == m.Keys + {k}
    ensures forall j :: j in m' <==> |ys(j)| > 0
  {
  }

  lemma NestedTallyCounts(m: map<string, map<string, nat>>, xs: string -> seq<string>, ys: string -> seq<string>, k: string, v: string,
                          m': map<string, map<string, nat>>)
    requires forall j, w :: j in m && w in m[j] ==> m[j][w] == Count(xs(j), w)
    requires forall j, w :: j in m ==> (w in m[j] <==> w in xs(j))
    requires forall j :: j !in m ==> |xs(j)| == 0
    requires forall j :: ys(j) == xs(j) + (if j == k then [v] else [])
    requires var inner := if k in m then m[k] else map[];
      m' == m[k := inner[v := (if v in inner then inner[v] else 0) + 1]]
    ensures forall j, w :: j in m' && w in m'[j] ==> m'[j][w] == Count(ys(j), w)
  {
    forall j, w | j in m' && w in m'[j] ensures m'[j][w] == Count(ys(j), w) {
      CountAppend(xs(j), if j == k then [v] else [], w);
      if j == k && w == v && (k !in m || v !in m[k]) {
        assert v !in xs(k);
      }
    }
  }

  lemma NestedTallyValues(m: map<string, map<string, nat>>, xs: string -> seq<string>, ys: string -> seq<string>, k: string, v: string,
                          m': map<string, map<string, nat>>)
    requires forall j, w :: j in m ==> (w in m[j] <==> w in xs(j))
    requires forall j :: j !in m ==> |xs(j)| == 0
    requires forall j :: ys(j) == xs(j) + (if j == k then [v] else [])
    requires var inner := if k in m then m[k] else map[];
      m' == m[k := inner[v := (if v in inner then inner[v] else 0) + 1]]
    ensures forall j, w :: j in m' ==> (w in m'[j] <==> w in ys(j))
  {
    forall j, w | j in m' ensures w in m'[j] <==> w in ys(j) {
      if j == k {
        assert w in ys(j) <==> w in xs(j) || w == v;
        if k !in m {
          assert |xs(k)| == 0;
        }
      } else {
        assert j in m && m'[j] == m[j] && ys(j) == xs(j);
      }
    }
  }

  /** `subidasPorTipo[tipo]?.[mes] || 0`. */
  function Cuenta(m: map<string, map<string, nat>>, tipo: string, mes: string): nat
  {
    if tipo in m && mes in m[tipo] then m[tipo][mes] else 0
  }

  /** Every lookup, present or not, is the number of uploads of that type in that month. */
  lemma CuentaIsCount(m: map<string, map<string, nat>>, books: seq<Book>, tipo: string, mes: string)
    requires IsSubidasPorTipo(m, books)
    ensures Cuenta(m, tipo, mes) == Count(MesesDeTipo(books, tipo), mes)
  {
  }

  lemma SubidasPorTipoStep(m: map<string, map<string, nat>>, books: seq<Book>, b: Book, mes: string)
    requires IsSubidasPorTipo(m, books)
    requires MonthOf(b) == Some(mes)
    ensures var inner := if TipoDe(b) in m then m[TipoDe(b)] else map[];
      IsSubidasPorTipo(m[TipoDe(b) := inner[mes := (if mes in inner then inner[mes] else 0) + 1]], books + [b])
  {
    var xs := (tipo: string) => MesesDeTipo(books, tipo);
    var ys := (tipo: string) => MesesDeTipo(books + [b], tipo);
    forall t ensures ys(t) == xs(t) + (if t == TipoDe(b) then [mes] else []) {
      MesesDeTipoDated(books, b, mes, t);
    }
    NestedTallyStep(m, xs, ys, TipoDe(b), mes);
  }

  /** A book without an upload date changes no count. */
  lemma SubidasPorTipoUndated(m: map<string, map<string, nat>>, books: seq<Book>, b: Book)
    requires IsSubidasPorTipo(m, books)
    requires MonthOf(b).None?
    ensures IsSubidasPorTipo(m, books + [b])
  {
    forall t ensures MesesDeTipo(books + [b], t) == MesesDeTipo(books, t) {
      MesesDeTipoSnoc(books, b, t);
    }
  }

  /** Counting uploads per type and month, book by book. */
  method SubidasPorTipo(books: seq<Book>) returns (m: map<string, map<string, nat>>)
    ensures IsSubidasPorTipo(m, books)
  {
    m := map[];
    for i := 0 to |books|
      invariant IsSubidasPorTipo(m, books[..i])
    {
      var b := books[i];
      assert books[..i + 1] == books[..i] + [b];
      var tipo := TipoDe(b);
      var fecha := ParseFechaSubida(b.subido);
      if fecha.None? {
        SubidasPorTipoUndated(m, books[..i], b);
        continue;
      }
      var mes := MonthKey(fecha.value);
      SubidasPorTipoStep(m, books[..i], b, mes);
      var inner := if tipo in m then m[tipo] else map[];
      inner := inner[mes := (if mes in inner then inner[mes] else 0) + 1];
      m := m[tipo := inner];
    }
    assert books[..|books|] == books;
  }

  /** `dataMeses`: the series of one selected type over the month labels. */
  function SerieTipo(m: map<string, map<string, nat>>, etiquetas: seq<string>, tipo: string): (r: seq<nat>)
    ensures |r| == |etiquetas|
    ensures forall i :: 0 <= i < |etiquetas| ==> r[i] == Cuenta(m, tipo, etiquetas[i])
  {
    if etiquetas == [] then [] else [Cuenta(m, tipo, etiquetas[0])] + SerieTipo(m, etiquetas[1..], tipo)
  }

  /**
   * Each point of a type's series is that type's number of uploads in that
   * month, never more than the month's total.
   */
  lemma SerieTipoCounts(m: map<string, map<string, nat>>, books: seq<Book>, etiquetas: seq<string>, tipo: string, i: nat)
    requires IsSubidasPorTipo(m, books)
    requires i < |etiquetas|
    ensures SerieTipo(m, etiquetas, tipo)[i] == Count(MesesDeTipo(books, tipo), etiquetas[i])
    ensures SerieTipo(m, etiquetas, tipo)[i] <= Count(SubidasMeses(books), etiquetas[i])
  {
    CuentaIsCount(m, books, tipo, etiquetas[i]);
    MesesDeTipoBound(books, tipo, etiquetas[i]);
  }
}
