/**
 * The filter-state codec of the search pages (`parseQuery` and
 * `serializeFilters`). A filter record is seen as one value per key, in the
 * order `Object.keys` lists the keys of its default record; one key holds a
 * list of themes, every other key a string. The URL query is the list of
 * decoded `URLSearchParams` entries.
 */
module QueryCodec {
  import opened Wrappers
  import opened Seqs
  import opened JsString
  import opened Themes

  /** One `URLSearchParams` entry. */
  datatype Param = Param(name: string, value: string)

  /** `params.get(name)`: the value of the first entry named `name`, `null` when there is none. */
  function Get(ps: seq<Param>, name: string): Option<string>
  {
    if ps == [] then None
    else if ps[0].name == name then Some(ps[0].value)
    else Get(ps[1..], name)
  }

  /** Every entry named `name` removed. */
  function RemoveName(ps: seq<Param>, name: string): seq<Param>
  {
    if ps == [] then []
    else if ps[0].name == name then RemoveName(ps[1..], name)
    else [ps[0]] + RemoveName(ps[1..], name)
  }

  /**
   * `params.set(name, value)`: the first entry named `name` takes the value
   * and later ones are removed; with no such entry, one is appended.
   */
  function SetParam(ps: seq<Param>, name: string, value: string): seq<Param>
  {
    if ps == [] then [Param(name, value)]
    else if ps[0].name == name then [Param(name, value)] + RemoveName(ps[1..], name)
    else [ps[0]] + SetParam(ps[1..], name, value)
  }

  lemma {:induction false} GetRemoveName(ps: seq<Param>, name: string, m: string)
    ensures Get(RemoveName(ps, name), m) == if m == name then None else Get(ps, m)
  {
    if ps != [] {
      GetRemoveName(ps[1..], name, m);
    }
  }

  /** After `set`, `get` of that name gives the new value and every other name is untouched. */
  lemma {:induction false} GetSetParam(ps: seq<Param>, name: string, value: string, m: string)
    ensures Get(SetParam(ps, name, value), m) == if m == name then Some(value) else Get(ps, m)
  {
    if ps != [] {
      if ps[0].name == name {
        GetRemoveName(ps[1..], name, m);
      } else {
        GetSetParam(ps[1..], name, value, m);
      }
    }
  }

  /** An entry appended after the others is seen only by a `get` of a name not yet present. */
  lemma {:induction false} GetAppend(ps: seq<Param>, p: Param, name: string)
    ensures Get(ps + [p], name) ==
      if Get(ps, name).Some? then Get(ps, name) else if p.name == name then Some(p.value) else None
  {
    if ps == [] {
      assert ps + [p] == [p];
    } else {
      assert (ps + [p])[1..] == ps[1..] + [p];
      GetAppend(ps[1..], p, name);
    }
  }

  /** The keys of a filter record, in `Object.keys` order, and the one key that holds themes. */
  datatype Schema = Schema(names: seq<string>, listName: string)

  /** A record's keys are distinct. */
  predicate ValidSchema(s: Schema)
  {
    NoDuplicates(s.names)
  }

  /** The value under one key: a string, or the list of selected themes. */
  datatype Value = Text(text: string) | List(items: seq<string>)

  /** The default record's value: no themes under the theme key, "" under every other. */
  function DefaultValue(s: Schema, name: string): Value
  {
    if name == s.listName then List([]) else Text("")
  }

  /** The default filter record. */
  function Defaults(s: Schema): (f: seq<Value>)
    ensures |f| == |s.names|
    ensures forall i :: 0 <= i < |f| ==> f[i] == DefaultValue(s, s.names[i])
  {
    seq(|s.names|, i requires 0 <= i < |s.names| => DefaultValue(s, s.names[i]))
  }

  /** A record of the declared shape: a list exactly under the theme key. */
  predicate WellFormed(s: Schema, f: seq<Value>)
  {
    |f| == |s.names| && forall i :: 0 <= i < |f| ==> (f[i].List? <==> s.names[i] == s.listName)
  }

  /**
   * One key of `parseQuery`: a missing or empty parameter leaves the default;
   * the theme key is split on "," and each piece trimmed; any other key takes
   * the parameter as it is.
   */
  function DecodeValue(s: Schema, name: string, param: Option<string>): Value
  {
    if param.Some? && |param.value| > 0 then
      if name == s.listName then List(ThemeList(param.value)) else Text(param.value)
    else DefaultValue(s, name)
  }

  /** `parseQuery(searchParams)`, key by key. */
  function Decode(s: Schema, ps: seq<Param>): (f: seq<Value>)
    ensures |f| == |s.names|
  {
    seq(|s.names|, i requires 0 <= i < |s.names| => DecodeValue(s, s.names[i], Get(ps, s.names[i])))
  }

  lemma DecodeAt(s: Schema, ps: seq<Param>, i: nat)
    requires i < |s.names|
    ensures Decode(s, ps)[i] == DecodeValue(s, s.names[i], Get(ps, s.names[i]))
  {
  }

  /** `parseQuery`: the loop over the default record's keys. */
  method ParseQuery(s: Schema, ps: seq<Param>) returns (parsed: seq<Value>)
    ensures parsed == Decode(s, ps)
  {
    parsed := Defaults(s);
    for i := 0 to |s.names|
      invariant |parsed| == |s.names|
      invariant forall k :: 0 <= k < i ==> parsed[k] == DecodeValue(s, s.names[k], Get(ps, s.names[k]))
      invariant forall k :: i <= k < |parsed| ==> parsed[k] == DefaultValue(s, s.names[k])
    {
      var key := s.names[i];
      var value := Get(ps, key);
      if value.Some? && |value.value| > 0 {
        if key == s.listName {
          parsed := parsed[i := List(ThemeList(value.value))];
        } else {
          parsed := parsed[i := Text(value.value)];
        }
      }
    }
  }

  /** Whatever the query, the parsed record has the declared shape. */
  lemma DecodeWellFormed(s: Schema, ps: seq<Param>)
    ensures WellFormed(s, Decode(s, ps))
  {
  }

  /** `parseQuery` reads only the record's own keys: parameters under any other name are ignored. */
  lemma DecodeIgnoresUnknown(s: Schema, ps: seq<Param>, qs: seq<Param>)
    requires forall i :: 0 <= i < |s.names| ==> Get(ps, s.names[i]) == Get(qs, s.names[i])
    ensures Decode(s, ps) == Decode(s, qs)
  {
  }

  /** An extra parameter, under a name the record lacks or already given, changes nothing. */
  lemma DecodeExtraParam(s: Schema, ps: seq<Param>, p: Param)
    requires p.name !in s.names || Get(ps, p.name).Some?
    ensures Decode(s, ps + [p]) == Decode(s, ps)
  {
    forall i | 0 <= i < |s.names| ensures Get(ps + [p], s.names[i]) == Get(ps, s.names[i]) {
      GetAppend(ps, p, s.names[i]);
    }
    DecodeIgnoresUnknown(s, ps + [p], ps);
  }

  /**
   * One key of `serializeFilters`: a non-empty theme list is joined with ",";
   * a string that is not blank is kept as it is; anything else is omitted.
   */
  function EncodeValue(s: Schema, name: string, v: Value): Option<string>
  {
    if name == s.listName && v.List? && |v.items| > 0 then Some(Join(v.items, ','))
    else if v.Text? && |Trim(v.text)| > 0 then Some(v.text)
    else None
  }

  /** The parameters set for the first `n` keys. */
  function EncodeFirst(s: Schema, f: seq<Value>, n: nat): seq<Param>
    requires n <= |s.names| && |f| == |s.names|
  {
    if n == 0 then []
    else
      var ps := EncodeFirst(s, f, n - 1);
      match EncodeValue(s, s.names[n - 1], f[n - 1])
      case None => ps
      case Some(v) => SetParam(ps, s.names[n - 1], v)
  }

  /** `serializeFilters(filters)`, as the parameter list its `toString` prints. */
  function Encode(s: Schema, f: seq<Value>): seq<Param>
    requires |f| == |s.names|
  {
    EncodeFirst(s, f, |f|)
  }

  /** `serializeFilters`: the loop over the record's keys, setting one parameter per kept value. */
  method SerializeFilters(s: Schema, f: seq<Value>) returns (params: seq<Param>)
    requires |f| == |s.names|
    ensures params == Encode(s, f)
  {
    params := [];
    for i := 0 to |s.names|
      invariant params == EncodeFirst(s, f, i)
    {
      var key := s.names[i];
      var value := f[i];
      if key == s.listName && value.List? && |value.items| > 0 {
        params := SetParam(params, key, Join(value.items, ','));
      } else if value.Text? && |Trim(value.text)| > 0 {
        params := SetParam(params, key, value.text);
      }
    }
  }

  /** Key `n - 1` sets its own parameter when its value is kept, and leaves every other name alone. */
  lemma GetEncodeFirstStep(s: Schema, f: seq<Value>, n: nat, m: string)
    requires 0 < n <= |s.names| && |f| == |s.names|
    ensures Get(EncodeFirst(s, f, n), m) ==
      var e := EncodeValue(s, s.names[n - 1], f[n - 1]);
      if m == s.names[n - 1] && e.Some? then e else Get(EncodeFirst(s, f, n - 1), m)
  {
    var e := EncodeValue(s, s.names[n - 1], f[n - 1]);
    if e.Some? {
      GetSetParam(EncodeFirst(s, f, n - 1), s.names[n - 1], e.value, m);
    }
  }

  /** No parameter is set under a name outside the first `n` keys. */
  lemma {:induction false} GetEncodeFirstAbsent(s: Schema, f: seq<Value>, n: nat, m: string)
    requires n <= |s.names| && |f| == |s.names|
    requires forall j :: 0 <= j < n ==> s.names[j] != m
    ensures Get(EncodeFirst(s, f, n), m).None?
  {
    if n > 0 {
      GetEncodeFirstAbsent(s, f, n - 1, m);
      GetEncodeFirstStep(s, f, n, m);
    }
  }

  /** With distinct keys, each of the first `n` keys carries its own value's encoding. */
  lemma {:induction false} GetEncodeFirstAt(s: Schema, f: seq<Value>, n: nat, i: nat)
    requires ValidSchema(s)
    requires i < n <= |s.names| && |f| == |s.names|
    ensures Get(EncodeFirst(s, f, n), s.names[i]) == EncodeValue(s, s.names[i], f[i])
  {
    GetEncodeFirstStep(s, f, n, s.names[i]);
    if i < n - 1 {
      GetEncodeFirstAt(s, f, n - 1, i);
      DistinctAt(s.names, i, n - 1);
    } else {
      GetEncodeFirstAbsent(s, f, n - 1, s.names[i]);
    }
  }

  lemma GetEncodeAt(s: Schema, f: seq<Value>, i: nat)
    requires ValidSchema(s)
    requires i < |s.names| && |f| == |s.names|
    ensures Get(Encode(s, f), s.names[i]) == EncodeValue(s, s.names[i], f[i])
  {
    GetEncodeFirstAt(s, f, |f|, i);
  }

  /** `serializeFilters` sets no parameter the record does not have. */
  lemma GetEncodeUnknown(s: Schema, f: seq<Value>, m: string)
    requires |f| == |s.names| && m !in s.names
    ensures Get(Encode(s, f), m).None?
  {
    GetEncodeFirstAbsent(s, f, |f|, m);
  }

  /** The default record serialises to no parameters at all, the empty query string. */
  lemma {:induction false} EncodeDefaults(s: Schema)
    ensures Encode(s, Defaults(s)) == []
  {
    EncodeFirstDefaults(s, |s.names|);
  }

  lemma {:induction false} EncodeFirstDefaults(s: Schema, n: nat)
    requires n <= |s.names|
    ensures EncodeFirst(s, Defaults(s), n) == []
  {
    if n > 0 {
      EncodeFirstDefaults(s, n - 1);
      EncodeDefaultValue(s, s.names[n - 1]);
    }
  }

  /** No key's default value is set as a parameter. */
  lemma EncodeDefaultValue(s: Schema, name: string)
    ensures EncodeValue(s, name, DefaultValue(s, name)).None?
  {
    assert |Trim("")| == 0;
  }

  /**
   * A value survives serialising and parsing exactly when it is canonical:
   * under the theme key, a list that is empty or whose themes are trimmed and
   * free of commas, other than the single empty theme; under any other key, a
   * string that is "" or not blank.
   */
  predicate CanonicalValue(s: Schema, name: string, v: Value)
  {
    if name == s.listName then
      v.List? && (|v.items| == 0 ||
        (!(|v.items| == 1 && |v.items[0]| == 0) &&
         forall i :: 0 <= i < |v.items| ==> ',' !in v.items[i] && IsTrimmed(v.items[i])))
    else
      v.Text? && (|v.text| == 0 || |Trim(v.text)| > 0)
  }

  predicate Canonical(s: Schema, f: seq<Value>)
  {
    |f| == |s.names| && forall i :: 0 <= i < |f| ==> CanonicalValue(s, s.names[i], f[i])
  }

  lemma ValueRoundTrip(s: Schema, name: string, v: Value)
    ensures DecodeValue(s, name, EncodeValue(s, name, v)) == v <==> CanonicalValue(s, name, v)
  {
    if name == s.listName && v.List? && |v.items| > 0 {
      var items := v.items;
      var j := Join(items, ',');
      JoinEmpty(items, ',');
      if |j| > 0 {
        if CanonicalValue(s, name, v) {
          SplitJoin(items, ',');
          TrimEachOfTrimmed(items);
        }
        if ThemeList(j) == items {
          forall i | 0 <= i < |items| ensures ',' !in items[i] && IsTrimmed(items[i]) {
            TrimEachAt(Split(j, ','), i);
            TrimSubset(Split(j, ',')[i]);
          }
        }
      }
    }
  }

  /**
   * Round trip: `parseQuery(serializeFilters(f))` gives `f` back exactly when
   * every value of `f` is canonical.
   */
  lemma RoundTrip(s: Schema, f: seq<Value>)
    requires ValidSchema(s) && |f| == |s.names|
    ensures Decode(s, Encode(s, f)) == f <==> Canonical(s, f)
  {
    forall i | 0 <= i < |f|
      ensures Decode(s, Encode(s, f))[i] == DecodeValue(s, s.names[i], EncodeValue(s, s.names[i], f[i]))
    {
      GetEncodeAt(s, f, i);
    }
    forall i | 0 <= i < |f|
      ensures Decode(s, Encode(s, f))[i] == f[i] <==> CanonicalValue(s, s.names[i], f[i])
    {
      ValueRoundTrip(s, s.names[i], f[i]);
    }
    if Decode(s, Encode(s, f)) != f {
      var i :| 0 <= i < |f| && Decode(s, Encode(s, f))[i] != f[i];
    }
  }

  /**
   * The URL effect's decision: nothing to write (`None`) when the serialised
   * filters equal those parsed back from the current URL, else the query to
   * write. The timer and the router are not part of this decision.
   */
  method UrlUpdate(s: Schema, filters: seq<Value>, url: seq<Param>) returns (write: Option<seq<Param>>)
    requires |filters| == |s.names|
    ensures write.None? <==> Encode(s, filters) == Encode(s, Decode(s, url))
    ensures write.Some? ==> write.value == Encode(s, filters)
  {
    var query := SerializeFilters(s, filters);
    var parsed := ParseQuery(s, url);
    var current := SerializeFilters(s, parsed);
    if query == current {
      return None;
    }
    write := Some(query);
  }

  /** For canonical records, the effect skips exactly when the URL already holds the same filters. */
  lemma SkipIffSameFilters(s: Schema, f: seq<Value>, url: seq<Param>)
    requires ValidSchema(s) && Canonical(s, f) && Canonical(s, Decode(s, url))
    ensures Encode(s, f) == Encode(s, Decode(s, url)) <==> f == Decode(s, url)
  {
    RoundTrip(s, f);
    RoundTrip(s, Decode(s, url));
  }

  /** Once the URL holds the written query, the next decision skips. */
  lemma WrittenQuerySkips(s: Schema, f: seq<Value>)
    requires ValidSchema(s) && Canonical(s, f)
    ensures Encode(s, Decode(s, Encode(s, f))) == Encode(s, f)
  {
    RoundTrip(s, f);
  }
}
