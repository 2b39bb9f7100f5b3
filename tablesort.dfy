/**
 * The column sort of the search tables: the `sortConfig` state, its
 * `toggleSort` transition, and `sortedData`, which copies the filtered rows
 * and sorts the copy by one column with `localeCompare`, ascending or
 * descending. `localeCompare` is the parameter `collate`, with
 * `collate(x, y)` standing for `x.localeCompare(y) <= 0`.
 */
module TableSort {
  import opened Wrappers
  import opened Ordering

  /** The sortable columns, `SortableKeys`. */
  datatype SortKey = Titulo | Autor | Publicacion | Tipo

  datatype Direction = Asc | Desc

  datatype SortConfig = SortConfig(key: SortKey, direction: Direction)

  function Flip(d: Direction): Direction
  {
    if d == Asc then Desc else Asc
  }

  /**
   * `toggleSort(key)`: clicking the sorted column flips its direction;
   * clicking any other column (or the first click) sorts it ascending.
   */
  function ToggleSort(prev: Option<SortConfig>, key: SortKey): (r: SortConfig)
    ensures r.key == key
    ensures prev.Some? && prev.value.key == key ==> r.direction != prev.value.direction
    ensures (prev.None? || prev.value.key != key) ==> r.direction == Asc
  {
    if prev.Some? && prev.value.key == key then SortConfig(key, Flip(prev.value.direction))
    else SortConfig(key, Asc)
  }

  /** Two clicks on the sorted column give back the same order. */
  lemma ToggleSortTwice(c: SortConfig)
    ensures ToggleSort(Some(ToggleSort(Some(c), c.key)), c.key) == c
  {
  }

  /** The state after `n` clicks on one column, starting from no sort. */
  function Clicks(n: nat, key: SortKey): Option<SortConfig>
  {
    if n == 0 then None else Some(ToggleSort(Clicks(n - 1, key), key))
  }

  /** Repeated clicks on one column alternate: ascending after an odd number, descending after an even one. */
  lemma {:induction false} ClicksAlternate(n: nat, key: SortKey)
    requires n >= 1
    ensures Clicks(n, key) == Some(SortConfig(key, if n % 2 == 1 then Asc else Desc))
  {
    if n > 1 {
      ClicksAlternate(n - 1, key);
    }
  }

  /**
   * The comparator of `sortedData`: ascending compares `a`'s column with
   * `b`'s, descending compares `b`'s with `a`'s.
   */
  function Comparator<T>(c: SortConfig, column: (T, SortKey) -> string, collate: (string, string) -> bool): (T, T) -> bool
  {
    (a: T, b: T) =>
      if c.direction == Asc then collate(column(a, c.key), column(b, c.key))
      else collate(column(b, c.key), column(a, c.key))
  }

  lemma ComparatorIsTotalPreorder<T(!new)>(c: SortConfig, column: (T, SortKey) -> string, collate: (string, string) -> bool)
    requires TotalPreorder(collate)
    ensures TotalPreorder(Comparator(c, column, collate))
  {
    var le := Comparator(c, column, collate);
    forall x, y ensures le(x, y) || le(y, x) {
      assert collate(column(x, c.key), column(y, c.key)) || collate(column(y, c.key), column(x, c.key));
    }
    forall x, y, z | le(x, y) && le(y, z) ensures le(x, z) {
      if c.direction == Asc {
        assert collate(column(x, c.key), column(y, c.key)) && collate(column(y, c.key), column(z, c.key));
      } else {
        assert collate(column(z, c.key), column(y, c.key)) && collate(column(y, c.key), column(x, c.key));
      }
    }
  }

  /**
   * `sortedData`: with no sort configured, the rows as filtered; otherwise
   * the stable sort of a copy by the configured column and direction. Rows
   * that compare equal keep their filtered order in either direction.
   */
  method SortedData<T(!new)>(rows: seq<T>, config: Option<SortConfig>, column: (T, SortKey) -> string,
                             collate: (string, string) -> bool) returns (r: seq<T>)
    requires TotalPreorder(collate)
    ensures config.None? ==> r == rows
    ensures config.Some? ==> r == SortBy(rows, Comparator(config.value, column, collate))
    ensures multiset(r) == multiset(rows)
    ensures config.Some? ==> Sorted(Comparator(config.value, column, collate), r)
    ensures config.Some? ==> Stable(Comparator(config.value, column, collate), rows, r)
  {
    r := rows;
    if config.Some? {
      var le := Comparator(config.value, column, collate);
      ComparatorIsTotalPreorder(config.value, column, collate);
      r := SortCopy(rows, le);
      SortBySorted(rows, le);
      SortByStable(rows, le);
    }
  }
}
