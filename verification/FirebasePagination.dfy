/** `ATCGenericFirebaseDataSource`: cursor pagination over a table that the server keeps sorted by key. Of the keys
    only their order matters, so they are integers here. Calls issue queries, and the snapshots arrive later, in any
    order. */
module FirebasePagination {
  import opened Options

  const ITEMS_PER_PAGE: nat := 10

  /** A child of a snapshot; `dict` is nil when its value is not a dictionary. */
  datatype Row<V> = Row(key: int, dict: Option<V>)

  datatype Item<V> = Item(key: int, dict: V)

  // ---------- The server ----------

  ghost predicate SortedByKey<V>(table: seq<Row<V>>) {
    forall i, j :: 0 <= i < j < |table| ==> table[i].key < table[j].key
  }

  function StartingAt<V>(table: seq<Row<V>>, start: Option<int>): (rows: seq<Row<V>>)
    ensures |rows| <= |table|
  {
    if table == [] || start.None? || start.value <= table[0].key then table else StartingAt(table[1..], start)
  }

  function Limited<V>(rows: seq<Row<V>>, limit: nat): seq<Row<V>> {
    if |rows| <= limit then rows else rows[..limit]
  }

  function FirstQuery<V>(table: seq<Row<V>>): seq<Row<V>> {
    Limited(table, ITEMS_PER_PAGE)
  }

  /** From the cursor on, the cursor's own row included. */
  function BottomQuery<V>(table: seq<Row<V>>, cursor: Option<int>): seq<Row<V>> {
    Limited(StartingAt(table, cursor), ITEMS_PER_PAGE + 1)
  }

  // ---------- The data source, as a value ----------

  /** A load that has completed; a bottom load with the cursor it was issued with. */
  datatype Load = First | Bottom(cursor: Option<int>)

  /** The fields of the data source, the queries in flight, those of bottom loads with their cursors, and the loads that
      have completed. */
  datatype State<V> = State(
    store: seq<Item<V>>,
    cursor: Option<int>,
    finished: bool,
    firstsInFlight: nat,
    bottomsInFlight: seq<Option<int>>,
    loads: seq<Load>)

  function Initial<V>(): State<V> {
    State([], None, false, 0, [], [])
  }

  /** The dictionary rows of a snapshot. */
  function Parsed<V>(rows: seq<Row<V>>): seq<Item<V>> {
    if rows == [] then []
    else
      var last := rows[|rows| - 1];
      Parsed(rows[..|rows| - 1]) + (if last.dict.Some? then [Item(last.key, last.dict.value)] else [])
  }

  function LastKey<V>(rows: seq<Row<V>>): Option<int> {
    if rows == [] then None else Some(rows[|rows| - 1].key)
  }

  function FirstLoaded<V>(s: State<V>, snapshot: seq<Row<V>>): State<V> {
    s.(store := s.store + Parsed(snapshot), cursor := LastKey(snapshot))
  }

  /** `None` is `removeFirst` on an empty array, which traps. */
  function BottomLoaded<V>(s: State<V>, snapshot: seq<Row<V>>): Option<State<V>> {
    var parsed := Parsed(snapshot);
    if parsed == [] then None
    else
      Some(s.(store := s.store + parsed[1..],
              cursor := if snapshot == [] then s.cursor else LastKey(snapshot),
              finished := parsed[1..] == []))
  }

  datatype Event<V> =
    | LoadFirst
    | LoadBottom
    | FirstDone(snapshot: seq<Row<V>>)
    | BottomDone(i: nat, snapshot: seq<Row<V>>)

  /** A snapshot can only arrive for a query in flight; `i` says for which bottom load. */
  predicate Enabled<V>(s: State<V>, e: Event<V>) {
    match e
    case FirstDone(_) => s.firstsInFlight > 0
    case BottomDone(i, _) => i < |s.bottomsInFlight|
    case _ => true
  }

  /** `None` is the trap. */
  function Step<V>(s: State<V>, e: Event<V>): Option<State<V>>
    requires Enabled(s, e)
  {
    match e
    case LoadFirst => Some(s.(firstsInFlight := s.firstsInFlight + 1))
    case LoadBottom => Some(if s.finished then s else s.(bottomsInFlight := s.bottomsInFlight + [s.cursor]))
    case FirstDone(snapshot) =>
      Some(FirstLoaded(s, snapshot).(firstsInFlight := s.firstsInFlight - 1, loads := s.loads + [First]))
    case BottomDone(i, snapshot) =>
      match BottomLoaded(s, snapshot)
      case None => None
      case Some(t) =>
        Some(t.(bottomsInFlight := s.bottomsInFlight[..i] + s.bottomsInFlight[i + 1..],
                loads := s.loads + [Bottom(s.bottomsInFlight[i])]))
  }

  // ---------- The class ----------

  class FirebaseDataSource<V> {
    var store: seq<Item<V>>
    var lastFetchedObjectKey: Option<int>
    var didFinishLoadingBottom: bool
    // the queries made of the server
    var firstsInFlight: nat
    var bottomsInFlight: seq<Option<int>>
    var loads: seq<Load>

    constructor ()
      ensures Value() == Initial()
    {
      store, lastFetchedObjectKey, didFinishLoadingBottom := [], None, false;
      firstsInFlight, bottomsInFlight, loads := 0, [], [];
    }

    function Value(): State<V>
      reads this
    {
      State(store, lastFetchedObjectKey, didFinishLoadingBottom, firstsInFlight, bottomsInFlight, loads)
    }

    static method ParseResults(children: seq<Row<V>>) returns (res: seq<Item<V>>)
      ensures res == Parsed(children)
    {
      res := [];
      for i := 0 to |children|
        invariant res == Parsed(children[..i])
      {
        assert children[..i + 1][..i] == children[..i];
        if children[i].dict.Some? {
          res := res + [Item(children[i].key, children[i].dict.value)];
        }
      }
      assert children[..|children|] == children;
    }

    method LoadFirst()
      modifies this
      ensures Some(Value()) == Step(old(Value()), Event.LoadFirst)
    {
      firstsInFlight := firstsInFlight + 1;
    }

    /** The response to the query of `loadFirst`. */
    method FirstCompleted(snapshot: seq<Row<V>>)
      requires Enabled(Value(), FirstDone(snapshot))
      modifies this
      ensures Some(Value()) == Step(old(Value()), FirstDone(snapshot))
    {
      firstsInFlight, loads := firstsInFlight - 1, loads + [First];
      var results := ParseResults(snapshot);
      store := store + results;
      lastFetchedObjectKey := LastKey(snapshot);
    }

    /** Queries from the cursor, unless it has finished. */
    method LoadBottom()
      modifies this
      ensures Some(Value()) == Step(old(Value()), Event.LoadBottom)
    {
      if didFinishLoadingBottom {
        return;
      }
      bottomsInFlight := bottomsInFlight + [lastFetchedObjectKey];
    }

    /** The response to the query of a `loadBottom`; `ok` is false when `removeFirst` traps. */
    method BottomCompleted(i: nat, snapshot: seq<Row<V>>) returns (ok: bool)
      requires Enabled(Value(), BottomDone(i, snapshot))
      modifies this
      ensures ok <==> Step(old(Value()), BottomDone(i, snapshot)).Some?
      ensures ok ==> Some(Value()) == Step(old(Value()), BottomDone(i, snapshot))
    {
      loads := loads + [Bottom(bottomsInFlight[i])];
      bottomsInFlight := bottomsInFlight[..i] + bottomsInFlight[i + 1..];
      var results := ParseResults(snapshot);
      if results == [] {
        return false;
      }
      results := results[1..];
      didFinishLoadingBottom := |results| == 0;
      store := store + results;
      if snapshot != [] {
        lastFetchedObjectKey := Some(snapshot[|snapshot| - 1].key);
      }
      ok := true;
    }
  }

  // ---------- Loading page after page ----------

  /** The state after one `loadFirst` and `k` calls of `loadBottom`, each made when the one before has completed. */
  function After<V>(table: seq<Row<V>>, k: nat): Option<State<V>> {
    if k == 0 then Some(FirstLoaded(Initial(), FirstQuery(table)))
    else
      match After(table, k - 1)
      case None => None
      case Some(s) => if s.finished then Some(s) else BottomLoaded(s, BottomQuery(table, s.cursor))
  }

  ghost predicate AllDictionaries<V>(table: seq<Row<V>>) {
    forall i :: 0 <= i < |table| ==> table[i].dict.Some?
  }

  function Min(a: nat, b: nat): nat {
    if a < b then a else b
  }

  /** The number of pages, the last one perhaps not full. */
  function PageCount(n: nat): nat {
    (n + ITEMS_PER_PAGE - 1) / ITEMS_PER_PAGE
  }

  lemma {:induction false} StartingAtKey<V>(table: seq<Row<V>>, c: nat)
    requires SortedByKey(table) && c < |table|
    ensures StartingAt(table, Some(table[c].key)) == table[c..]
  {
    if c > 0 {
      assert table[0].key < table[c].key;
      StartingAtKey(table[1..], c - 1);
      assert table[1..][c - 1..] == table[c..];
    }
  }

  lemma {:induction false} ParsedConcat<V>(a: seq<Row<V>>, b: seq<Row<V>>)
    ensures Parsed(a + b) == Parsed(a) + Parsed(b)
    decreases |b|
  {
    if b == [] {
      assert a + b == a;
    } else {
      assert (a + b)[..|a + b| - 1] == a + b[..|b| - 1];
      ParsedConcat(a, b[..|b| - 1]);
    }
  }

  lemma {:induction false} ParsedDictionaries<V>(rows: seq<Row<V>>)
    requires AllDictionaries(rows)
    ensures |Parsed(rows)| == |rows|
    ensures forall i :: 0 <= i < |rows| ==> Parsed(rows)[i] == Item(rows[i].key, rows[i].dict.value)
  {
    if rows != [] {
      ParsedDictionaries(rows[..|rows| - 1]);
    }
  }

  /** The window of a bottom query from row `c`: the row itself and up to ten more. */
  lemma BottomWindow<V>(table: seq<Row<V>>, c: nat)
    requires SortedByKey(table) && c < |table|
    ensures BottomQuery(table, Some(table[c].key)) == [table[c]] + table[c + 1..Min(|table|, c + 1 + ITEMS_PER_PAGE)]
  {
    StartingAtKey(table, c);
  }

  /** One bottom load on any table, in any state, from the cursor `c`: it traps when there is no dictionary in the
      window, and appends exactly the dictionaries behind the cursor if and only if the cursor's row is a dictionary;
      otherwise the first one is lost. It finishes when there is just one dictionary in the window. */
  lemma BottomLoadExactly<V>(table: seq<Row<V>>, s: State<V>, c: nat)
    requires SortedByKey(table) && c < |table|
    ensures var page := Parsed(table[c + 1..Min(|table|, c + 1 + ITEMS_PER_PAGE)]);
      var t := BottomLoaded(s, BottomQuery(table, Some(table[c].key)));
      && (t.None? <==> table[c].dict.None? && page == [])
      && (t.Some? ==> (t.value.store == s.store + page <==> table[c].dict.Some?))
      && (t.Some? && table[c].dict.None? ==> t.value.store == s.store + page[1..])
      && (t.Some? ==> (t.value.finished <==> |Parsed(BottomQuery(table, Some(table[c].key)))| == 1))
  {
    var behind := table[c + 1..Min(|table|, c + 1 + ITEMS_PER_PAGE)];
    var page := Parsed(behind);
    BottomWindow(table, c);
    ParsedConcat([table[c]], behind);
    assert [table[c]][..0] == [];
    if table[c].dict.Some? {
      var head := Item(table[c].key, table[c].dict.value);
      assert ([head] + page)[1..] == page;
    } else {
      assert [] + page == page;
      assert page != [] ==> |s.store + page[1..]| != |s.store + page|;
    }
  }

  function LoadedRows(n: nat, k: nat): nat {
    Min(n, ITEMS_PER_PAGE * (k + 1))
  }

  /** What is known between two loads. */
  ghost predicate Loaded<V>(table: seq<Row<V>>, k: nat, s: State<V>)
    requires table != []
  {
    var m := LoadedRows(|table|, k);
    && s.store == Parsed(table[..m])
    && s.cursor == Some(table[m - 1].key)
    && (s.finished <==> k >= PageCount(|table|))
  }

  lemma PageArithmetic(n: nat, k: nat)
    requires n > 0
    ensures PageCount(n) >= 1
    ensures k >= PageCount(n) ==> ITEMS_PER_PAGE * k >= n
    ensures k < PageCount(n) ==> ITEMS_PER_PAGE * k < n
  {}

  /** A bottom load on a table of dictionaries, from row `c`. */
  lemma BottomLoadedState<V>(table: seq<Row<V>>, s: State<V>, c: nat)
    requires SortedByKey(table) && AllDictionaries(table) && c < |table|
    ensures var m := Min(|table|, c + 1 + ITEMS_PER_PAGE);
      BottomLoaded(s, BottomQuery(table, Some(table[c].key)))
      == Some(s.(store := s.store + Parsed(table[c + 1..m]),
                 cursor := Some(table[m - 1].key),
                 finished := c + 1 == |table|))
  {
    var m := Min(|table|, c + 1 + ITEMS_PER_PAGE);
    var window := table[c..m];
    assert BottomQuery(table, Some(table[c].key)) == window by {
      BottomWindow(table, c);
      assert [table[c]] + table[c + 1..m] == window;
    }
    DictionariesBetween(table, c, m);
    BottomLoadExactly(table, s, c);
    assert LastKey(window) == Some(table[m - 1].key);
  }

  lemma DictionariesBetween<V>(table: seq<Row<V>>, a: nat, b: nat)
    requires AllDictionaries(table) && a <= b <= |table|
    ensures |Parsed(table[a..b])| == b - a
  {
    forall i | 0 <= i < b - a ensures table[a..b][i].dict.Some? {
      assert table[a..b][i] == table[a + i];
    }
    ParsedDictionaries(table[a..b]);
  }

  lemma {:induction false} NextPage<V>(table: seq<Row<V>>, k: nat, s: State<V>)
    requires SortedByKey(table) && AllDictionaries(table) && table != [] && Loaded(table, k, s) && !s.finished
    ensures var t := BottomLoaded(s, BottomQuery(table, s.cursor)); t.Some? && Loaded(table, k + 1, t.value)
  {
    NextBounds(|table|, k);
    NextRows(table, s, LoadedRows(|table|, k));
  }

  lemma NextRows<V>(table: seq<Row<V>>, s: State<V>, m: nat)
    requires SortedByKey(table) && AllDictionaries(table) && 0 < m <= |table|
    requires s.store == Parsed(table[..m]) && s.cursor == Some(table[m - 1].key)
    ensures var m' := Min(|table|, m + ITEMS_PER_PAGE);
      BottomLoaded(s, BottomQuery(table, s.cursor))
      == Some(s.(store := Parsed(table[..m']), cursor := Some(table[m' - 1].key), finished := m == |table|))
  {
    var m' := Min(|table|, m + ITEMS_PER_PAGE);
    BottomLoadedState(table, s, m - 1);
    assert table[(m - 1) + 1..m'] == table[m..m'];
    ParsedUpTo(table, m, m');
  }

  lemma ParsedUpTo<V>(table: seq<Row<V>>, m: nat, m': nat)
    requires m <= m' <= |table|
    ensures Parsed(table[..m]) + Parsed(table[m..m']) == Parsed(table[..m'])
  {
    ParsedConcat(table[..m], table[m..m']);
    assert table[..m] + table[m..m'] == table[..m'];
  }

  lemma NextBounds(n: nat, k: nat)
    requires n > 0 && k < PageCount(n)
    ensures 0 < LoadedRows(n, k) <= LoadedRows(n, k + 1) == Min(n, LoadedRows(n, k) + ITEMS_PER_PAGE)
    ensures LoadedRows(n, k) == n <==> k + 1 >= PageCount(n)
  {
    PageArithmetic(n, k + 1);
  }

  /** Complete and exact: the first ten times k plus one rows, each once, and finished from load number
      ceiling of n over ten on, not before. */
  lemma {:induction false} PagesAreCompleteAndExact<V>(table: seq<Row<V>>, k: nat)
    requires SortedByKey(table) && AllDictionaries(table) && table != []
    ensures After(table, k).Some? && Loaded(table, k, After(table, k).value)
  {
    PageArithmetic(|table|, 0);
    if k == 0 {
      assert FirstQuery(table) == table[..Min(|table|, ITEMS_PER_PAGE)];
      assert [] + Parsed(FirstQuery(table)) == Parsed(FirstQuery(table));
    } else {
      PagesAreCompleteAndExact(table, k - 1);
      var s := After(table, k - 1).value;
      AfterOneMore(table, k, s);
      if s.finished {
        PageArithmetic(|table|, k - 1);
      } else {
        NextPage(table, k - 1, s);
      }
    }
  }

  ghost predicate KeysOnce<V>(store: seq<Item<V>>) {
    forall i, j :: 0 <= i < j < |store| ==> store[i].key != store[j].key
  }

  /** So after all pages the store is the whole table, and never holds a row twice. */
  lemma AllPages<V>(table: seq<Row<V>>, k: nat)
    requires SortedByKey(table) && AllDictionaries(table) && table != []
    ensures After(table, k).Some? && KeysOnce(After(table, k).value.store)
    ensures After(table, k).value.finished ==> After(table, k).value.store == Parsed(table)
  {
    PagesAreCompleteAndExact(table, k);
    PageArithmetic(|table|, k);
    var m := LoadedRows(|table|, k);
    ParsedDictionaries(table[..m]);
    assert m == |table| ==> table[..m] == table;
  }

  /** `loadBottom` queries up to load number ceiling of n over ten, and never after it. */
  lemma QueriesExactly<V>(table: seq<Row<V>>, k: nat)
    requires SortedByKey(table) && AllDictionaries(table) && table != []
    ensures After(table, k).Some?
    ensures Step(After(table, k).value, LoadBottom) == Some(After(table, k).value) <==> k >= PageCount(|table|)
  {
    PagesAreCompleteAndExact(table, k);
    var s := After(table, k).value;
    assert |s.bottomsInFlight + [s.cursor]| != |s.bottomsInFlight|;
  }

  // ---------- Tables with other rows ----------

  /** The window of bottom load number `k` when no load before it traps or finishes. */
  function Window<V>(table: seq<Row<V>>, k: nat): seq<Row<V>>
    requires table != [] && k >= 1
  {
    var c := LoadedRows(|table|, k - 1) - 1;
    table[c..Min(|table|, c + 1 + ITEMS_PER_PAGE)]
  }

  /** The windows of the first `k` bottom loads each have two dictionaries or more. */
  predicate Proceeds<V>(table: seq<Row<V>>, k: nat)
    requires table != []
  {
    k == 0 || (Proceeds(table, k - 1) && |Parsed(Window(table, k))| >= 2)
  }

  /** The rows on which the cursor stands for the first `k` bottom loads are dictionaries. */
  predicate CursorsOnDictionaries<V>(table: seq<Row<V>>, k: nat)
    requires table != []
  {
    k == 0 || (CursorsOnDictionaries(table, k - 1) && table[LoadedRows(|table|, k - 1) - 1].dict.Some?)
  }

  /** The store lacks no dictionary of the first `m` rows if and only if `complete`. */
  ghost predicate StoreOfFirst<V>(store: seq<Item<V>>, table: seq<Row<V>>, m: nat, complete: bool)
    requires m <= |table|
  {
    && |store| <= |Parsed(table[..m])|
    && (|store| == |Parsed(table[..m])| <==> complete)
    && (complete ==> store == Parsed(table[..m]))
  }

  lemma ParsedOne<V>(row: Row<V>)
    ensures Parsed([row]) == if row.dict.Some? then [Item(row.key, row.dict.value)] else []
  {
    assert [row][..0] == [];
  }

  lemma WindowSplits<V>(table: seq<Row<V>>, m: nat, m': nat)
    requires 0 < m <= m' <= |table|
    ensures table[m - 1..m'] == [table[m - 1]] + table[m..m']
  {}

  lemma {:induction false} ParsedWindow<V>(table: seq<Row<V>>, m: nat, m': nat)
    requires 0 < m <= m' <= |table|
    ensures Parsed(table[m - 1..m']) == Parsed([table[m - 1]]) + Parsed(table[m..m'])
  {
    WindowSplits(table, m, m');
    ParsedConcat([table[m - 1]], table[m..m']);
  }

  lemma {:induction false} AnyBottomLoad<V>(table: seq<Row<V>>, s: State<V>, m: nat, m': nat, complete: bool,
                                            r: Option<State<V>>)
    requires SortedByKey(table) && 0 < m <= |table| && m' == Min(|table|, m + ITEMS_PER_PAGE)
    requires s.cursor == Some(table[m - 1].key) && StoreOfFirst(s.store, table, m, complete)
    requires r == BottomLoaded(s, BottomQuery(table, s.cursor))
    ensures r.None? <==> Parsed(table[m - 1..m']) == []
    ensures r.Some? ==> (r.value.finished <==> |Parsed(table[m - 1..m'])| == 1)
    ensures r.Some? ==> r.value.cursor == Some(table[m' - 1].key)
    ensures r.Some? ==> StoreOfFirst(r.value.store, table, m', complete && table[m - 1].dict.Some?)
  {
    var window := table[m - 1..m'];
    assert BottomQuery(table, s.cursor) == window by {
      BottomWindow(table, m - 1);
      WindowSplits(table, m, m');
    }
    if r.Some? {
      assert r.value.store == s.store + Parsed(window)[1..];
      StoreBehindWindow(s.store, table, m, m', complete);
      assert LastKey(window) == Some(table[m' - 1].key);
    }
  }

  lemma StoreBehindWindow<V>(store: seq<Item<V>>, table: seq<Row<V>>, m: nat, m': nat, complete: bool)
    requires 0 < m <= m' <= |table| && StoreOfFirst(store, table, m, complete) && Parsed(table[m - 1..m']) != []
    ensures StoreOfFirst(store + Parsed(table[m - 1..m'])[1..], table, m', complete && table[m - 1].dict.Some?)
  {
    var row, page := table[m - 1], Parsed(table[m..m']);
    ParsedWindow(table, m, m');
    ParsedOne(row);
    StoreOneMore(store, table, m, m', complete);
    if row.dict.Some? {
      assert ([Item(row.key, row.dict.value)] + page)[1..] == page;
    } else {
      assert [] + page == page;
    }
  }

  lemma StoreOneMore<V>(store: seq<Item<V>>, table: seq<Row<V>>, m: nat, m': nat, complete: bool)
    requires m <= m' <= |table| && StoreOfFirst(store, table, m, complete)
    ensures var page := Parsed(table[m..m']);
      && StoreOfFirst(store + page, table, m', complete)
      && (page != [] ==> StoreOfFirst(store + page[1..], table, m', false))
  {
    ParsedUpTo(table, m, m');
  }

  /** What is known after `k` loads that went on. */
  ghost predicate Progress<V>(table: seq<Row<V>>, k: nat, s: State<V>)
    requires table != []
  {
    var m := LoadedRows(|table|, k);
    s.cursor == Some(table[m - 1].key) && StoreOfFirst(s.store, table, m, CursorsOnDictionaries(table, k))
  }

  lemma LoadedOneMore(n: nat, k: nat)
    requires n > 0 && k >= 1
    ensures 0 < LoadedRows(n, k - 1) <= LoadedRows(n, k) == Min(n, LoadedRows(n, k - 1) + ITEMS_PER_PAGE)
  {}

  lemma {:induction false} AfterOneMore<V>(table: seq<Row<V>>, k: nat, s: State<V>)
    requires k >= 1 && After(table, k - 1) == Some(s)
    ensures After(table, k) == if s.finished then Some(s) else BottomLoaded(s, BottomQuery(table, s.cursor))
  {}

  lemma {:induction false} NextLoad<V>(table: seq<Row<V>>, k: nat, s: State<V>, r: Option<State<V>>)
    requires SortedByKey(table) && table != [] && k >= 1 && Progress(table, k - 1, s)
    requires r == BottomLoaded(s, BottomQuery(table, s.cursor))
    ensures r.None? <==> Parsed(Window(table, k)) == []
    ensures r.Some? ==> (r.value.finished <==> |Parsed(Window(table, k))| == 1)
    ensures r.Some? ==> Progress(table, k, r.value)
  {
    var m, m' := LoadedRows(|table|, k - 1), LoadedRows(|table|, k);
    LoadedOneMore(|table|, k);
    assert Window(table, k) == table[m - 1..m'];
    AnyBottomLoad(table, s, m, m', CursorsOnDictionaries(table, k - 1), r);
  }

  /** As long as the loads proceed, nothing is missing exactly if the cursor stood on dictionaries. */
  lemma {:induction false} AnyTable<V>(table: seq<Row<V>>, k: nat)
    requires SortedByKey(table) && table != [] && Proceeds(table, k)
    ensures After(table, k).Some?
    ensures !After(table, k).value.finished && Progress(table, k, After(table, k).value)
  {
    if k == 0 {
      assert FirstQuery(table) == table[..Min(|table|, ITEMS_PER_PAGE)];
      assert [] + Parsed(FirstQuery(table)) == Parsed(FirstQuery(table));
    } else {
      AnyTable(table, k - 1);
      AfterOneMore(table, k, After(table, k - 1).value);
      NextLoad(table, k, After(table, k - 1).value, After(table, k));
    }
  }

  lemma WholeStore<V>(store: seq<Item<V>>, table: seq<Row<V>>, m: nat, complete: bool)
    requires m <= |table| && StoreOfFirst(store, table, m, complete)
    ensures store == Parsed(table) <==> complete && Parsed(table[m..]) == []
  {
    ParsedConcat(table[..m], table[m..]);
    assert table[..m] + table[m..] == table;
    assert |Parsed(table)| == |Parsed(table[..m])| + |Parsed(table[m..])|;
  }

  lemma {:induction false} WholeProgress<V>(table: seq<Row<V>>, k: nat, s: State<V>)
    requires table != [] && Progress(table, k, s)
    ensures s.store == Parsed(table) <==>
      CursorsOnDictionaries(table, k) && Parsed(table[LoadedRows(|table|, k)..]) == []
  {
    WholeStore(s.store, table, LoadedRows(|table|, k), CursorsOnDictionaries(table, k));
  }

  /** Bottom load number `k`, on any table: it traps, finishes or goes on by the number of dictionaries in its window.
      When it finishes, the store is all dictionaries of the table if and only if the cursor always stood on one and
      none is left behind the window. */
  lemma {:induction false} FinishedExactly<V>(table: seq<Row<V>>, k: nat)
    requires SortedByKey(table) && table != [] && k >= 1 && Proceeds(table, k - 1)
    ensures After(table, k).None? <==> Parsed(Window(table, k)) == []
    ensures After(table, k).Some? ==>
      var s := After(table, k).value;
      && (s.finished <==> |Parsed(Window(table, k))| == 1)
      && (s.store == Parsed(table) <==>
            CursorsOnDictionaries(table, k) && Parsed(table[LoadedRows(|table|, k)..]) == [])
  {
    AnyTable(table, k - 1);
    AfterOneMore(table, k, After(table, k - 1).value);
    NextLoad(table, k, After(table, k - 1).value, After(table, k));
    if After(table, k).Some? {
      WholeProgress(table, k, After(table, k).value);
    }
  }

  /** What is finished stays as it is. */
  lemma {:induction false} FinishedStays<V>(table: seq<Row<V>>, k: nat, k': nat)
    requires k <= k' && After(table, k).Some? && After(table, k).value.finished
    ensures After(table, k') == After(table, k)
    decreases k'
  {
    if k < k' {
      FinishedStays(table, k, k' - 1);
      AfterOneMore(table, k', After(table, k).value);
    }
  }

  /** A page without dictionaries finishes: of the keys 0 to 20, of which 10 to 19 are none, 20 is never stored. */
  lemma {:induction false} TwentyIsNeverLoaded(table: seq<Row<int>>, k: nat)
    requires |table| == 21 && k >= 1
    requires forall i :: 0 <= i < 21 ==> table[i] == Row(i, if 10 <= i < 20 then None else Some(i))
    ensures After(table, k).Some? && After(table, k).value.finished
    ensures After(table, k).value.store != Parsed(table)
  {
    assert Window(table, 1) == table[9..20];
    ParsedWindow(table, 10, 20);
    ParsedOne(table[9]);
    ParsedNothing(table[10..20]);
    assert |Parsed(table[9..20])| == 1;
    assert table[20..] == [table[20]];
    ParsedOne(table[20]);
    FinishedExactly(table, 1);
    FinishedStays(table, 1, k);
  }

  lemma {:induction false} ParsedNothing<V>(rows: seq<Row<V>>)
    requires forall i :: 0 <= i < |rows| ==> rows[i].dict.None?
    ensures Parsed(rows) == []
  {
    if rows != [] {
      ParsedNothing(rows[..|rows| - 1]);
    }
  }

  // ---------- Every interleaving ----------

  /** Where a run leads: a state, a trap, or nowhere, for a snapshot that answers no query. */
  datatype Outcome<V> = At(s: State<V>) | Trapped | Impossible

  /** The snapshot is what the table holds for the query. */
  ghost predicate Answers<V>(table: seq<Row<V>>, s: State<V>, e: Event<V>)
    requires Enabled(s, e)
  {
    match e
    case FirstDone(snapshot) => snapshot == FirstQuery(table)
    case BottomDone(i, snapshot) => snapshot == BottomQuery(table, s.bottomsInFlight[i])
    case _ => true
  }

  ghost function Run<V>(events: seq<Event<V>>, table: seq<Row<V>>): Outcome<V> {
    if events == [] then At(Initial())
    else
      var last := events[|events| - 1];
      match Run(events[..|events| - 1], table)
      case Trapped => Trapped
      case Impossible => Impossible
      case At(s) =>
        if !Enabled(s, last) || !Answers(table, s, last) then Impossible
        else
          match Step(s, last)
          case None => Trapped
          case Some(t) => At(t)
  }

  lemma RunOn<V>(events: seq<Event<V>>, e: Event<V>, table: seq<Row<V>>, s: State<V>)
    requires Run(events, table) == At(s) && Enabled(s, e) && Answers(table, s, e)
    ensures Run(events + [e], table) == match Step(s, e) case None => Trapped case Some(t) => At(t)
  {
    assert (events + [e])[..|events|] == events;
  }

  /** The row a load begins with: the row behind the cursor, and no cursor is like a cursor on the first row. */
  function StartOf<V>(table: seq<Row<V>>, load: Load): nat {
    match load
    case First => 0
    case Bottom(cursor) => |table| - |StartingAt(table, cursor)| + 1
  }

  function PageFrom<V>(table: seq<Row<V>>, start: nat): seq<Row<V>> {
    if start >= |table| then [] else table[start..Min(|table|, start + ITEMS_PER_PAGE)]
  }

  /** The rows of all loads, one load after the other. */
  function Pages<V>(table: seq<Row<V>>, loads: seq<Load>): seq<Row<V>> {
    if loads == [] then []
    else Pages(table, loads[..|loads| - 1]) + PageFrom(table, StartOf(table, loads[|loads| - 1]))
  }

  /** The cursor is nil or on a row. */
  ghost predicate InTable<V>(table: seq<Row<V>>, cursor: Option<int>) {
    cursor.None? || exists c :: 0 <= c < |table| && table[c].key == cursor.value
  }

  lemma CursorRow<V>(table: seq<Row<V>>, cursor: Option<int>) returns (c: nat)
    requires SortedByKey(table) && table != [] && InTable(table, cursor)
    ensures c < |table| && StartOf(table, Bottom(cursor)) == c + 1
    ensures BottomQuery(table, cursor) == BottomQuery(table, Some(table[c].key))
  {
    if cursor.None? {
      c := 0;
    } else {
      c :| 0 <= c < |table| && table[c].key == cursor.value;
    }
    StartingAtKey(table, c);
  }

  /** What every step keeps on a table of dictionaries. */
  ghost predicate Invariant<V>(table: seq<Row<V>>, s: State<V>) {
    && s.store == Parsed(Pages(table, s.loads))
    && InTable(table, s.cursor)
    && forall i :: 0 <= i < |s.bottomsInFlight| ==> InTable(table, s.bottomsInFlight[i])
  }

  lemma PagesOneMore<V>(table: seq<Row<V>>, loads: seq<Load>, load: Load)
    ensures Parsed(Pages(table, loads + [load]))
         == Parsed(Pages(table, loads)) + Parsed(PageFrom(table, StartOf(table, load)))
  {
    assert (loads + [load])[..|loads|] == loads;
    ParsedConcat(Pages(table, loads), PageFrom(table, StartOf(table, load)));
  }

  lemma FirstKeepsInvariant<V>(table: seq<Row<V>>, s: State<V>, snapshot: seq<Row<V>>)
    requires table != [] && Invariant(table, s) && s.firstsInFlight > 0 && snapshot == FirstQuery(table)
    ensures Invariant(table, Step(s, FirstDone(snapshot)).value)
  {
    var t := Step(s, FirstDone(snapshot)).value;
    PagesOneMore(table, s.loads, First);
    assert snapshot == PageFrom(table, 0);
    assert t.store == Parsed(Pages(table, t.loads));
    assert InTable(table, t.cursor) by {
      assert table[|snapshot| - 1] == snapshot[|snapshot| - 1];
    }
    assert t.bottomsInFlight == s.bottomsInFlight;
  }

  lemma BottomKeepsInvariant<V>(table: seq<Row<V>>, s: State<V>, i: nat, snapshot: seq<Row<V>>)
    requires SortedByKey(table) && AllDictionaries(table) && table != []
    requires Invariant(table, s) && i < |s.bottomsInFlight| && snapshot == BottomQuery(table, s.bottomsInFlight[i])
    ensures Step(s, BottomDone(i, snapshot)).Some? && Invariant(table, Step(s, BottomDone(i, snapshot)).value)
  {
    var cursor := s.bottomsInFlight[i];
    var c := CursorRow(table, cursor);
    PagesOneMore(table, s.loads, Bottom(cursor));
    BottomLoadedState(table, s, c);
    var m := Min(|table|, c + 1 + ITEMS_PER_PAGE);
    assert table[c + 1..m] == PageFrom(table, c + 1);
    assert InTable(table, Some(table[m - 1].key));
  }

  lemma StepKeepsInvariant<V>(table: seq<Row<V>>, s: State<V>, e: Event<V>)
    requires SortedByKey(table) && AllDictionaries(table) && table != []
    requires Invariant(table, s) && Enabled(s, e) && Answers(table, s, e)
    ensures Step(s, e).Some? && Invariant(table, Step(s, e).value)
  {
    match e
    case FirstDone(snapshot) => FirstKeepsInvariant(table, s, snapshot);
    case BottomDone(i, snapshot) => BottomKeepsInvariant(table, s, i, snapshot);
    case _ =>
  }

  // ---------- When each row is stored once ----------

  ghost predicate DistinctRows<V>(rows: seq<Row<V>>) {
    forall i, j :: 0 <= i < j < |rows| ==> rows[i].key != rows[j].key
  }

  ghost predicate HasKey<V>(rows: seq<Row<V>>, key: int) {
    exists i :: 0 <= i < |rows| && rows[i].key == key
  }

  /** Two loads share no row: one of them is past the end, or they begin at least a page apart. */
  predicate Apart(a: nat, b: nat, n: nat) {
    a >= n || b >= n || a + ITEMS_PER_PAGE <= b || b + ITEMS_PER_PAGE <= a
  }

  ghost predicate AllApart<V>(table: seq<Row<V>>, loads: seq<Load>) {
    forall i, j :: 0 <= i < j < |loads| ==> Apart(StartOf(table, loads[i]), StartOf(table, loads[j]), |table|)
  }

  ghost predicate ApartFromAll<V>(table: seq<Row<V>>, loads: seq<Load>, start: nat) {
    forall i :: 0 <= i < |loads| ==> Apart(StartOf(table, loads[i]), start, |table|)
  }

  ghost predicate ShareNothing<V>(a: seq<Row<V>>, b: seq<Row<V>>) {
    forall k :: 0 <= k < |b| ==> !HasKey(a, b[k].key)
  }

  ghost predicate Covered<V>(table: seq<Row<V>>, loads: seq<Load>, r: nat) {
    exists i :: 0 <= i < |loads| && StartOf(table, loads[i]) <= r < StartOf(table, loads[i]) + ITEMS_PER_PAGE
  }

  lemma HasKeyConcat<V>(a: seq<Row<V>>, b: seq<Row<V>>, key: int)
    ensures HasKey(a + b, key) <==> HasKey(a, key) || HasKey(b, key)
  {
    var all := a + b;
    if HasKey(a, key) {
      var i :| 0 <= i < |a| && a[i].key == key;
      assert all[i].key == key;
    }
    if HasKey(b, key) {
      var i :| 0 <= i < |b| && b[i].key == key;
      assert all[|a| + i].key == key;
    }
  }

  lemma PageHasKey<V>(table: seq<Row<V>>, start: nat, r: nat)
    requires SortedByKey(table) && r < |table|
    ensures HasKey(PageFrom(table, start), table[r].key) <==> start <= r < start + ITEMS_PER_PAGE
  {
    var page := PageFrom(table, start);
    if start <= r < start + ITEMS_PER_PAGE {
      assert page[r - start] == table[r];
    }
  }

  lemma CoveredOneMore<V>(table: seq<Row<V>>, loads: seq<Load>, load: Load, r: nat)
    ensures Covered(table, loads + [load], r)
        <==> Covered(table, loads, r) || StartOf(table, load) <= r < StartOf(table, load) + ITEMS_PER_PAGE
  {
    var all := loads + [load];
    assert all[|loads|] == load;
    if Covered(table, loads, r) {
      var i :| 0 <= i < |loads| && StartOf(table, loads[i]) <= r < StartOf(table, loads[i]) + ITEMS_PER_PAGE;
      assert all[i] == loads[i];
    }
  }

  lemma AllApartOneMore<V>(table: seq<Row<V>>, loads: seq<Load>, load: Load)
    ensures AllApart(table, loads + [load]) <==>
      AllApart(table, loads) && ApartFromAll(table, loads, StartOf(table, load))
  {
    var all := loads + [load];
    assert all[|loads|] == load && forall i :: 0 <= i < |loads| ==> all[i] == loads[i];
  }

  lemma {:induction false} PagesHaveKey<V>(table: seq<Row<V>>, loads: seq<Load>, r: nat)
    requires SortedByKey(table) && r < |table|
    ensures HasKey(Pages(table, loads), table[r].key) <==> Covered(table, loads, r)
  {
    if loads != [] {
      var init, last := loads[..|loads| - 1], loads[|loads| - 1];
      PagesHaveKey(table, init, r);
      assert Pages(table, loads) == Pages(table, init) + PageFrom(table, StartOf(table, last));
      HasKeyConcat(Pages(table, init), PageFrom(table, StartOf(table, last)), table[r].key);
      PageHasKey(table, StartOf(table, last), r);
      assert loads == init + [last];
      CoveredOneMore(table, init, last, r);
    }
  }

  lemma DistinctConcat<V>(a: seq<Row<V>>, b: seq<Row<V>>)
    ensures DistinctRows(a + b) <==> DistinctRows(a) && DistinctRows(b) && ShareNothing(a, b)
  {
    var all := a + b;
    if DistinctRows(all) {
      assert forall i :: 0 <= i < |a| ==> all[i] == a[i];
      assert forall k :: 0 <= k < |b| ==> all[|a| + k] == b[k];
    }
  }

  /** A page shares no row with earlier loads exactly when it is apart from each of them. */
  lemma SharesNothingExactly<V>(table: seq<Row<V>>, loads: seq<Load>, start: nat)
    requires SortedByKey(table)
    ensures ShareNothing(Pages(table, loads), PageFrom(table, start)) <==> ApartFromAll(table, loads, start)
  {
    var page, n := PageFrom(table, start), |table|;
    forall k | 0 <= k < |page| ensures HasKey(Pages(table, loads), page[k].key) <==> Covered(table, loads, start + k) {
      PagesHaveKey(table, loads, start + k);
      assert page[k] == table[start + k];
    }
    forall i | 0 <= i < |loads| && !Apart(StartOf(table, loads[i]), start, n)
      ensures exists k :: 0 <= k < |page| && HasKey(Pages(table, loads), page[k].key)
    {
      var a := StartOf(table, loads[i]);
      var k := if a <= start then 0 else a - start;
      assert Covered(table, loads, start + k);
      assert HasKey(Pages(table, loads), page[k].key);
    }
  }

  lemma DistinctOneMore<V>(table: seq<Row<V>>, loads: seq<Load>, load: Load)
    requires SortedByKey(table)
    ensures DistinctRows(Pages(table, loads + [load]))
        <==> DistinctRows(Pages(table, loads)) && ApartFromAll(table, loads, StartOf(table, load))
  {
    var before, page := Pages(table, loads), PageFrom(table, StartOf(table, load));
    assert Pages(table, loads + [load]) == before + page by {
      assert (loads + [load])[..|loads|] == loads;
    }
    assert DistinctRows(page);
    DistinctConcat(before, page);
    SharesNothingExactly(table, loads, StartOf(table, load));
  }

  lemma {:induction false} DistinctExactly<V>(table: seq<Row<V>>, loads: seq<Load>)
    requires SortedByKey(table)
    ensures DistinctRows(Pages(table, loads)) <==> AllApart(table, loads)
  {
    if loads != [] {
      var init, last := loads[..|loads| - 1], loads[|loads| - 1];
      assert loads == init + [last];
      DistinctExactly(table, init);
      DistinctOneMore(table, init, last);
      AllApartOneMore(table, init, last);
    }
  }

  lemma {:induction false} PagesAreRows<V>(table: seq<Row<V>>, loads: seq<Load>)
    requires AllDictionaries(table)
    ensures AllDictionaries(Pages(table, loads))
  {
    if loads != [] {
      PagesAreRows(table, loads[..|loads| - 1]);
    }
  }

  lemma {:induction false} EveryRun<V>(events: seq<Event<V>>, table: seq<Row<V>>)
    requires SortedByKey(table) && AllDictionaries(table) && table != []
    ensures !Run(events, table).Trapped?
    ensures Run(events, table).At? ==> Invariant(table, Run(events, table).s)
  {
    if events != [] {
      var before, last := events[..|events| - 1], events[|events| - 1];
      EveryRun(before, table);
      match Run(before, table)
      case At(s) =>
        if Enabled(s, last) && Answers(table, s, last) {
          StepKeepsInvariant(table, s, last);
        }
      case _ =>
    }
  }

  /** The exact condition, in every interleaving of calls and snapshots: nothing traps, the store is the pages of the
      completed loads, and each row is stored at most once if and only if any two of these loads, by the cursors they
      were issued with, begin at least a page apart or past the end. */
  lemma OverlappingLoadsExactly<V>(events: seq<Event<V>>, table: seq<Row<V>>)
    requires SortedByKey(table) && AllDictionaries(table) && table != []
    ensures !Run(events, table).Trapped?
    ensures Run(events, table).At? ==>
      var s := Run(events, table).s;
      s.store == Parsed(Pages(table, s.loads)) && (KeysOnce(s.store) <==> AllApart(table, s.loads))
  {
    EveryRun(events, table);
    if Run(events, table).At? {
      var loads := Run(events, table).s.loads;
      DistinctExactly(table, loads);
      PagesAreRows(table, loads);
      ParsedDictionaries(Pages(table, loads));
    }
  }

  // ---------- When a finished run holds every row ----------

  /** The start of the last bottom load that has completed, if any. */
  function LastBottomStart<V>(table: seq<Row<V>>, loads: seq<Load>): Option<nat> {
    if loads == [] then None
    else
      var last := loads[|loads| - 1];
      if last.Bottom? then Some(StartOf(table, last)) else LastBottomStart(table, loads[..|loads| - 1])
  }

  /** The last bottom load to complete began past the end. */
  predicate EndedPastTheEnd<V>(table: seq<Row<V>>, loads: seq<Load>) {
    LastBottomStart(table, loads).Some? && LastBottomStart(table, loads).value >= |table|
  }

  /** All rows but the first, up to where a load would begin, have been loaded. */
  ghost predicate Reached<V>(table: seq<Row<V>>, loads: seq<Load>, start: nat) {
    forall r :: 1 <= r < start && r < |table| ==> Covered(table, loads, r)
  }

  ghost predicate CursorReached<V>(table: seq<Row<V>>, loads: seq<Load>, cursor: Option<int>) {
    Reached(table, loads, StartOf(table, Bottom(cursor)))
  }

  /** No cursor runs ahead of what has been loaded, save for the first row. */
  ghost predicate Reaching<V>(table: seq<Row<V>>, s: State<V>) {
    && CursorReached(table, s.loads, s.cursor)
    && (forall i :: 0 <= i < |s.bottomsInFlight| ==> CursorReached(table, s.loads, s.bottomsInFlight[i]))
    && (s.finished ==> Reached(table, s.loads, |table|))
    && (s.finished <==> EndedPastTheEnd(table, s.loads))
  }

  /** One load more, up to the end of its page. */
  lemma ReachedOneMore<V>(table: seq<Row<V>>, loads: seq<Load>, load: Load, start: nat)
    ensures Reached(table, loads, start) ==> Reached(table, loads + [load], start)
    ensures (load == First || Reached(table, loads, StartOf(table, load))) ==>
      Reached(table, loads + [load], StartOf(table, load) + ITEMS_PER_PAGE)
  {
    forall r: nat ensures Covered(table, loads + [load], r) <==>
      Covered(table, loads, r) || StartOf(table, load) <= r < StartOf(table, load) + ITEMS_PER_PAGE
    {
      CoveredOneMore(table, loads, load, r);
    }
  }

  lemma StartBehindRow<V>(table: seq<Row<V>>, c: nat)
    requires SortedByKey(table) && c < |table|
    ensures StartOf(table, Bottom(Some(table[c].key))) == c + 1
  {
    StartingAtKey(table, c);
  }

  lemma LastBottomOneMore<V>(table: seq<Row<V>>, loads: seq<Load>, load: Load)
    ensures EndedPastTheEnd(table, loads + [load]) <==>
      if load.Bottom? then StartOf(table, load) >= |table| else EndedPastTheEnd(table, loads)
  {
    assert (loads + [load])[..|loads|] == loads;
  }

  lemma FirstKeepsReaching<V>(table: seq<Row<V>>, s: State<V>, snapshot: seq<Row<V>>)
    requires SortedByKey(table) && table != [] && Reaching(table, s)
    requires s.firstsInFlight > 0 && snapshot == FirstQuery(table)
    ensures Reaching(table, Step(s, FirstDone(snapshot)).value)
  {
    var t, m := Step(s, FirstDone(snapshot)).value, |snapshot|;
    LastBottomOneMore(table, s.loads, First);
    ReachedOneMore(table, s.loads, First, |table|);
    assert t.cursor == Some(table[m - 1].key);
    StartBehindRow(table, m - 1);
    forall i | 0 <= i < |t.bottomsInFlight| ensures CursorReached(table, t.loads, t.bottomsInFlight[i]) {
      ReachedOneMore(table, s.loads, First, StartOf(table, Bottom(s.bottomsInFlight[i])));
    }
  }

  lemma BottomKeepsReaching<V>(table: seq<Row<V>>, s: State<V>, i: nat, snapshot: seq<Row<V>>)
    requires SortedByKey(table) && AllDictionaries(table) && table != []
    requires Invariant(table, s) && Reaching(table, s)
    requires i < |s.bottomsInFlight| && snapshot == BottomQuery(table, s.bottomsInFlight[i])
    ensures Step(s, BottomDone(i, snapshot)).Some? && Reaching(table, Step(s, BottomDone(i, snapshot)).value)
  {
    var cursor, load := s.bottomsInFlight[i], Bottom(s.bottomsInFlight[i]);
    var c := CursorRow(table, cursor);
    BottomLoadedState(table, s, c);
    var t, m := Step(s, BottomDone(i, snapshot)).value, Min(|table|, c + 1 + ITEMS_PER_PAGE);
    LastBottomOneMore(table, s.loads, load);
    StartBehindRow(table, m - 1);
    assert CursorReached(table, s.loads, cursor);
    ReachedOneMore(table, s.loads, load, |table|);
    forall j | 0 <= j < |t.bottomsInFlight| ensures CursorReached(table, t.loads, t.bottomsInFlight[j]) {
      var k := if j < i then j else j + 1;
      assert t.bottomsInFlight[j] == s.bottomsInFlight[k];
      assert CursorReached(table, s.loads, s.bottomsInFlight[k]);
      ReachedOneMore(table, s.loads, load, StartOf(table, Bottom(s.bottomsInFlight[k])));
    }
  }

  lemma {:induction false} EveryRunReaches<V>(events: seq<Event<V>>, table: seq<Row<V>>)
    requires SortedByKey(table) && AllDictionaries(table) && table != []
    ensures Run(events, table).At? ==> Reaching(table, Run(events, table).s)
  {
    if events != [] {
      var before, last := events[..|events| - 1], events[|events| - 1];
      EveryRunReaches(before, table);
      EveryRun(before, table);
      match Run(before, table)
      case At(s) =>
        if Enabled(s, last) && Answers(table, s, last) {
          match last
          case FirstDone(snapshot) => FirstKeepsReaching(table, s, snapshot);
          case BottomDone(i, snapshot) => BottomKeepsReaching(table, s, i, snapshot);
          case _ =>
        }
      case _ =>
    }
  }

  ghost predicate Holds<V>(store: seq<Item<V>>, key: int) {
    exists i :: 0 <= i < |store| && store[i].key == key
  }

  /** In every run a row is stored exactly when some completed load covers it. */
  lemma StoredExactly<V>(events: seq<Event<V>>, table: seq<Row<V>>, r: nat)
    requires SortedByKey(table) && AllDictionaries(table) && r < |table| && Run(events, table).At?
    ensures var s := Run(events, table).s; Holds(s.store, table[r].key) <==> Covered(table, s.loads, r)
  {
    EveryRun(events, table);
    var s := Run(events, table).s;
    var rows := Pages(table, s.loads);
    PagesHaveKey(table, s.loads, r);
    PagesAreRows(table, s.loads);
    ParsedDictionaries(rows);
    assert forall i :: 0 <= i < |rows| ==> s.store[i].key == rows[i].key;
    if HasKey(rows, table[r].key) {
      var i :| 0 <= i < |rows| && rows[i].key == table[r].key;
      assert s.store[i].key == table[r].key;
    }
  }

  /** The flag is set exactly when the last bottom load to complete began past the end; and a run that has finished
      holds every row if and only if a first load has completed. */
  lemma FinishedRunHoldsAllExactly<V>(events: seq<Event<V>>, table: seq<Row<V>>)
    requires SortedByKey(table) && AllDictionaries(table) && table != [] && Run(events, table).At?
    ensures var s := Run(events, table).s;
      && (s.finished <==> EndedPastTheEnd(table, s.loads))
      && (s.finished ==> ((forall r :: 0 <= r < |table| ==> Holds(s.store, table[r].key)) <==> First in s.loads))
  {
    var s := Run(events, table).s;
    EveryRunReaches(events, table);
    if s.finished {
      FirstRowCovered(table, s.loads);
      forall r | 0 <= r < |table| ensures Holds(s.store, table[r].key) <==> r > 0 || First in s.loads {
        StoredExactly(events, table, r);
      }
      assert Holds(s.store, table[0].key) <==> First in s.loads;
    }
  }

  lemma FirstRowCovered<V>(table: seq<Row<V>>, loads: seq<Load>)
    ensures Covered(table, loads, 0) <==> First in loads
  {
    if First in loads {
      var i :| 0 <= i < |loads| && loads[i] == First;
      assert StartOf(table, loads[i]) == 0;
    }
  }

  /** A run on one row that finishes without storing it. */
  lemma FinishedAndEmpty(table: seq<Row<int>>)
    requires table == [Row(1, Some(10))]
    ensures var run := Run([LoadBottom, BottomDone(0, table)], table);
      run.At? && run.s.finished && run.s.store == []
  {
    var none: seq<Event<int>>, s0: State<int> := [], Initial();
    var e1, e2 := Event<int>.LoadBottom, BottomDone(0, table);
    ParsedDictionaries(table);
    RunOn(none, e1, table, s0);
    RunOn(none + [e1], e2, table, Step(s0, e1).value);
    assert none + [e1] + [e2] == [e1, e2];
  }

  // ---------- Page after page as a run ----------

  /** The calls and snapshots of loading page after page. */
  function InTurn<V>(table: seq<Row<V>>, k: nat): seq<Event<V>> {
    if k == 0 then [LoadFirst, FirstDone(FirstQuery(table))]
    else
      InTurn(table, k - 1) + [LoadBottom]
      + (match After(table, k - 1)
         case Some(s) => if s.finished then [] else [BottomDone(0, BottomQuery(table, s.cursor))]
         case None => [])
  }

  /** Loading page after page is one of the interleavings. */
  lemma {:induction false} InTurnIsARun<V>(table: seq<Row<V>>, k: nat)
    requires After(table, k).Some?
    ensures Run(InTurn(table, k), table).At?
    ensures var (s, t) := (After(table, k).value, Run(InTurn(table, k), table).s);
      && t.store == s.store && t.cursor == s.cursor && t.finished == s.finished
      && t.firstsInFlight == 0 && t.bottomsInFlight == []
  {
    if k == 0 {
      var none: seq<Event<V>> := [];
      RunOn(none, LoadFirst, table, Initial());
      RunOn(none + [LoadFirst], FirstDone(FirstQuery(table)), table, Initial().(firstsInFlight := 1));
      assert none + [LoadFirst] + [FirstDone(FirstQuery(table))] == InTurn(table, 0);
    } else {
      InTurnIsARun(table, k - 1);
      var before, s := InTurn(table, k - 1), After(table, k - 1).value;
      var t := Run(before, table).s;
      RunOn(before, LoadBottom, table, t);
      var u := Step(t, LoadBottom).value;
      if s.finished {
        assert before + [LoadBottom] + [] == before + [LoadBottom];
      } else {
        assert u.bottomsInFlight == [s.cursor];
        RunOn(before + [LoadBottom], BottomDone(0, BottomQuery(table, s.cursor)), table, u);
      }
    }
  }

  // ---------- Where it fails ----------

  /** A `loadBottom` before the first snapshot has arrived stores the second row twice. */
  lemma EarlyBottomStoresTwice(table: seq<Row<int>>)
    requires table == [Row(1, Some(10)), Row(2, Some(20))]
    ensures var run := Run([LoadFirst, LoadBottom, BottomDone(0, table), FirstDone(table)], table);
      run.At? && run.s.store == [Item(2, 20), Item(1, 10), Item(2, 20)]
  {
    var none: seq<Event<int>>, s0: State<int> := [], Initial();
    var e1, e2, e3, e4 := Event<int>.LoadFirst, Event<int>.LoadBottom, BottomDone(0, table), FirstDone(table);
    ParsedDictionaries(table);
    var s1 := Step(s0, e1).value;
    var s2 := Step(s1, e2).value;
    var s3 := Step(s2, e3).value;
    RunOn(none, e1, table, s0);
    RunOn(none + [e1], e2, table, s1);
    RunOn(none + [e1] + [e2], e3, table, s2);
    RunOn(none + [e1] + [e2] + [e3], e4, table, s3);
    assert none + [e1] + [e2] + [e3] + [e4] == [e1, e2, e3, e4];
    assert s3.store == [Item(2, 20)];
  }

  /** When the last row of the first page is no dictionary, the first dictionary of the next page is lost. */
  lemma LostBehindTheFirstPage<V>(table: seq<Row<V>>)
    requires SortedByKey(table) && |table| > ITEMS_PER_PAGE && table[ITEMS_PER_PAGE - 1].dict.None?
    ensures var page := Parsed(table[ITEMS_PER_PAGE..Min(|table|, 2 * ITEMS_PER_PAGE)]);
      if page == [] then After(table, 1).None?
      else After(table, 1).Some? && After(table, 1).value.store == Parsed(table[..ITEMS_PER_PAGE]) + page[1..]
  {
    var s := FirstLoaded(Initial(), FirstQuery(table));
    assert [] + Parsed(FirstQuery(table)) == Parsed(FirstQuery(table));
    assert After(table, 0) == Some(s);
    BottomLoadExactly(table, s, ITEMS_PER_PAGE - 1);
  }

  /** Such a table: of the keys 0 to 11 the cursor stops on 9, which is no dictionary, and 10 is lost. */
  lemma TenIsLost(table: seq<Row<int>>)
    requires |table| == 12 && forall i :: 0 <= i < 12 ==> table[i] == Row(i, if i == 9 then None else Some(i))
    ensures After(table, 1).Some?
    ensures var store := After(table, 1).value.store;
      Item(11, 11) in store && forall i :: 0 <= i < |store| ==> store[i].key != 10
  {
    LostBehindTheFirstPage(table);
    ParsedDictionaries(table[10..12]);
    ParsedKeys(table[..10]);
  }

  lemma {:induction false} ParsedKeys<V>(rows: seq<Row<V>>)
    ensures forall i :: 0 <= i < |Parsed(rows)| ==> HasKey(rows, Parsed(rows)[i].key)
  {
    if rows != [] {
      var init := rows[..|rows| - 1];
      ParsedKeys(init);
      forall i | 0 <= i < |Parsed(rows)| ensures HasKey(rows, Parsed(rows)[i].key) {
        HasKeyConcat(init, [rows[|rows| - 1]], Parsed(rows)[i].key);
        assert init + [rows[|rows| - 1]] == rows;
        assert [rows[|rows| - 1]][0] == rows[|rows| - 1];
      }
    }
  }

  /** On an empty table the first `loadBottom` traps. */
  lemma EmptyTableTraps<V>()
    ensures After<V>([], 0) == Some(Initial()) && After<V>([], 1) == None
  {
    assert [] + Parsed<V>([]) == [];
  }
}
