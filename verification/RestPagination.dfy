/** `ATCGenericRestAPIDataSource` with the list controller that mirrors it. Requests are asynchronous: a call issues
    one, and its response arrives later, in any interleaving with the others. */
module RestPagination {
  import opened Options

  type Description<!T> = T -> string

  // ---------- First occurrences ----------

  ghost predicate IsFirst<T>(xs: seq<T>, i: nat, describe: Description<T>)
    requires i < |xs|
  {
    forall j :: 0 <= j < i ==> describe(xs[j]) != describe(xs[i])
  }

  /** The objects of `xs` that are not described like an earlier one, in order. */
  ghost function FirstOccurrences<T>(xs: seq<T>, describe: Description<T>): seq<T> {
    if xs == [] then []
    else
      var i := |xs| - 1;
      FirstOccurrences(xs[..i], describe) + (if IsFirst(xs, i, describe) then [xs[i]] else [])
  }

  predicate Describes<T>(xs: seq<T>, d: string, describe: Description<T>) {
    exists i :: 0 <= i < |xs| && describe(xs[i]) == d
  }

  ghost predicate AllDifferent<T>(f: seq<T>, describe: Description<T>) {
    forall i, j :: 0 <= i < j < |f| ==> describe(f[i]) != describe(f[j])
  }

  /** Nothing described is lost, and no description occurs twice. */
  lemma {:induction false} FirstOccurrencesMeaning<T>(xs: seq<T>, describe: Description<T>)
    ensures forall d :: Describes(FirstOccurrences(xs, describe), d, describe) <==> Describes(xs, d, describe)
    ensures AllDifferent(FirstOccurrences(xs, describe), describe)
    decreases |xs|
  {
    if xs != [] {
      var i := |xs| - 1;
      var before, f := FirstOccurrences(xs[..i], describe), FirstOccurrences(xs, describe);
      FirstOccurrencesMeaning(xs[..i], describe);
      assert IsFirst(xs, i, describe) <==> !Describes(xs[..i], describe(xs[i]), describe);
      DescribesOneMore(xs[..i], xs[i], describe);
      assert xs == xs[..i] + [xs[i]];
      if IsFirst(xs, i, describe) {
        DescribesOneMore(before, xs[i], describe);
        assert forall k :: 0 <= k < |before| ==> Describes(before, describe(before[k]), describe);
      } else {
        assert f == before;
      }
    }
  }

  lemma DescribesOneMore<T>(xs: seq<T>, x: T, describe: Description<T>)
    ensures forall d :: Describes(xs + [x], d, describe) <==> Describes(xs, d, describe) || d == describe(x)
  {
    forall d ensures Describes(xs + [x], d, describe) <==> Describes(xs, d, describe) || d == describe(x) {
      var ys := xs + [x];
      assert ys[|xs|] == x;
      if Describes(xs, d, describe) {
        var i :| 0 <= i < |xs| && describe(xs[i]) == d;
        assert ys[i] == xs[i];
      }
    }
  }

  /** Keeping a list free of repetitions as objects arrive keeps exactly the first occurrences. */
  lemma OneMore<T>(xs: seq<T>, x: T, describe: Description<T>)
    ensures var f := FirstOccurrences(xs, describe);
      FirstOccurrences(xs + [x], describe) == if Describes(f, describe(x), describe) then f else f + [x]
  {
    var ys, f := xs + [x], FirstOccurrences(xs, describe);
    assert ys[..|xs|] == xs;
    FirstOccurrencesMeaning(xs, describe);
    assert IsFirst(ys, |xs|, describe) <==> !Describes(xs, describe(x), describe) by {
      forall j | 0 <= j < |xs| ensures ys[j] == xs[j] {}
    }
  }

  lemma {:induction false} ManyMore<T>(xs: seq<T>, ys: seq<T>, describe: Description<T>)
    ensures FirstOccurrences(xs, describe) <= FirstOccurrences(xs + ys, describe)
    decreases |ys|
  {
    if ys == [] {
      assert xs + ys == xs;
    } else {
      var init, last := ys[..|ys| - 1], ys[|ys| - 1];
      assert xs + ys == (xs + init) + [last];
      ManyMore(xs, init, describe);
      OneMore(xs + init, last, describe);
    }
  }

  // ---------- Responses, events, states ----------

  /** `objects` is nil when the body is not a list. */
  datatype Response<T> = Success(objects: Option<seq<T>>) | Error {
    function Objects(): seq<T> {
      if Success? && objects.Some? then objects.value else []
    }
  }

  datatype Event<T> =
    | LoadFirst
    | LoadBottom
    | LoadTop
    | WillDisplay(row: nat)
    | FirstDone(response: Response<T>)
    | BottomDone(response: Response<T>)
    | TopDone(response: Response<T>)

  /** The fields of the data source, the requests in flight, the pages asked for, the rows on screen, and what the
      delegate was told of, response by response. */
  datatype State<T> = State(
    store: seq<T>,
    currentPage: nat,
    bottomEnded: bool,
    loadingBottom: bool,
    loadingTop: bool,
    firstInFlight: nat,
    bottomInFlight: nat,
    topInFlight: nat,
    pages: seq<nat>,
    rows: seq<T>,
    reports: seq<seq<T>>)

  function Initial<T>(): State<T> {
    State([], 0, false, false, false, 0, 0, 0, [], [], [])
  }

  /** A response can only arrive for a request in flight. */
  predicate Enabled<T>(s: State<T>, e: Event<T>) {
    match e
    case FirstDone(_) => s.firstInFlight > 0
    case BottomDone(_) => s.bottomInFlight > 0
    case TopDone(_) => s.topInFlight > 0
    case _ => true
  }

  /** The store after the objects of a response, each kept unless the store has one described like it. */
  function Appended<T>(store: seq<T>, objects: seq<T>, describe: Description<T>): (r: seq<T>)
    ensures store <= r
  {
    if objects == [] then store
    else
      var before := Appended(store, objects[..|objects| - 1], describe);
      var x := objects[|objects| - 1];
      if Describes(before, describe(x), describe) then before else before + [x]
  }

  /** Inserting the rows from `offset` on into a list that shows `rows`. */
  function RowsInserted<T>(rows: seq<T>, store: seq<T>, offset: nat): seq<T>
    requires offset <= |rows| && offset <= |store|
  {
    rows[..offset] + store[offset..] + rows[offset..]
  }

  /** The collection view accepts an insertion only if the row counts before and after agree with it. */
  predicate InsertionAccepted<T>(rows: seq<T>, store: seq<T>, inserted: nat) {
    inserted <= |store| && |rows| + inserted == |store|
  }

  function Requested<T>(s: State<T>): State<T> {
    if s.loadingBottom || s.bottomEnded then s
    else s.(loadingBottom := true, bottomInFlight := s.bottomInFlight + 1, pages := s.pages + [s.currentPage])
  }

  /** `None` is the exception of a rejected insertion. */
  function Step<T>(s: State<T>, e: Event<T>, describe: Description<T>): Option<State<T>>
    requires Enabled(s, e)
  {
    match e
    case LoadFirst => Some(s.(firstInFlight := s.firstInFlight + 1))
    case LoadBottom => Some(Requested(s))
    case LoadTop =>
      Some(if s.loadingTop then s else s.(loadingTop := true, topInFlight := s.topInFlight + 1))
    case WillDisplay(row) => Some(if row + 1 >= |s.store| then Requested(s) else s)
    case FirstDone(response) =>
      var t := s.(firstInFlight := s.firstInFlight - 1);
      if response.Error? then Some(t)
      else
        var store := Appended(s.store, response.Objects(), describe);
        Some(t.(currentPage := 1, store := store, rows := store,
                bottomEnded := s.bottomEnded || response.Objects() == [],
                reports := s.reports + [store[|s.store|..]]))
    case BottomDone(response) =>
      var t := s.(bottomInFlight := s.bottomInFlight - 1);
      if response.Error? then Some(t)
      else
        var store := Appended(s.store, response.Objects(), describe);
        var inserted := |store| - |s.store|;
        if !InsertionAccepted(s.rows, store, inserted) then None
        else
          Some(t.(currentPage := s.currentPage + 1, store := store, loadingBottom := false,
                  rows := RowsInserted(s.rows, store, |store| - inserted), reports := s.reports + [store[|s.store|..]],
                  bottomEnded := s.bottomEnded || response.Objects() == []))
    case TopDone(response) =>
      var t := s.(topInFlight := s.topInFlight - 1);
      if response.Error? then Some(t)
      else
        var store := Appended(s.store, response.Objects(), describe);
        Some(t.(store := store, rows := store, loadingTop := false, reports := s.reports + [store[|s.store|..]]))
  }

  // ---------- The classes ----------

  /** The list controller, as far as the rows on screen go, and what it was told of. */
  class ListController<T> {
    var rows: seq<T>
    var reports: seq<seq<T>>

    constructor ()
      ensures rows == [] && reports == []
    {
      rows, reports := [], [];
    }

    method ReloadCollectionView(store: seq<T>)
      modifies `rows
      ensures rows == store
    {
      rows := store;
    }

    /** `didLoadFirst` and `didLoadTop` reload, whatever the objects. */
    method DidLoadFirstOrTop(store: seq<T>, objects: seq<T>)
      modifies this
      ensures rows == store && reports == old(reports) + [objects]
    {
      reports := reports + [objects];
      ReloadCollectionView(store);
    }

    /** `didLoadBottom` inserts as many rows as were loaded, behind the others. */
    method DidLoadBottom(store: seq<T>, objects: seq<T>) returns (accepted: bool)
      requires |objects| <= |store|
      modifies this
      ensures accepted <==> InsertionAccepted(old(rows), store, |objects|)
      ensures accepted ==> rows == RowsInserted(old(rows), store, |store| - |objects|)
      ensures !accepted ==> rows == old(rows)
      ensures reports == old(reports) + [objects]
    {
      reports := reports + [objects];
      var offset := |store| - |objects|;
      accepted := |rows| + |objects| == |store|;
      if accepted {
        rows := rows[..offset] + store[offset..] + rows[offset..];
      }
    }
  }

  class RestAPIDataSource<T> {
    const describe: Description<T>
    const delegate: ListController<T>
    var store: seq<T>
    var currentPage: nat
    var bottomStreamLoadingEnded: bool
    var isLoadingBottom: bool
    var isLoadingTop: bool
    // the requests made of the server
    var firstInFlight: nat
    var bottomInFlight: nat
    var topInFlight: nat
    var pages: seq<nat>

    constructor (describe: Description<T>, delegate: ListController<T>)
      requires delegate.rows == [] && delegate.reports == []
      ensures this.describe == describe && this.delegate == delegate && Value() == Initial()
    {
      this.describe, this.delegate := describe, delegate;
      store, currentPage := [], 0;
      bottomStreamLoadingEnded, isLoadingBottom, isLoadingTop := false, false, false;
      firstInFlight, bottomInFlight, topInFlight, pages := 0, 0, 0, [];
    }

    ghost function Value(): State<T>
      reads this, delegate
    {
      State(store, currentPage, bottomStreamLoadingEnded, isLoadingBottom, isLoadingTop,
            firstInFlight, bottomInFlight, topInFlight, pages, delegate.rows, delegate.reports)
    }

    /** `store.filter { … }.count > 0`. */
    method FindStreamObject(candidate: T) returns (found: bool)
      ensures found <==> Describes(store, describe(candidate), describe)
    {
      var count := 0;
      for i := 0 to |store|
        invariant count >= 0
        invariant count > 0 <==> exists k :: 0 <= k < i && describe(store[k]) == describe(candidate)
      {
        if describe(candidate) == describe(store[i]) {
          count := count + 1;
        }
      }
      found := count > 0;
    }

    /** The `forEach` that all three completions share; `results` is the suffix it appends. */
    method AppendNew(objects: seq<T>) returns (results: seq<T>)
      modifies `store
      ensures store == Appended(old(store), objects, describe)
      ensures store == old(store) + results
    {
      results := [];
      for i := 0 to |objects|
        invariant store == Appended(old(store), objects[..i], describe)
        invariant store == old(store) + results
      {
        assert objects[..i + 1][..i] == objects[..i];
        var found := FindStreamObject(objects[i]);
        if !found {
          store := store + [objects[i]];
          results := results + [objects[i]];
        }
      }
      assert objects[..|objects|] == objects;
    }

    method LoadFirst()
      modifies this
      ensures Some(Value()) == Step(old(Value()), Event.LoadFirst, describe)
    {
      firstInFlight := firstInFlight + 1;
    }

    method FirstCompleted(response: Response<T>)
      requires Enabled(Value(), FirstDone(response))
      modifies this, delegate
      ensures Some(Value()) == Step(old(Value()), FirstDone(response), describe)
    {
      firstInFlight := firstInFlight - 1;
      match response
      case Success(objects) =>
        currentPage := 1;
        var results := AppendNew(response.Objects());
        if response.Objects() == [] {
          bottomStreamLoadingEnded := true;
        }
        delegate.DidLoadFirstOrTop(store, results);
      case Error =>
    }

    method LoadBottom()
      modifies this
      ensures Some(Value()) == Step(old(Value()), Event.LoadBottom, describe)
    {
      if isLoadingBottom || bottomStreamLoadingEnded {
        return;
      }
      isLoadingBottom := true;
      bottomInFlight, pages := bottomInFlight + 1, pages + [currentPage];
    }

    /** The controller asks for more when the last row comes on screen. */
    method WillDisplay(row: nat)
      modifies this
      ensures Some(Value()) == Step(old(Value()), Event.WillDisplay(row), describe)
    {
      if row + 1 >= |store| {
        LoadBottom();
      }
    }

    /** `ok` is false when the collection view rejects the insertion. */
    method BottomCompleted(response: Response<T>) returns (ok: bool)
      requires Enabled(Value(), BottomDone(response))
      modifies this, delegate
      ensures ok <==> Step(old(Value()), BottomDone(response), describe).Some?
      ensures ok ==> Some(Value()) == Step(old(Value()), BottomDone(response), describe)
    {
      bottomInFlight := bottomInFlight - 1;
      ok := true;
      match response
      case Success(objects) =>
        currentPage := currentPage + 1;
        var results := AppendNew(response.Objects());
        if response.Objects() == [] {
          bottomStreamLoadingEnded := true;
        }
        isLoadingBottom := false;
        ok := delegate.DidLoadBottom(store, results);
      case Error =>
    }

    method LoadTop()
      modifies this
      ensures Some(Value()) == Step(old(Value()), Event.LoadTop, describe)
    {
      if isLoadingTop {
        return;
      }
      isLoadingTop := true;
      topInFlight := topInFlight + 1;
    }

    method TopCompleted(response: Response<T>)
      requires Enabled(Value(), TopDone(response))
      modifies this, delegate
      ensures Some(Value()) == Step(old(Value()), TopDone(response), describe)
    {
      topInFlight := topInFlight - 1;
      match response
      case Success(objects) =>
        var results := AppendNew(response.Objects());
        isLoadingTop := false;
        delegate.DidLoadFirstOrTop(store, results);
      case Error =>
    }
  }

  // ---------- Runs ----------

  /** Where a run leads: a state, the exception of a rejected insertion, or nowhere, for a response nobody asked for. */
  datatype Outcome<T> = At(s: State<T>) | Rejected | Impossible

  function After<T>(events: seq<Event<T>>, describe: Description<T>): Outcome<T> {
    if events == [] then At(Initial())
    else
      var last := events[|events| - 1];
      match After(events[..|events| - 1], describe)
      case Rejected => Rejected
      case Impossible => Impossible
      case At(s) =>
        if !Enabled(s, last) then Impossible
        else
          match Step(s, last, describe)
          case None => Rejected
          case Some(t) => At(t)
  }

  lemma LastStep<T>(events: seq<Event<T>>, e: Event<T>, describe: Description<T>)
    requires After(events + [e], describe).At?
    ensures After(events, describe).At? && Enabled(After(events, describe).s, e)
    ensures Step(After(events, describe).s, e, describe) == Some(After(events + [e], describe).s)
  {}

  function Received<T>(e: Event<T>): seq<T> {
    if e.FirstDone? || e.BottomDone? || e.TopDone? then e.response.Objects() else []
  }

  /** All objects of all successful responses, in completion order. */
  function Log<T>(events: seq<Event<T>>): seq<T> {
    if events == [] then [] else Log(events[..|events| - 1]) + Received(events[|events| - 1])
  }

  predicate BottomFails<T>(e: Event<T>) {
    e.BottomDone? && e.response.Error?
  }

  ghost predicate BottomFailed<T>(events: seq<Event<T>>) {
    exists i :: 0 <= i < |events| && BottomFails(events[i])
  }

  predicate TopFails<T>(e: Event<T>) {
    e.TopDone? && e.response.Error?
  }

  ghost predicate TopFailed<T>(events: seq<Event<T>>) {
    exists i :: 0 <= i < |events| && TopFails(events[i])
  }

  /** What every step keeps; `log` is what was received, `failed` and `topFailed` say that a bottom or top request
      failed. */
  ghost predicate Invariant<T>(s: State<T>, log: seq<T>, failed: bool, topFailed: bool, describe: Description<T>) {
    && s.store == FirstOccurrences(log, describe)
    && s.rows == s.store
    && s.bottomInFlight <= 1 && s.topInFlight <= 1
    && (s.loadingBottom <==> s.bottomInFlight == 1 || failed)
    && (failed ==> s.bottomInFlight == 0)
    && (s.loadingTop <==> s.topInFlight == 1 || topFailed)
    && (topFailed ==> s.topInFlight == 0)
  }

  lemma {:induction false} AppendedIsFirstOccurrences<T>(log: seq<T>, objects: seq<T>, describe: Description<T>)
    ensures Appended(FirstOccurrences(log, describe), objects, describe) == FirstOccurrences(log + objects, describe)
    decreases |objects|
  {
    if objects == [] {
      assert log + objects == log;
    } else {
      var init, last := objects[..|objects| - 1], objects[|objects| - 1];
      AppendedIsFirstOccurrences(log, init, describe);
      assert log + objects == (log + init) + [last] by {
        assert objects == init + [last];
      }
      OneMore(log + init, last, describe);
    }
  }

  /** An insertion at the end of a mirrored store is accepted and mirrors the new store. */
  lemma InsertedAtTheEnd<T>(store: seq<T>, more: seq<T>)
    requires store <= more
    ensures InsertionAccepted(store, more, |more| - |store|)
    ensures RowsInserted(store, more, |store|) == more
  {}

  lemma StepKeepsInvariant<T>(s: State<T>, e: Event<T>, log: seq<T>, failed: bool, topFailed: bool,
                              describe: Description<T>)
    requires Invariant(s, log, failed, topFailed, describe) && Enabled(s, e)
    ensures Step(s, e, describe).Some?
    ensures Invariant(Step(s, e, describe).value, log + Received(e),
                      failed || BottomFails(e), topFailed || TopFails(e), describe)
  {
    AppendedIsFirstOccurrences(log, Received(e), describe);
    ManyMore(log, Received(e), describe);
    InsertedAtTheEnd(s.store, FirstOccurrences(log + Received(e), describe));
    if Received(e) == [] {
      assert log + Received(e) == log;
    }
  }

  lemma FailedOneMore<T>(events: seq<Event<T>>, e: Event<T>)
    ensures BottomFailed(events + [e]) <==> BottomFailed(events) || BottomFails(e)
    ensures TopFailed(events + [e]) <==> TopFailed(events) || TopFails(e)
  {
    var all := events + [e];
    assert all[|events|] == e;
    if BottomFailed(events) {
      var i :| 0 <= i < |events| && BottomFails(events[i]);
      assert BottomFails(all[i]);
    }
    if TopFailed(events) {
      var i :| 0 <= i < |events| && TopFails(events[i]);
      assert TopFails(all[i]);
    }
  }

  /** In every interleaving: the store is the first occurrences of all that was received, the rows shown are the store,
      no insertion is rejected, and at most one bottom and one top request are in flight. */
  lemma {:induction false} EveryRun<T>(events: seq<Event<T>>, describe: Description<T>)
    ensures !After(events, describe).Rejected?
    ensures After(events, describe).At? ==>
      Invariant(After(events, describe).s, Log(events), BottomFailed(events), TopFailed(events), describe)
    decreases |events|
  {
    if events != [] {
      var before, last := events[..|events| - 1], events[|events| - 1];
      EveryRun(before, describe);
      FailedOneMore(before, last);
      assert events == before + [last];
      match After(before, describe)
      case At(s) =>
        if Enabled(s, last) {
          StepKeepsInvariant(s, last, Log(before), BottomFailed(before), TopFailed(before), describe);
        }
      case _ =>
    }
  }

  predicate Succeeds<T>(e: Event<T>) {
    (e.FirstDone? || e.BottomDone? || e.TopDone?) && e.response.Success?
  }

  /** The objects of all reports. */
  function Joined<T>(reports: seq<seq<T>>): seq<T> {
    if reports == [] then [] else Joined(reports[..|reports| - 1]) + reports[|reports| - 1]
  }

  /** What a successful response reports to the delegate is exactly the suffix it appended: its objects that nothing
      received before, and no earlier one of its own, is described like. Nothing else is reported. */
  lemma ReportedResults<T>(events: seq<Event<T>>, e: Event<T>, describe: Description<T>)
    requires After(events + [e], describe).At?
    ensures After(events, describe).At?
    ensures var (s, t) := (After(events, describe).s, After(events + [e], describe).s);
      && t.store == FirstOccurrences(Log(events) + Received(e), describe)
      && s.store <= t.store
      && (Succeeds(e) ==> t.reports == s.reports + [t.store[|s.store|..]])
      && (!Succeeds(e) ==> t.reports == s.reports && t.store == s.store)
  {
    var all := events + [e];
    assert all[..|all| - 1] == events;
    EveryRun(all, describe);
    LastStep(events, e, describe);
    StepReports(After(events, describe).s, e, describe);
  }

  lemma StepReports<T>(s: State<T>, e: Event<T>, describe: Description<T>)
    requires Enabled(s, e) && Step(s, e, describe).Some?
    ensures var t := Step(s, e, describe).value;
      && s.store <= t.store
      && t.reports == (if Succeeds(e) then s.reports + [t.store[|s.store|..]] else s.reports)
      && (!Succeeds(e) ==> t.store == s.store)
  {}

  /** So the reports, joined, are the store, in every interleaving. */
  lemma {:induction false} ReportsMakeTheStore<T>(events: seq<Event<T>>, describe: Description<T>)
    requires After(events, describe).At?
    ensures var s := After(events, describe).s; Joined(s.reports) == s.store
    decreases |events|
  {
    if events != [] {
      var before, last := events[..|events| - 1], events[|events| - 1];
      assert events == before + [last];
      ReportedResults(before, last, describe);
      ReportsMakeTheStore(before, describe);
      var (s, t) := (After(before, describe).s, After(events, describe).s);
      if Succeeds(last) {
        assert t.reports[..|t.reports| - 1] == s.reports;
      }
    }
  }

  /** A bottom request is made exactly when none is in flight, none has failed, and the stream has not ended. */
  lemma BottomRequestExactly<T>(events: seq<Event<T>>, describe: Description<T>)
    requires After(events, describe).At?
    ensures var s := After(events, describe).s;
      Requested(s) == s <==> s.bottomInFlight == 1 || BottomFailed(events) || s.bottomEnded
  {
    EveryRun(events, describe);
    var s := After(events, describe).s;
    assert |s.pages + [s.currentPage]| != |s.pages|;
  }

  /** A top request is made exactly when none is in flight and none has failed: after one failure, never again. */
  lemma TopRequestExactly<T>(events: seq<Event<T>>, describe: Description<T>)
    requires After(events, describe).At?
    ensures var s := After(events, describe).s;
      Step(s, LoadTop, describe) == Some(s) <==> s.topInFlight == 1 || TopFailed(events)
  {
    EveryRun(events, describe);
  }

  /** With nothing in flight, failed or ended, a row asks for the next page exactly if it is the last one or beyond. */
  lemma LastRowAsks<T>(s: State<T>, row: nat, describe: Description<T>)
    requires !s.loadingBottom && !s.bottomEnded
    ensures var t := Step(s, WillDisplay(row), describe).value;
      && (row >= |s.store| - 1 ==> t.pages == s.pages + [s.currentPage] && t.bottomInFlight == s.bottomInFlight + 1)
      && (row < |s.store| - 1 ==> t == s)
  {}

  // ---------- When the stream ends, and what is in flight ----------

  /** A first or bottom response that is empty, or no list at all. Responses to `loadTop` do not count. */
  predicate EndsStream<T>(e: Event<T>) {
    && (e.FirstDone? || e.BottomDone?)
    && e.response.Success? && (e.response.objects.None? || e.response.objects.value == [])
  }

  lemma {:induction false} SomeOneMore<T>(events: seq<Event<T>>, e: Event<T>)
    ensures (exists i :: 0 <= i < |events + [e]| && EndsStream((events + [e])[i])) <==>
      (exists i :: 0 <= i < |events| && EndsStream(events[i])) || EndsStream(e)
  {
    var all := events + [e];
    assert all[|events|] == e;
    if i :| 0 <= i < |events| && EndsStream(events[i]) {
      assert EndsStream(all[i]);
    }
  }

  /** The stream has ended exactly if a first or bottom response was empty. */
  lemma {:induction false} StreamEndsExactly<T>(events: seq<Event<T>>, describe: Description<T>)
    requires After(events, describe).At?
    ensures After(events, describe).s.bottomEnded <==> exists i :: 0 <= i < |events| && EndsStream(events[i])
    decreases |events|
  {
    if events != [] {
      var before, last := events[..|events| - 1], events[|events| - 1];
      assert events == before + [last];
      LastStep(before, last, describe);
      StreamEndsExactly(before, describe);
      SomeOneMore(before, last);
    }
  }

  datatype Kind = FirstAsked | FirstAnswered | BottomAnswered

  predicate IsOf<T>(e: Event<T>, kind: Kind) {
    match kind
    case FirstAsked => e.LoadFirst?
    case FirstAnswered => e.FirstDone?
    case BottomAnswered => e.BottomDone?
  }

  /** The number of events of a kind. */
  function CountOf<T>(events: seq<Event<T>>, kind: Kind): nat {
    if events == [] then 0
    else CountOf(events[..|events| - 1], kind) + (if IsOf(events[|events| - 1], kind) then 1 else 0)
  }

  /** What was asked for has been answered or is in flight. */
  lemma {:induction false} InFlightExactly<T>(events: seq<Event<T>>, describe: Description<T>)
    requires After(events, describe).At?
    ensures var s := After(events, describe).s;
      && s.firstInFlight + CountOf(events, FirstAnswered) == CountOf(events, FirstAsked)
      && s.bottomInFlight + CountOf(events, BottomAnswered) == |s.pages|
    decreases |events|
  {
    if events != [] {
      var before, last := events[..|events| - 1], events[|events| - 1];
      assert events == before + [last];
      LastStep(before, last, describe);
      InFlightExactly(before, describe);
    }
  }

  lemma StepAsksNothing<T>(s: State<T>, e: Event<T>, describe: Description<T>)
    requires s.bottomEnded || (s.loadingBottom && s.bottomInFlight == 0)
    requires Enabled(s, e) && Step(s, e, describe).Some?
    ensures Step(s, e, describe).value.pages == s.pages
    ensures s.bottomEnded ==> Step(s, e, describe).value.bottomEnded
  {}

  /** Once the stream has ended or a bottom request has failed, no page is ever asked for again. */
  lemma {:induction false} NoMorePages<T>(events: seq<Event<T>>, more: seq<Event<T>>, describe: Description<T>)
    requires After(events + more, describe).At? && After(events, describe).At?
    requires BottomFailed(events) || After(events, describe).s.bottomEnded
    ensures After(events + more, describe).s.pages == After(events, describe).s.pages
    ensures BottomFailed(events + more) || After(events + more, describe).s.bottomEnded
    decreases |more|
  {
    if more == [] {
      assert events + more == events;
    } else {
      var last, before := more[|more| - 1], events + more[..|more| - 1];
      assert events + more == before + [last] by {
        assert more == more[..|more| - 1] + [last];
      }
      LastStep(before, last, describe);
      NoMorePages(events, more[..|more| - 1], describe);
      EveryRun(before, describe);
      StepAsksNothing(After(before, describe).s, last, describe);
      FailedOneMore(before, last);
    }
  }

  lemma StepAfter<T>(events: seq<Event<T>>, e: Event<T>, s: State<T>, describe: Description<T>)
    requires After(events, describe) == At(s) && Enabled(s, e) && Step(s, e, describe).Some?
    ensures After(events + [e], describe) == At(Step(s, e, describe).value)
  {
    assert (events + [e])[..|events|] == events;
  }

  /** Whatever the first page, when the bottom request for the second fails, the next call asks for nothing. */
  lemma FailedBottomIsFinal<T>(page: seq<T>, describe: Description<T>)
    requires page != []
    ensures var asked := [LoadFirst, FirstDone(Success(Some(page))), LoadBottom];
      var before, after := After(asked, describe), After(asked + [BottomDone(Error), LoadBottom], describe);
      && before.At? && before.s.pages == [1] && before.s.bottomInFlight == 1
      && after.At? && after.s.pages == [1] && after.s.bottomInFlight == 0 && !after.s.bottomEnded
  {
    var none: seq<Event<T>> := [];
    var e1, e2 := Event<T>.LoadFirst, FirstDone(Success(Some(page)));
    var e3, e4: Event<T> := Event<T>.LoadBottom, BottomDone(Error);
    var s0: State<T> := Initial();
    StepAfter(none, e1, s0, describe);
    var s1 := Step(s0, e1, describe).value;
    StepAfter(none + [e1], e2, s1, describe);
    var s2 := Step(s1, e2, describe).value;
    StepAfter(none + [e1] + [e2], e3, s2, describe);
    var s3 := Step(s2, e3, describe).value;
    StepAfter(none + [e1] + [e2] + [e3], e4, s3, describe);
    var s4 := Step(s3, e4, describe).value;
    StepAfter(none + [e1] + [e2] + [e3] + [e4], e3, s4, describe);
    assert none + [e1] + [e2] + [e3] == [e1, e2, e3];
    assert none + [e1] + [e2] + [e3] + [e4] + [e3] == [e1, e2, e3] + [e4, e3];
  }

  // ---------- Page numbers ----------

  predicate FirstSucceeds<T>(e: Event<T>) {
    e.FirstDone? && e.response.Success?
  }

  ghost predicate Numbered<T>(s: State<T>) {
    && (forall k :: 0 <= k < |s.pages| ==> s.pages[k] == k + 1)
    && s.currentPage == |s.pages| + (if s.loadingBottom then 0 else 1)
  }

  lemma {:induction false} NothingAskedYet<T>(events: seq<Event<T>>, describe: Description<T>)
    requires After(events, describe).At? && After(events, describe).s.pages == []
    ensures var s := After(events, describe).s; !s.loadingBottom && s.bottomInFlight == 0
    decreases |events|
  {
    if events != [] {
      var before, last := events[..|events| - 1], events[|events| - 1];
      assert events == before + [last];
      LastStep(before, last, describe);
      NothingAskedYet(before, describe);
    }
  }

  /** Before the first page is there, page 0 is the first to be asked for. */
  lemma {:induction false} FirstAskedForIsZero<T>(events: seq<Event<T>>, describe: Description<T>)
    requires After(events, describe).At? && forall i :: 0 <= i < |events| ==> !FirstSucceeds(events[i])
    ensures var s := After(events, describe).s;
      if s.pages == [] then s.currentPage == 0 else s.pages[0] == 0
    decreases |events|
  {
    if events != [] {
      var before, last := events[..|events| - 1], events[|events| - 1];
      assert events == before + [last];
      LastStep(before, last, describe);
      FirstAskedForIsZero(before, describe);
      if After(before, describe).s.pages == [] {
        NothingAskedYet(before, describe);
      }
    }
  }

  lemma {:induction false} PagesGrow<T>(events: seq<Event<T>>, more: seq<Event<T>>, describe: Description<T>)
    requires After(events + more, describe).At?
    ensures After(events, describe).At? && After(events, describe).s.pages <= After(events + more, describe).s.pages
    decreases |more|
  {
    if more == [] {
      assert events + more == events;
    } else {
      var last, before := more[|more| - 1], events + more[..|more| - 1];
      assert events + more == before + [last];
      LastStep(before, last, describe);
      PagesGrow(events, more[..|more| - 1], describe);
    }
  }

  lemma StepNumbered<T>(s: State<T>, e: Event<T>, describe: Description<T>)
    requires Numbered(s) && (s.bottomInFlight > 0 ==> s.loadingBottom)
    requires Enabled(s, e) && Step(s, e, describe).Some? && !FirstSucceeds(e)
    ensures Numbered(Step(s, e, describe).value)
  {}

  /** If nothing was asked for before the first page came, the k-th bottom request asks for page k. */
  lemma {:induction false} PageNumbers<T>(before: seq<Event<T>>, first: Event<T>, after: seq<Event<T>>,
                                          describe: Description<T>)
    requires After(before + [first] + after, describe).At? && FirstSucceeds(first)
    requires forall i :: 0 <= i < |after| ==> !FirstSucceeds(after[i])
    requires After(before, describe).At? && After(before, describe).s.pages == []
    ensures Numbered(After(before + [first] + after, describe).s)
    decreases |after|
  {
    var all := before + [first] + after;
    if after == [] {
      assert all == before + [first];
      LastStep(before, first, describe);
      NothingAskedYet(before, describe);
    } else {
      var init, last := before + [first] + after[..|after| - 1], after[|after| - 1];
      assert all == init + [last];
      LastStep(init, last, describe);
      PageNumbers(before, first, after[..|after| - 1], describe);
      EveryRun(init, describe);
      StepNumbered(After(init, describe).s, last, describe);
    }
  }

  /** The exact condition: with a single completed `loadFirst`, the k-th bottom request asks for page k, for all of
      them, if and only if none was made before that completion. */
  lemma PageNumbersExactly<T>(before: seq<Event<T>>, first: Event<T>, after: seq<Event<T>>, describe: Description<T>)
    requires After(before + [first] + after, describe).At? && FirstSucceeds(first)
    requires forall i :: 0 <= i < |before| ==> !FirstSucceeds(before[i])
    requires forall i :: 0 <= i < |after| ==> !FirstSucceeds(after[i])
    ensures After(before, describe).At?
    ensures var pages := After(before + [first] + after, describe).s.pages;
      (forall k :: 0 <= k < |pages| ==> pages[k] == k + 1) <==> After(before, describe).s.pages == []
  {
    assert before + [first] + after == before + ([first] + after);
    PagesGrow(before, [first] + after, describe);
    FirstAskedForIsZero(before, describe);
    if After(before, describe).s.pages == [] {
      PageNumbers(before, first, after, describe);
    }
  }

  /** Called before the first page is there, `loadBottom` asks for page 0. */
  lemma EarlyBottomAsksForPageZero(describe: Description<int>)
    ensures After([LoadFirst, LoadBottom], describe).At? && After([LoadFirst, LoadBottom], describe).s.pages == [0]
  {}
}
