/**
 The provider that the screens read: event buffer, message meter, and the paged experience
 list that grows by "load more" until it holds what the store lists.
 */
module ExperiencePaging {
  import opened Sequences
  import opened StableSort
  import opened Experiences
  import WhisperMerge

  const EXPERIENCE_PAGE_SIZE: nat := 100

  /**
   The display comparator subtracts `Number(is_pinned)`. Without a flag on either side that is
   NaN, which a sort reads as a tie; rows that arrive by whisper never have one.
   */
  predicate DisplayLe(a: Experience, b: Experience) {
    a.isPinned.None? || b.isPinned.None? || Grouped(IsPinned, Newest)(a, b)
  }

  /** On rows whose order the comparator leaves open this is one possible outcome: see `OrderIsDetermined`. */
  function SortForDisplay(rows: seq<Experience>): seq<Experience> {
    Sort(DisplayLe, rows)
  }

  ghost predicate PinsDefined(rows: seq<Experience>) {
    forall row :: row in rows ==> row.isPinned.Some?
  }

  /** What is on screen and how many rows the store said there are. */
  datatype View = View(experiences: seq<Experience>, total: nat)

  /** Which rows a paged list asks for. */
  datatype Scope = Scope(includeArchived: bool, projectId: string)

  function ScopedList(rows: seq<Experience>, scope: Scope): seq<Experience> {
    Ordered(rows, scope.includeArchived, scope.projectId)
  }

  lemma ScopedListContents(rows: seq<Experience>, scope: Scope)
    ensures forall x :: x in ScopedList(rows, scope) ==> x in rows
    ensures |ScopedList(rows, scope)| == Count(rows, scope.includeArchived, scope.projectId)
    ensures Distinct(Ids(rows)) ==> Distinct(Ids(ScopedList(rows, scope)))
    ensures Sorted(Grouped(IsPinned, Newest), ScopedList(rows, scope))
  {
    var visible := IsVisible(scope.includeArchived, scope.projectId);
    var order := Grouped(IsPinned, Newest);
    FilterIn(visible, rows);
    SortIn(order, Filter(visible, rows));
    GroupedIsPreorder(IsPinned, Newest);
    SortSorted(order, Filter(visible, rows));
    if Distinct(Ids(rows)) {
      FilterKeepsDistinct(visible, IdOf, rows);
      SortContents(order, Filter(visible, rows));
      DistinctContents(IdOf, Filter(visible, rows), ScopedList(rows, scope));
    }
  }

  /** First page and count; when only the count command fails the page's own length stands in for it. */
  function Refreshed(rows: seq<Experience>, scope: Scope, countOk: bool): View {
    var page := List(rows, EXPERIENCE_PAGE_SIZE, 0, scope.includeArchived, scope.projectId);
    View(SortForDisplay(page), if countOk then Count(rows, scope.includeArchived, scope.projectId) else |page|)
  }

  function Unseen(seen: set<string>): Experience -> bool {
    (row: Experience) => row.id !in seen
  }

  function IdSet(rows: seq<Experience>): set<string> {
    set row | row in rows :: row.id
  }

  /** Append the fetched rows whose id is not on screen, then sort again. */
  function Appended(current: seq<Experience>, page: seq<Experience>): seq<Experience> {
    SortForDisplay(current + Filter(Unseen(IdSet(current)), page))
  }

  function LoadedMore(rows: seq<Experience>, scope: Scope, view: View): View {
    if |view.experiences| >= view.total then view
    else
      var page := List(rows, EXPERIENCE_PAGE_SIZE, |view.experiences|, scope.includeArchived, scope.projectId);
      view.(experiences := Appended(view.experiences, page))
  }

  // ----- the display order --------------------------------------------------------------

  /** Whether the comparator is one that a sort promises anything about. */
  ghost predicate TransitiveOn(rows: seq<Experience>) {
    forall a, b, c :: a in rows && b in rows && c in rows && DisplayLe(a, b) && DisplayLe(b, c) ==> DisplayLe(a, c)
  }

  ghost predicate AllTied(rows: seq<Experience>) {
    forall a, b :: a in rows && b in rows ==> DisplayLe(a, b)
  }

  /** The comparator is consistent exactly when every row has a flag, or those that have one all tie. */
  lemma ConsistentExactlyWithFlags(rows: seq<Experience>)
    ensures TransitiveOn(rows) <==> PinsDefined(rows) || AllTied(rows)
  {
    GroupedIsPreorder(IsPinned, Newest);
    if TransitiveOn(rows) && !PinsDefined(rows) {
      var w :| w in rows && w.isPinned.None?;
      forall a, b | a in rows && b in rows
        ensures DisplayLe(a, b)
      {
        assert DisplayLe(a, w) && DisplayLe(w, b);
      }
    }
  }

  /** Then any sorted rearrangement that keeps ties in their order is the one displayed. */
  lemma OrderIsDetermined(rows: seq<Experience>, r: seq<Experience>)
    requires TransitiveOn(rows) && Sorted(DisplayLe, r) && multiset(r) == multiset(rows)
    requires forall x :: x in rows ==> Filter(Ties(DisplayLe, x), r) == Filter(Ties(DisplayLe, x), rows)
    ensures r == SortForDisplay(rows)
  {
    ConsistentExactlyWithFlags(rows);
    GroupedIsPreorder(IsPinned, Newest);
    if PinsDefined(rows) {
      SortIsDeterminedAmong(DisplayLe, Grouped(IsPinned, Newest), rows, r);
    } else {
      SortIsDeterminedAmong(DisplayLe, (a, b) => true, rows, r);
    }
  }

  predicate ShownBefore(a: Experience, b: Experience) {
    if a.isPinned == Some(true) then b.isPinned != Some(true) || a.createdAt >= b.createdAt
    else b.isPinned != Some(true) && a.createdAt >= b.createdAt
  }

  lemma OrderShowsBefore(a: Experience, b: Experience)
    requires a.isPinned.Some? && b.isPinned.Some?
    ensures Grouped(IsPinned, Newest)(a, b) <==> ShownBefore(a, b)
    ensures DisplayLe(a, b) <==> Grouped(IsPinned, Newest)(a, b)
  {
    GroupedIs(IsPinned, Newest, a, b);
    assert Newest(a, b) <==> a.createdAt >= b.createdAt;
  }

  /** With a flag on every row the display shows all of them, pinned ones first and newer before older. */
  lemma DisplayOrder(rows: seq<Experience>)
    requires forall row :: row in rows ==> row.isPinned.Some?
    ensures multiset(SortForDisplay(rows)) == multiset(rows)
    ensures forall i, j :: 0 <= i < j < |rows| ==> ShownBefore(SortForDisplay(rows)[i], SortForDisplay(rows)[j])
  {
    hide Sort, ShownBefore, DisplayLe;
    var order, shown := Grouped(IsPinned, Newest), SortForDisplay(rows);
    GroupedIsPreorder(IsPinned, Newest);
    forall a, b | a in rows && b in rows
      ensures DisplayLe(a, b) <==> order(a, b)
    {
      OrderShowsBefore(a, b);
    }
    SortCongruent(DisplayLe, order, rows);
    SortContents(order, rows);
    SortSorted(order, rows);
    SortIn(order, rows);
    forall i, j | 0 <= i < j < |rows|
      ensures ShownBefore(shown[i], shown[j])
    {
      assert order(shown[i], shown[j]) && shown[i] in shown && shown[j] in shown;
      OrderShowsBefore(shown[i], shown[j]);
    }
  }

  /** A row without a flag is displayed as a tie with every other. */
  lemma FlaglessRowTies(w: Experience, x: Experience)
    requires w.isPinned == None
    ensures DisplayLe(w, x) && DisplayLe(x, w)
  {
  }

  /**
   One row without a flag ties with all, so that keeping ties in order leaves a list as it is,
   whatever the order of the other rows: then a sort either does nothing, or is not stable.
   */
  lemma FlaglessRowFreezesOrder(rows: seq<Experience>, w: Experience, r: seq<Experience>)
    requires w in rows && w.isPinned.None? && multiset(r) == multiset(rows)
    requires Filter(Ties(DisplayLe, w), r) == Filter(Ties(DisplayLe, w), rows)
    ensures r == rows
  {
    assert forall x :: DisplayLe(x, w) && DisplayLe(w, x);
    FilterAll(Ties(DisplayLe, w), r);
    FilterAll(Ties(DisplayLe, w), rows);
  }

  // ----- paging a frozen store ----------------------------------------------------------

  /** A view that shows exactly the first rows of the store's order. */
  ghost predicate ShowsPrefix(rows: seq<Experience>, scope: Scope, view: View) {
    && |view.experiences| <= |ScopedList(rows, scope)|
    && view.experiences == Take(ScopedList(rows, scope), |view.experiences|)
  }

  lemma PrefixIsSorted(rows: seq<Experience>, scope: Scope, held: nat)
    ensures SortForDisplay(Take(ScopedList(rows, scope), held)) == Take(ScopedList(rows, scope), held)
  {
    var all := ScopedList(rows, scope);
    ScopedListContents(rows, scope);
    TakeSorted(Grouped(IsPinned, Newest), all, held);
    SortOfSorted(DisplayLe, Take(all, held));
  }

  lemma RefreshShowsFirstPage(rows: seq<Experience>, scope: Scope, countOk: bool)
    ensures Refreshed(rows, scope, countOk).experiences == Take(ScopedList(rows, scope), EXPERIENCE_PAGE_SIZE)
  {
    var all := ScopedList(rows, scope);
    assert Slice(all, 0, EXPERIENCE_PAGE_SIZE) == Take(all, EXPERIENCE_PAGE_SIZE);
    PrefixIsSorted(rows, scope, EXPERIENCE_PAGE_SIZE);
  }

  /** No row of the next page is on screen yet. */
  lemma NextPageIsUnseen(all: seq<Experience>, held: nat, count: nat)
    requires held <= |all| && Distinct(Ids(all))
    ensures Filter(Unseen(IdSet(Take(all, held))), Slice(all, held, count)) == Slice(all, held, count)
  {
    var page := Slice(all, held, count);
    forall x | x in page
      ensures x.id !in IdSet(Take(all, held))
    {
      var j :| 0 <= j < |page| && page[j] == x;
      forall y | y in Take(all, held)
        ensures y.id != x.id
      {
        var i :| 0 <= i < held && all[i] == y;
        assert Ids(all)[i] != Ids(all)[held + j];
      }
    }
    FilterAll(Unseen(IdSet(Take(all, held))), page);
  }

  /** One load-more extends a prefix of the store's order by the next page: no repeat, no gap, nothing moved. */
  lemma LoadMoreExtendsPrefix(rows: seq<Experience>, scope: Scope, view: View)
    requires Distinct(Ids(rows))
    requires ShowsPrefix(rows, scope, view) && |view.experiences| < view.total
    ensures LoadedMore(rows, scope, view).experiences
         == Take(ScopedList(rows, scope), |view.experiences| + EXPERIENCE_PAGE_SIZE)
  {
    var all, held := ScopedList(rows, scope), |view.experiences|;
    ScopedListContents(rows, scope);
    NextPageIsUnseen(all, held, EXPERIENCE_PAGE_SIZE);
    SliceExtendsTake(all, held, EXPERIENCE_PAGE_SIZE);
    PrefixIsSorted(rows, scope, held + EXPERIENCE_PAGE_SIZE);
  }

  /** The screen shows the first 100 (k + 1) rows, and knows how many there are. */
  ghost predicate ShowsPages(rows: seq<Experience>, scope: Scope, view: View, k: nat) {
    && view.experiences == Take(ScopedList(rows, scope), EXPERIENCE_PAGE_SIZE * (k + 1))
    && view.total == |ScopedList(rows, scope)|
  }

  /** The view after a refresh and k load-more calls, however many of those find nothing left to load. */
  ghost function Loads(rows: seq<Experience>, scope: Scope, k: nat): (view: View)
    requires Distinct(Ids(rows))
    ensures ShowsPages(rows, scope, view, k)
    decreases k
  {
    if k == 0 then
      RefreshShowsPages(rows, scope);
      Refreshed(rows, scope, true)
    else
      var before := Loads(rows, scope, k - 1);
      LoadStep(rows, scope, before, k - 1);
      LoadedMore(rows, scope, before)
  }

  lemma RefreshShowsPages(rows: seq<Experience>, scope: Scope)
    ensures ShowsPages(rows, scope, Refreshed(rows, scope, true), 0)
  {
    RefreshShowsFirstPage(rows, scope, true);
    ScopedListContents(rows, scope);
  }

  lemma LoadStep(rows: seq<Experience>, scope: Scope, view: View, k: nat)
    requires Distinct(Ids(rows))
    requires ShowsPages(rows, scope, view, k)
    ensures ShowsPages(rows, scope, LoadedMore(rows, scope, view), k + 1)
  {
    if |view.experiences| < view.total {
      LoadMoreExtendsPrefix(rows, scope, view);
    }
  }

  /** Enough load-more calls hold the whole listing, in the store's order, and further ones leave it alone. */
  lemma LoadsReachEverything(rows: seq<Experience>, scope: Scope, k: nat)
    requires Distinct(Ids(rows))
    ensures |Loads(rows, scope, k).experiences| == Min(100 * (k + 1), |ScopedList(rows, scope)|)
    ensures Loads(rows, scope, k).experiences == ScopedList(rows, scope)
       <==> |ScopedList(rows, scope)| <= 100 * (k + 1)
  {
  }

  /** Load-more stops exactly when everything listed is held; until then it brings at least one new row. */
  lemma LoadMoreProgress(rows: seq<Experience>, scope: Scope, view: View)
    requires Distinct(Ids(rows))
    requires ShowsPrefix(rows, scope, view) && view.total == |ScopedList(rows, scope)|
    ensures LoadedMore(rows, scope, view) == view <==> view.experiences == ScopedList(rows, scope)
    ensures LoadedMore(rows, scope, view) != view ==>
              view.total - |LoadedMore(rows, scope, view).experiences| < view.total - |view.experiences|
    ensures |LoadedMore(rows, scope, view).experiences| <= view.total
  {
    if |view.experiences| < view.total {
      LoadMoreExtendsPrefix(rows, scope, view);
    }
  }

  // ----- paging after a whisper ---------------------------------------------------------

  /** The rows on screen after a load-more, before they are sorted. */
  function Screen(rows: seq<Experience>, scope: Scope, current: seq<Experience>): seq<Experience> {
    var page := List(rows, EXPERIENCE_PAGE_SIZE, |current|, scope.includeArchived, scope.projectId);
    current + Filter(Unseen(IdSet(current)), page)
  }

  /**
   Load-more shows those rows in some order, on any screen at all, also when it does not fetch
   because the screen is as long as the listing.
   */
  lemma LoadedMoreShowsScreen(rows: seq<Experience>, scope: Scope, view: View)
    requires view.total == |ScopedList(rows, scope)|
    ensures multiset(LoadedMore(rows, scope, view).experiences) == multiset(Screen(rows, scope, view.experiences))
    ensures forall id :: WhisperMerge.HasId(LoadedMore(rows, scope, view).experiences, id)
                    <==> WhisperMerge.HasId(Screen(rows, scope, view.experiences), id)
  {
    var page := List(rows, EXPERIENCE_PAGE_SIZE, |view.experiences|, scope.includeArchived, scope.projectId);
    if |view.experiences| >= view.total {
      assert page == [];
      assert view.experiences + [] == view.experiences;
    } else {
      SortContents(DisplayLe, Screen(rows, scope, view.experiences));
      SortIn(DisplayLe, Screen(rows, scope, view.experiences));
    }
  }

  lemma HasIdAt(rows: seq<Experience>, j: nat)
    requires j < |rows|
    ensures WhisperMerge.HasId(rows, rows[j].id)
  {
    assert rows[j] in rows;
  }

  lemma HasIdAppend(rows: seq<Experience>, more: seq<Experience>, id: string)
    ensures WhisperMerge.HasId(rows + more, id) <==> WhisperMerge.HasId(rows, id) || WhisperMerge.HasId(more, id)
  {
    assert forall x :: x in rows + more <==> x in rows || x in more;
  }

  lemma ScreenIds(rows: seq<Experience>, scope: Scope, current: seq<Experience>, id: string)
    ensures var page := List(rows, EXPERIENCE_PAGE_SIZE, |current|, scope.includeArchived, scope.projectId);
      WhisperMerge.HasId(Screen(rows, scope, current), id)
      <==> WhisperMerge.HasId(current, id) || WhisperMerge.HasId(page, id)
  {
    var page := List(rows, EXPERIENCE_PAGE_SIZE, |current|, scope.includeArchived, scope.projectId);
    var unseen := Filter(Unseen(IdSet(current)), page);
    HasIdAppend(current, unseen, id);
    FilterIn(Unseen(IdSet(current)), page);
  }

  /** A page of a list with unique ids has the id of row j exactly if row j is in its window. */
  lemma IdInPage(all: seq<Experience>, j: nat, from: nat, count: nat)
    requires Distinct(Ids(all)) && j < |all|
    ensures WhisperMerge.HasId(Slice(all, from, count), all[j].id) <==> from <= j < from + count
  {
    var page := Slice(all, from, count);
    forall k | 0 <= k < |page|
      ensures page[k] == all[from + k] && (page[k].id == all[j].id <==> from + k == j)
    {
      assert Ids(all)[from + k] == all[from + k].id && Ids(all)[j] == all[j].id;
    }
    if from <= j < from + count {
      HasIdAt(page, j - from);
    }
  }

  lemma MergedIds(current: seq<Experience>, whisper: WhisperMerge.Whisper, id: string)
    requires Distinct(Ids(current))
    ensures WhisperMerge.HasId(WhisperMerge.Merged(current, whisper), id)
       <==> WhisperMerge.HasId(current, id) || WhisperMerge.HasId(whisper.experiences, id)
  {
    WhisperMerge.MergeIsUnionById(current, whisper);
  }

  lemma PrefixIsDistinct(all: seq<Experience>, held: nat)
    requires held <= |all| && Distinct(Ids(all))
    ensures Distinct(Ids(Take(all, held)))
  {
    forall i, j | 0 <= i < j < held
      ensures Ids(Take(all, held))[i] != Ids(Take(all, held))[j]
    {
      assert Ids(all)[i] != Ids(all)[j];
    }
  }

  /** What is on screen after a whisper and a load-more. */
  function WhisperThenMore(rows: seq<Experience>, scope: Scope, view: View, whisper: WhisperMerge.Whisper): View {
    LoadedMore(rows, scope, view.(experiences := WhisperMerge.Merged(view.experiences, whisper)))
  }

  /** Row j of the listing is on screen after a whisper and a load-more: it was held, whispered, or fetched. */
  lemma OnScreen(rows: seq<Experience>, scope: Scope, view: View, whisper: WhisperMerge.Whisper, j: nat)
    requires Distinct(Ids(rows)) && ShowsPrefix(rows, scope, view) && j < |ScopedList(rows, scope)|
    requires view.total == |ScopedList(rows, scope)|
    ensures var all, merged := ScopedList(rows, scope), WhisperMerge.Merged(view.experiences, whisper);
      WhisperMerge.HasId(WhisperThenMore(rows, scope, view, whisper).experiences, all[j].id)
      <==> j < |view.experiences| || WhisperMerge.HasId(whisper.experiences, all[j].id)
           || |merged| <= j < |merged| + EXPERIENCE_PAGE_SIZE
  {
    hide Screen, LoadedMore;
    var all, held := ScopedList(rows, scope), |view.experiences|;
    var merged := WhisperMerge.Merged(view.experiences, whisper);
    ScopedListContents(rows, scope);
    LoadedMoreShowsScreen(rows, scope, view.(experiences := merged));
    PrefixIsDistinct(all, held);
    ScreenIds(rows, scope, merged, all[j].id);
    MergedIds(view.experiences, whisper, all[j].id);
    IdInPage(all, j, |merged|, EXPERIENCE_PAGE_SIZE);
    assert Slice(all, 0, held) == Take(all, held);
    IdInPage(all, j, 0, held);
  }

  /**
   A whisper moves the next page by the rows it adds to the screen. So after the load-more that
   follows it, the screen holds every row of the listing up to the end of the fetched page if and
   only if the whisper itself brought each row that the page passed over.
   */
  lemma WhisperLeavesNoGap(rows: seq<Experience>, scope: Scope, view: View, whisper: WhisperMerge.Whisper)
    requires Distinct(Ids(rows)) && ShowsPrefix(rows, scope, view) && view.total == |ScopedList(rows, scope)|
    ensures var all, held := ScopedList(rows, scope), |view.experiences|;
      var moved := |WhisperMerge.Merged(view.experiences, whisper)|;
      var next := WhisperThenMore(rows, scope, view, whisper);
      (forall j :: 0 <= j < Min(moved + EXPERIENCE_PAGE_SIZE, |all|) ==>
        WhisperMerge.HasId(next.experiences, all[j].id))
      <==>
      (forall j :: held <= j < Min(moved, |all|) ==> WhisperMerge.HasId(whisper.experiences, all[j].id))
  {
    hide WhisperThenMore, WhisperMerge.Merged, WhisperMerge.HasId, ShowsPrefix;
    var all, held := ScopedList(rows, scope), |view.experiences|;
    var merged := WhisperMerge.Merged(view.experiences, whisper);
    forall j: nat | j < |all|
      ensures WhisperMerge.HasId(WhisperThenMore(rows, scope, view, whisper).experiences, all[j].id)
         <==> j < held || WhisperMerge.HasId(whisper.experiences, all[j].id)
              || |merged| <= j < |merged| + EXPERIENCE_PAGE_SIZE
    {
      OnScreen(rows, scope, view, whisper, j);
    }
  }

  /** Whispering one row that is not on screen moves the next page by one. */
  lemma MergedWithOne(current: seq<Experience>, x: Experience)
    requires Distinct(Ids(current)) && !WhisperMerge.HasId(current, x.id)
    ensures |WhisperMerge.Merged(current, WhisperMerge.Whisper([x.id], [x]))| == |current| + 1
  {
    WhisperMerge.ByIdOfDistinct(current);
    assert [x][1..] == [];
    assert WhisperMerge.AddMissing(current + [x], []) == current + [x];
    assert WhisperMerge.AddMissing(current, [x]) == current + [x];
  }

  /** Load-more calls, one after another. */
  ghost function MoreLoads(rows: seq<Experience>, scope: Scope, view: View, n: nat): View {
    if n == 0 then view else LoadedMore(rows, scope, MoreLoads(rows, scope, view, n - 1))
  }

  /** A row that the offset has passed while it was not on screen is not fetched by any later load-more. */
  lemma {:induction false} PassedOverStaysAway(rows: seq<Experience>, scope: Scope, view: View, j: nat, n: nat)
    requires Distinct(Ids(rows)) && view.total == |ScopedList(rows, scope)|
    requires j < |ScopedList(rows, scope)| && j < |view.experiences|
    requires !WhisperMerge.HasId(view.experiences, ScopedList(rows, scope)[j].id)
    ensures var after := MoreLoads(rows, scope, view, n);
      && !WhisperMerge.HasId(after.experiences, ScopedList(rows, scope)[j].id)
      && |after.experiences| >= |view.experiences| && after.total == view.total
  {
    hide LoadedMore, Screen, WhisperMerge.HasId;
    if n > 0 {
      var all, before := ScopedList(rows, scope), MoreLoads(rows, scope, view, n - 1);
      PassedOverStaysAway(rows, scope, view, j, n - 1);
      ScopedListContents(rows, scope);
      LoadedMoreShowsScreen(rows, scope, before);
      LoadedMoreGrows(rows, scope, before);
      ScreenIds(rows, scope, before.experiences, all[j].id);
      IdInPage(all, j, |before.experiences|, EXPERIENCE_PAGE_SIZE);
    }
  }

  lemma LoadedMoreGrows(rows: seq<Experience>, scope: Scope, view: View)
    ensures |LoadedMore(rows, scope, view).experiences| >= |view.experiences|
    ensures LoadedMore(rows, scope, view).total == view.total
  {
  }

  /**
   So a gap is the rule: while anything is missing, whispering one row that is neither on screen
   nor the next one of the listing hides that next one, from every load-more that follows.
   */
  lemma WhisperHidesTheNextRow(rows: seq<Experience>, scope: Scope, view: View, x: Experience, n: nat)
    requires Distinct(Ids(rows)) && ShowsPrefix(rows, scope, view)
    requires |view.experiences| < view.total == |ScopedList(rows, scope)|
    requires !WhisperMerge.HasId(view.experiences, x.id)
    requires x.id != ScopedList(rows, scope)[|view.experiences|].id
    ensures var next := WhisperThenMore(rows, scope, view, WhisperMerge.Whisper([x.id], [x]));
      !WhisperMerge.HasId(MoreLoads(rows, scope, next, n).experiences, ScopedList(rows, scope)[|view.experiences|].id)
  {
    hide MoreLoads, LoadedMore;
    var whisper, held := WhisperMerge.Whisper([x.id], [x]), |view.experiences|;
    var next := WhisperThenMore(rows, scope, view, whisper);
    ScopedListContents(rows, scope);
    PrefixIsDistinct(ScopedList(rows, scope), held);
    MergedWithOne(view.experiences, x);
    OnScreen(rows, scope, view, whisper, held);
    LoadedMoreGrows(rows, scope, view.(experiences := WhisperMerge.Merged(view.experiences, whisper)));
    PassedOverStaysAway(rows, scope, next, held, n);
  }

  lemma HeadIdIsAlone(rows: seq<Experience>)
    requires Distinct(Ids(rows)) && rows != []
    ensures Distinct(Ids(rows[1..])) && forall row :: row in rows[1..] ==> row.id != rows[0].id
  {
    var rest := rows[1..];
    assert forall i :: 0 <= i < |rest| ==> Ids(rest)[i] == Ids(rows)[i + 1];
    forall i | 0 <= i < |rest|
      ensures rest[i].id != rows[0].id
    {
      assert Ids(rows)[0] != Ids(rows)[i + 1];
    }
  }

  /** Of a list with unique ids, a whisper that names just one of its rows selects that row. */
  lemma {:induction false} OnlyWhispered(rows: seq<Experience>, u: Experience, whisper: WhisperMerge.Whisper)
    requires Distinct(Ids(rows)) && u in rows && u.id in whisper.experienceIds
    requires forall row :: row in rows && row.id in whisper.experienceIds ==> row.id == u.id
    ensures Filter(WhisperMerge.IsWhispered(whisper), rows) == [u]
  {
    hide Distinct, Ids;
    var p, rest := WhisperMerge.IsWhispered(whisper), rows[1..];
    assert rows == [rows[0]] + rest;
    HeadIdIsAlone(rows);
    if rows[0] == u {
      FilterNone(p, rest);
    } else {
      OnlyWhispered(rest, u, whisper);
    }
  }

  /** A whisper about a row on screen puts that row first and the new row second. */
  lemma WhisperedPairLeads(current: seq<Experience>, u: Experience, w: Experience)
    requires Distinct(Ids(current)) && u in current && !WhisperMerge.HasId(current, w.id) && Newest(u, w)
    ensures var merged := WhisperMerge.Merged(current, WhisperMerge.Whisper([u.id, w.id], [u, w]));
      |merged| >= 2 && merged[..2] == [u, w]
  {
    var whisper := WhisperMerge.Whisper([u.id, w.id], [u, w]);
    var p := WhisperMerge.IsWhispered(whisper);
    WhisperMerge.ByIdOfDistinct(current);
    assert [u, w][1..] == [w] && [w][1..] == [];
    assert WhisperMerge.AddMissing(current + [w], []) == current + [w];
    assert WhisperMerge.AddMissing(current, [w]) == current + [w];
    assert WhisperMerge.AddMissing(current, [u, w]) == current + [w];
    FilterAppend(p, current, [w]);
    OnlyWhispered(current, u, whisper);
    assert Filter(p, [w]) == [w];
    assert Filter(p, current + [w]) == [u, w];
    assert Sort(Newest, [w]) == [w] && Sort(Newest, [u, w]) == [u, w];
    WhisperMerge.MergePutsWhisperedFirst(current, whisper);
  }

  /**
   Load-more does not restore "pinned first" after a whisper. When one names a row u on screen and
   brings an older row w, then u stays before w and w, which ties with all, before the rest; so
   load-more leaves u in front of a pinned row, and no stable order could do otherwise.
   */
  lemma WhisperLosesPinnedFirst(rows: seq<Experience>, scope: Scope, view: View,
                                u: Experience, w: Experience, p: Experience)
    requires Distinct(Ids(view.experiences)) && u in view.experiences && p in view.experiences
    requires u.isPinned == Some(false) && p.isPinned == Some(true) && w.isPinned == None
    requires !WhisperMerge.HasId(view.experiences, w.id) && Newest(u, w)
    ensures var next := WhisperThenMore(rows, scope, view, WhisperMerge.Whisper([u.id, w.id], [u, w])).experiences;
      |next| > 0 && next[0] == u && p in next && !DisplayLe(u, p)
  {
    hide LoadedMore, WhisperMerge.Merged;
    var whisper := WhisperMerge.Whisper([u.id, w.id], [u, w]);
    var merged := WhisperMerge.Merged(view.experiences, whisper);
    WhisperedPairLeads(view.experiences, u, w);
    WhisperMerge.MergeIsUnionById(view.experiences, whisper);
    LoadKeepsPairFirst(rows, scope, view.(experiences := merged), u, w);
    assert p in merged && !Grouped(IsPinned, Newest)(u, p);
  }

  lemma LoadKeepsPairFirst(rows: seq<Experience>, scope: Scope, view: View, u: Experience, w: Experience)
    requires |view.experiences| >= 2 && view.experiences[..2] == [u, w] && w.isPinned == None
    ensures var next := LoadedMore(rows, scope, view).experiences;
      |next| > 0 && next[0] == u && forall x :: x in view.experiences ==> x in next
  {
    if |view.experiences| < view.total {
      var screen := Screen(rows, scope, view.experiences);
      assert screen[..2] == [u, w];
      PairStaysFirst(screen, u, w);
      SortIn(DisplayLe, screen);
    } else {
      assert view.experiences[0] == view.experiences[..2][0];
    }
  }

  lemma PairStaysFirst(rows: seq<Experience>, u: Experience, w: Experience)
    requires |rows| >= 2 && rows[..2] == [u, w] && w.isPinned == None
    ensures SortForDisplay(rows) == [u, w] + SortForDisplay(rows[2..])
  {
    assert rows[0] == u && rows[1] == w && rows[1..][0] == w && rows[1..][1..] == rows[2..];
    assert SortForDisplay(rows[1..]) == [w] + SortForDisplay(rows[2..]);
  }

  /**
   When the count command failed during the refresh, load-more never fetches: the list stays at
   its first page, which is everything exactly when the store lists at most 100 rows.
   */
  lemma CountFailureStopsPaging(rows: seq<Experience>, scope: Scope)
    ensures var view := Refreshed(rows, scope, false);
      && LoadedMore(rows, scope, view) == view
      && (view.experiences == ScopedList(rows, scope) <==> |ScopedList(rows, scope)| <= EXPERIENCE_PAGE_SIZE)
  {
    RefreshShowsFirstPage(rows, scope, false);
    ScopedListContents(rows, scope);
  }

  /** For instance with 101 rows: one of them is never shown. */
  lemma CountFailureHidesARow(x: Experience, scope: Scope)
    requires IsVisible(scope.includeArchived, scope.projectId)(x)
    ensures var rows := seq(101, i => x);
      Refreshed(rows, scope, false).experiences != ScopedList(rows, scope)
  {
    var rows := seq(101, i => x);
    FilterAll(IsVisible(scope.includeArchived, scope.projectId), rows);
    CountFailureStopsPaging(rows, scope);
    ScopedListContents(rows, scope);
  }
}

module LoungeProvider {
  import opened Sequences
  import opened Experiences
  import opened ExperiencePaging
  import EventFeed
  import ExperienceStore
  import MessageMeter
  import WhisperMerge

  class Provider {
    var events: seq<EventFeed.Event>
    var decisionMsgTimes: seq<MessageMeter.Tick>
    var experiences: seq<Experience>
    var experienceTotal: nat
    var scope: Scope

    constructor (scope: Scope)
      ensures events == [] && decisionMsgTimes == [] && Shown() == View([], 0) && this.scope == scope
    {
      events, decisionMsgTimes, experiences, experienceTotal := [], [], [], 0;
      this.scope := scope;
    }

    function Shown(): View
      reads this
    {
      View(experiences, experienceTotal)
    }

    /** A bus message: the event, the tick and, when it carries one, the whisper. */
    method IngestBusMessage(row: EventFeed.Event, now: int, whisper: Option<WhisperMerge.Whisper>)
      modifies `events, `decisionMsgTimes, `experiences
      ensures events == EventFeed.Ingest(old(events), row)
      ensures decisionMsgTimes == MessageMeter.Recorded(old(decisionMsgTimes), row.id, now)
      ensures experiences ==
        if whisper.None? then old(experiences) else WhisperMerge.Merged(old(experiences), whisper.value)
    {
      if !exists event :: event in events && event.id == row.id {
        events := Take(EventFeed.SortEventsNewestFirst([row] + events), EventFeed.EVENT_CAP);
      }
      var times := MessageMeter.RecordMsgTick(decisionMsgTimes, row.id, now);
      decisionMsgTimes := times;
      if whisper.Some? {
        if |whisper.value.experiences| > 0 {
          var merged := WhisperMerge.MergeWhisperedExperiences(experiences, whisper.value);
          experiences := merged;
        }
      }
    }

    method PruneMeter(now: int)
      modifies `decisionMsgTimes
      ensures decisionMsgTimes == MessageMeter.TimerPruned(old(decisionMsgTimes), now)
    {
      var next := MessageMeter.PruneMsgWindow(decisionMsgTimes, now);
      if |next| != |decisionMsgTimes| {
        decisionMsgTimes := next;
      }
    }

    /** `listOk` and `countOk` say whether the two commands of a refresh succeed. */
    method RefreshExperiences(store: ExperienceStore.Store, listOk: bool, countOk: bool)
      modifies `experiences, `experienceTotal
      ensures Shown() == if listOk then Refreshed(store.rows, scope, countOk) else View([], 0)
    {
      if !listOk {
        experiences, experienceTotal := [], 0;
        return;
      }
      var rows := List(store.rows, EXPERIENCE_PAGE_SIZE, 0, scope.includeArchived, scope.projectId);
      experiences := SortForDisplay(rows);
      experienceTotal := if countOk then Count(store.rows, scope.includeArchived, scope.projectId) else |rows|;
    }

    method LoadMoreExperiences(store: ExperienceStore.Store, listOk: bool)
      modifies `experiences
      ensures Shown() == if listOk then LoadedMore(store.rows, scope, old(Shown())) else old(Shown())
    {
      if |experiences| >= experienceTotal || !listOk {
        return;
      }
      var rows := List(store.rows, EXPERIENCE_PAGE_SIZE, |experiences|, scope.includeArchived, scope.projectId);
      var current := experiences;
      var seen := IdSet(current);
      var merged := current;
      for i := 0 to |rows|
        invariant merged == current + Filter(Unseen(seen), rows[..i])
      {
        assert rows[..i + 1] == rows[..i] + [rows[i]];
        FilterAppend(Unseen(seen), rows[..i], [rows[i]]);
        assert [rows[i]][1..] == [];
        if rows[i].id !in seen {
          merged := merged + [rows[i]];
        }
      }
      assert rows[..|rows|] == rows;
      experiences := SortForDisplay(merged);
    }
  }
}
