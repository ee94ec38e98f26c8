/**
 * `ItemListViewModel` (ui/viewmodel/ItemListViewModel.kt): the two item lists the main
 * screen shows, the add-item dialog flag and the loading flag. The data source is
 * `DatabaseViewModel`, which is not part of this model. Its operations are the fields of
 * `Backend`, over an opaque state `S`.
 */
module ItemListViewModel {
  import opened Common
  import opened Entities
  import Lists

  /** The `DatabaseViewModel` operations this view model calls. */
  datatype Backend<!S> = Backend(
    getAllItems: S -> seq<Item>,
    isClockedInToday: (S, string) -> bool,
    insertItem: (S, string, Option<string>) -> S,
    deleteItem: (S, string) -> S,
    insertRecord: (S, string) -> S,
    deleteMostRecentRecord: (S, string) -> S)

  /** The four state flows the screen observes. */
  datatype ViewState = ViewState(clockedIn: seq<Item>, unClockedIn: seq<Item>, showDialog: bool, isLoading: bool)

  const Initial: ViewState := ViewState([], [], false, false)

  /** The backend's clocked-in test for one item, as a predicate on items. */
  function ClockedIn<S>(b: Backend<S>, s: S): Item -> bool
  {
    (it: Item) => b.isClockedInToday(s, it.itemId)
  }

  /** The first half of `loadItems`: the loading flag goes up and nothing else is published yet. */
  function BeginLoad(v: ViewState): (r: ViewState)
    ensures r.isLoading
    ensures r.clockedIn == v.clockedIn && r.unClockedIn == v.unClockedIn && r.showDialog == v.showDialog
  {
    v.(isLoading := true)
  }

  /** The second half of `loadItems`: both lists are published, then the loading flag goes down. */
  function FinishLoad<S>(b: Backend<S>, s: S, v: ViewState): (r: ViewState)
    ensures !r.isLoading && r.showDialog == v.showDialog
    ensures forall i :: 0 <= i < |r.clockedIn| ==> r.clockedIn[i] in b.getAllItems(s) && b.isClockedInToday(s, r.clockedIn[i].itemId)
    ensures forall i :: 0 <= i < |r.unClockedIn| ==> r.unClockedIn[i] in b.getAllItems(s) && !b.isClockedInToday(s, r.unClockedIn[i].itemId)
    ensures multiset(r.clockedIn) + multiset(r.unClockedIn) == multiset(b.getAllItems(s))
  {
    var allItems := b.getAllItems(s);
    var clockedIn := Lists.Filter(allItems, ClockedIn(b, s));
    var notClockedIn := Lists.FilterNot(allItems, ClockedIn(b, s));
    Lists.FilterPartition(allItems, ClockedIn(b, s));
    ViewState(clockedIn, notClockedIn, v.showDialog, false)
  }

  /** `loadItems`. */
  function LoadItems<S>(b: Backend<S>, s: S, v: ViewState): (r: ViewState)
    ensures !r.isLoading && r.showDialog == v.showDialog
    ensures multiset(r.clockedIn) + multiset(r.unClockedIn) == multiset(b.getAllItems(s))
  {
    FinishLoad(b, s, BeginLoad(v))
  }

  /** Both published lists keep the order of `getAllItems()`. */
  lemma LoadKeepsOrder<S>(b: Backend<S>, s: S, v: ViewState)
    ensures Lists.SubsequenceOf(LoadItems(b, s, v).clockedIn, b.getAllItems(s))
    ensures Lists.SubsequenceOf(LoadItems(b, s, v).unClockedIn, b.getAllItems(s))
  {
    Lists.FilterPreservesOrder(b.getAllItems(s), ClockedIn(b, s));
    Lists.FilterPreservesOrder(b.getAllItems(s), Lists.Not(ClockedIn(b, s)));
  }

  /** Every item of `getAllItems()` is shown in exactly one of the two lists. */
  lemma LoadShowsEachItemOnce<S>(b: Backend<S>, s: S, v: ViewState)
    ensures forall i :: 0 <= i < |b.getAllItems(s)| ==>
      (b.getAllItems(s)[i] in LoadItems(b, s, v).clockedIn <==> b.getAllItems(s)[i] !in LoadItems(b, s, v).unClockedIn)
  {
    Lists.FilterPartition(b.getAllItems(s), ClockedIn(b, s));
  }

  /** The backend state after an action, and the view state after its reload. */
  datatype Acted<S> = Acted(backend: S, view: ViewState)

  /** An action: exactly one backend mutation, then `loadItems` against the mutated state. */
  function MutateThenReload<S>(b: Backend<S>, mutated: S, v: ViewState): (r: Acted<S>)
    ensures r.backend == mutated
    ensures !r.view.isLoading && r.view.showDialog == v.showDialog
    ensures multiset(r.view.clockedIn) + multiset(r.view.unClockedIn) == multiset(b.getAllItems(mutated))
  {
    Acted(mutated, LoadItems(b, mutated, v))
  }

  /** `insertItem(name, description)`; the returned item is unused. */
  function InsertItem<S>(b: Backend<S>, s: S, v: ViewState, name: string, description: Option<string>): (r: Acted<S>)
    ensures r.backend == b.insertItem(s, name, description)
    ensures multiset(r.view.clockedIn) + multiset(r.view.unClockedIn) == multiset(b.getAllItems(r.backend))
  {
    MutateThenReload(b, b.insertItem(s, name, description), v)
  }

  /** `deleteItem(itemId)`. */
  function DeleteItem<S>(b: Backend<S>, s: S, v: ViewState, itemId: string): (r: Acted<S>)
    ensures r.backend == b.deleteItem(s, itemId)
    ensures multiset(r.view.clockedIn) + multiset(r.view.unClockedIn) == multiset(b.getAllItems(r.backend))
  {
    MutateThenReload(b, b.deleteItem(s, itemId), v)
  }

  /** `clockIn(itemId)`: `insertRecord`, then reload. */
  function ClockIn<S>(b: Backend<S>, s: S, v: ViewState, itemId: string): (r: Acted<S>)
    ensures r.backend == b.insertRecord(s, itemId)
    ensures multiset(r.view.clockedIn) + multiset(r.view.unClockedIn) == multiset(b.getAllItems(r.backend))
  {
    MutateThenReload(b, b.insertRecord(s, itemId), v)
  }

  /** `withdraw(itemId)`: `deleteMostRecentRecord`, then reload. */
  function Withdraw<S>(b: Backend<S>, s: S, v: ViewState, itemId: string): (r: Acted<S>)
    ensures r.backend == b.deleteMostRecentRecord(s, itemId)
    ensures multiset(r.view.clockedIn) + multiset(r.view.unClockedIn) == multiset(b.getAllItems(r.backend))
  {
    MutateThenReload(b, b.deleteMostRecentRecord(s, itemId), v)
  }

  /** After an action, an item whose clock-in the backend now reports is in the clocked-in list. */
  lemma ActionShowsBackendState<S>(b: Backend<S>, mutated: S, v: ViewState, it: Item)
    requires it in b.getAllItems(mutated)
    ensures it in MutateThenReload(b, mutated, v).view.clockedIn <==> b.isClockedInToday(mutated, it.itemId)
    ensures it in MutateThenReload(b, mutated, v).view.unClockedIn <==> !b.isClockedInToday(mutated, it.itemId)
  {
  }

  /** `showDialog`: only the dialog flag changes. */
  function ShowDialog(v: ViewState): (r: ViewState)
    ensures r.showDialog
    ensures r.clockedIn == v.clockedIn && r.unClockedIn == v.unClockedIn && r.isLoading == v.isLoading
  {
    v.(showDialog := true)
  }

  /** `hideDialog`: only the dialog flag changes. */
  function HideDialog(v: ViewState): (r: ViewState)
    ensures !r.showDialog
    ensures r.clockedIn == v.clockedIn && r.unClockedIn == v.unClockedIn && r.isLoading == v.isLoading
  {
    v.(showDialog := false)
  }

  lemma DialogTogglesAreIdempotent(v: ViewState)
    ensures ShowDialog(ShowDialog(v)) == ShowDialog(v)
    ensures HideDialog(HideDialog(v)) == HideDialog(v)
    ensures HideDialog(ShowDialog(v)) == HideDialog(v) && ShowDialog(HideDialog(v)) == ShowDialog(v)
  {
  }
}
