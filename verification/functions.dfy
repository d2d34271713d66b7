/**
 * The function-list operations (src/hook/useFunction.ts): each computes a new
 * list or selection from the function store's current one with spread, `map`,
 * `filter` or `find`, and writes it back through the store's setters.
 */
module FunctionList {
  import opened Wrappers
  import opened Stores

  // ------------------------------------------------------------ the list computations

  /** `twigFunctions.map(item => item.id === selected.id ? selected : item)` (lines 40-44). */
  function ReplaceById(list: seq<FunctionItem>, selected: FunctionItem): (r: seq<FunctionItem>)
    ensures |r| == |list|
    ensures forall i :: 0 <= i < |list| ==> r[i] == (if list[i].id == selected.id then selected else list[i])
  {
    if list == [] then []
    else [if list[0].id == selected.id then selected else list[0]] + ReplaceById(list[1..], selected)
  }

  /** `twigFunctions.filter(item => item.id !== functionId)` (lines 52-54). */
  function RemoveById(list: seq<FunctionItem>, id: string): (r: seq<FunctionItem>)
    ensures forall x :: x in r <==> x in list && x.id != id
    ensures |r| <= |list|
  {
    if list == [] then []
    else (if list[0].id != id then [list[0]] else []) + RemoveById(list[1..], id)
  }

  /** Index of the first item with the given id. */
  function FirstWithId(list: seq<FunctionItem>, id: string): (r: Option<nat>)
    ensures r.Some? ==> r.value < |list| && list[r.value].id == id
                        && forall j :: 0 <= j < r.value ==> list[j].id != id
    ensures r.None? ==> forall j :: 0 <= j < |list| ==> list[j].id != id
  {
    if list == [] then None
    else if list[0].id == id then Some(0)
    else match FirstWithId(list[1..], id)
      case Some(k) => Some(k + 1)
      case None => None
  }

  /** `twigFunctions.find(item => item.id === functionId) || null` (lines 60-62). */
  function FindById(list: seq<FunctionItem>, id: string): Option<FunctionItem> {
    match FirstWithId(list, id)
    case Some(k) => Some(list[k])
    case None => None
  }

  // ------------------------------------------------------------ properties of the lists

  /** Saving a selection whose id is in no item leaves the list as it is. */
  lemma ReplaceAbsent(list: seq<FunctionItem>, selected: FunctionItem)
    requires forall x :: x in list ==> x.id != selected.id
    ensures ReplaceById(list, selected) == list
  {
  }

  /** After saving, every item with the selection's id is the selection; ids stay where they were. */
  lemma ReplaceKeepsIds(list: seq<FunctionItem>, selected: FunctionItem)
    ensures forall i :: 0 <= i < |list| ==> ReplaceById(list, selected)[i].id == list[i].id
    ensures forall x :: x in ReplaceById(list, selected) && x.id == selected.id ==> x == selected
  {
  }

  /** Removing works item by item, so it keeps the other items in their order. */
  lemma {:induction false} RemoveAppend(a: seq<FunctionItem>, b: seq<FunctionItem>, id: string)
    ensures RemoveById(a + b, id) == RemoveById(a, id) + RemoveById(b, id)
    decreases |a|
  {
    if a == [] {
      assert a + b == b;
    } else {
      assert (a + b)[1..] == a[1..] + b;
      RemoveAppend(a[1..], b, id);
    }
  }

  /** Removing an id that no item has changes nothing. */
  lemma {:induction false} RemoveAbsent(list: seq<FunctionItem>, id: string)
    requires forall x :: x in list ==> x.id != id
    ensures RemoveById(list, id) == list
    decreases |list|
  {
    if list != [] {
      RemoveAbsent(list[1..], id);
      assert list == [list[0]] + list[1..];
    }
  }

  /** Removing an id twice is removing it once. */
  lemma RemoveTwice(list: seq<FunctionItem>, id: string)
    ensures RemoveById(RemoveById(list, id), id) == RemoveById(list, id)
  {
    RemoveAbsent(RemoveById(list, id), id);
  }

  /** The item found is the first one with the id; nothing is found exactly when no item has it. */
  lemma FindFirst(list: seq<FunctionItem>, id: string)
    ensures FindById(list, id).Some? <==> exists x :: x in list && x.id == id
    ensures FindById(list, id).Some? ==>
      exists k :: 0 <= k < |list| && list[k] == FindById(list, id).value && list[k].id == id
                  && forall j :: 0 <= j < k ==> list[j].id != id
  {
    if FirstWithId(list, id).None? {
      forall x | x in list ensures x.id != id {
        var j :| 0 <= j < |list| && list[j] == x;
      }
    }
  }

  /** A removed id is found no more. */
  lemma FindAfterRemove(list: seq<FunctionItem>, id: string)
    ensures FindById(RemoveById(list, id), id) == None
  {
  }

  // ------------------------------------------------------------ the operations on the store

  /** `addFunction`: the item goes at the end (lines 15-17). */
  method AddFunction(store: FunctionStore, item: FunctionItem)
    modifies store
    ensures store.twigFunctions == old(store.twigFunctions) + [item]
    ensures store.selectedFunction == old(store.selectedFunction)
  {
    store.SetTwigFunctions(store.twigFunctions + [item]);
  }

  /** `updateSelectedFunctionTitle`: only the selection's name changes (lines 19-26). */
  method UpdateSelectedFunctionTitle(store: FunctionStore, title: string)
    modifies store
    ensures old(store.selectedFunction).None? ==> store.selectedFunction == None
    ensures old(store.selectedFunction).Some? ==>
      store.selectedFunction == Some(old(store.selectedFunction).value.(name := title))
    ensures store.twigFunctions == old(store.twigFunctions)
  {
    if store.selectedFunction.Some? {
      store.SetSelectedFunction(Some(store.selectedFunction.value.(name := title)));
    }
  }

  /** `updateSelectedFunctionFunction`: only the selection's code changes (lines 28-35). */
  method UpdateSelectedFunctionCode(store: FunctionStore, code: string)
    modifies store
    ensures old(store.selectedFunction).None? ==> store.selectedFunction == None
    ensures old(store.selectedFunction).Some? ==>
      store.selectedFunction == Some(old(store.selectedFunction).value.(code := code))
    ensures store.twigFunctions == old(store.twigFunctions)
  {
    if store.selectedFunction.Some? {
      store.SetSelectedFunction(Some(store.selectedFunction.value.(code := code)));
    }
  }

  /** `saveSelectedFunction`: the selection replaces every item with its id (lines 37-48). */
  method SaveSelectedFunction(store: FunctionStore)
    modifies store
    ensures old(store.selectedFunction).None? ==> store.twigFunctions == old(store.twigFunctions)
    ensures old(store.selectedFunction).Some? ==>
      store.twigFunctions == ReplaceById(old(store.twigFunctions), old(store.selectedFunction).value)
    ensures store.selectedFunction == old(store.selectedFunction)
  {
    if store.selectedFunction.Some? {
      store.SetTwigFunctions(ReplaceById(store.twigFunctions, store.selectedFunction.value));
    }
  }

  /** `removeFunction` (lines 50-56). */
  method RemoveFunction(store: FunctionStore, id: string)
    modifies store
    ensures store.twigFunctions == RemoveById(old(store.twigFunctions), id)
    ensures store.selectedFunction == old(store.selectedFunction)
  {
    store.SetTwigFunctions(RemoveById(store.twigFunctions, id));
  }

  /** `selectFunctionByFunctionId` (lines 58-64). */
  method SelectFunctionByFunctionId(store: FunctionStore, id: string)
    modifies store
    ensures store.selectedFunction == FindById(old(store.twigFunctions), id)
    ensures store.twigFunctions == old(store.twigFunctions)
  {
    store.SetSelectedFunction(FindById(store.twigFunctions, id));
  }
}
