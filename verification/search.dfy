/**
  The search-result cursor of the PDF view controller.  A search replaces
  the list of matches (`searchedItems`) and highlights them; the back and
  forward buttons move a clamped index (`selectedItem`) over that list and
  jump to the match under it.  The document's `findString` is an input: the
  ordered match locations, or `None` when no document is loaded.  A Swift
  runtime trap (force-unwrapping `nil`, subscripting out of range) is a
  `Crash` outcome.
 */
module Search {
  import opened Wrappers

  /** One match, with the highlight colour either set or not. */
  datatype Selection<L> = Selection(loc: L, highlighted: bool)

  datatype Viewer<L> = Viewer(
    items: Option<seq<Selection<L>>>,       // searchedItems
    selected: int,                           // selectedItem
    highlights: Option<seq<Selection<L>>>,  // pdfView.highlightedSelections
    searchHidden: bool                       // searchView.isHidden
  )

  datatype Trap = UnwrappedNil | IndexOutOfRange

  /** A handler's new state and the match it jumps to, if any. */
  datatype Step<L> = Step(viewer: Viewer<L>, goTo: Option<Selection<L>>)

  datatype Outcome<L> = Ok(step: Step<L>) | Crash(trap: Trap)

  /** The state after loading: no search yet, index 0, search bar hidden. */
  function Initial<L>(): Viewer<L> {
    Viewer(None, 0, None, true)
  }

  /** The index is never negative and, once there are matches, names one of them. */
  ghost predicate Valid<L>(v: Viewer<L>) {
    v.selected >= 0 && (v.items.Some? ==> v.selected < |v.items.value|)
  }

  /** Every location of `found`, in order, as a highlighted selection. */
  function Highlight<L>(found: seq<L>): (s: seq<Selection<L>>)
    ensures |s| == |found|
    ensures forall i :: 0 <= i < |found| ==> s[i].loc == found[i] && s[i].highlighted
  {
    seq(|found|, i requires 0 <= i < |found| => Selection(found[i], true))
  }

  /**
    Jump to the match under the index (`gotoSelectedItemPage`): nothing
    without a search, the selected match inside the list, a trap outside it.
   */
  function GotoSelectedItemPage<L>(v: Viewer<L>): (r: Outcome<L>)
    ensures v.items.None? ==> r == Ok(Step(v, None))
    ensures v.items.Some? && 0 <= v.selected < |v.items.value| ==>
      r == Ok(Step(v, Some(v.items.value[v.selected])))
    ensures v.items.Some? && !(0 <= v.selected < |v.items.value|) ==> r == Crash(IndexOutOfRange)
  {
    match v.items
    case None => Ok(Step(v, None))
    case Some(items) =>
      if 0 <= v.selected < |items| then Ok(Step(v, Some(items[v.selected]))) else Crash(IndexOutOfRange)
  }

  /** The index after the back button's clamp: one less, but only when positive. */
  function BackIndex(i: int): (j: int)
    ensures i > 0 ==> j == i - 1
    ensures i <= 0 ==> j == i
  {
    if i > 0 then i - 1 else i
  }

  /** The index after the forward button's clamp over `n` matches: one more, but only below the last index. */
  function NextIndex(i: int, n: int): (j: int)
    ensures i < n - 1 ==> j == i + 1
    ensures i >= n - 1 ==> j == i
  {
    if i < n - 1 then i + 1 else i
  }

  /**
    The back button (`backwordAction`): clamp the index, then jump to the
    selected match, which traps when the index lies outside the match list.
   */
  function Backward<L>(v: Viewer<L>): (r: Outcome<L>)
    ensures r.Ok? ==> r.step.viewer == v.(selected := BackIndex(v.selected))
    ensures v.selected >= 0 && r.Ok? ==> r.step.viewer.selected >= 0
    ensures r.Crash? ==> r.trap == IndexOutOfRange
    ensures v.items.None? ==> r == Ok(Step(v.(selected := BackIndex(v.selected)), None))
    ensures v.items.Some? ==>
      (r == Crash(IndexOutOfRange) <==> !(0 <= BackIndex(v.selected) < |v.items.value|))
    ensures v.items.Some? && r.Ok? ==> r.step.goTo == Some(v.items.value[BackIndex(v.selected)])
    ensures Valid(v) ==> r.Ok? && Valid(r.step.viewer) && r.step.viewer.items == v.items
  {
    GotoSelectedItemPage(v.(selected := BackIndex(v.selected)))
  }

  /**
    The forward button (`forwardAction`): force-unwrap the match list, clamp
    the index, then jump to the selected match, which traps when the index
    lies outside the list.
   */
  function Forward<L>(v: Viewer<L>): (r: Outcome<L>)
    ensures v.items.None? ==> r == Crash(UnwrappedNil)
    ensures r.Crash? ==> (r.trap == UnwrappedNil <==> v.items.None?)
    ensures r.Ok? ==> v.items.Some?
    ensures r.Ok? && v.items.Some? ==>
      r.step.viewer == v.(selected := NextIndex(v.selected, |v.items.value|))
    ensures v.items.Some? ==>
      (r == Crash(IndexOutOfRange) <==> !(0 <= NextIndex(v.selected, |v.items.value|) < |v.items.value|))
    ensures v.items.Some? && r.Ok? ==>
      r.step.goTo == Some(v.items.value[NextIndex(v.selected, |v.items.value|)])
    ensures Valid(v) && v.items.Some? ==> r.Ok? && Valid(r.step.viewer) && r.step.viewer.items == v.items
  {
    match v.items
    case None => Crash(UnwrappedNil)
    case Some(items) => GotoSelectedItemPage(v.(selected := NextIndex(v.selected, |items|)))
  }

  /**
    A search (`findItems`): replace and highlight the matches and jump to the
    first one, which is force-unwrapped, so no document or no match traps.
    The index is left where the previous search put it.
   */
  function FindItems<L>(v: Viewer<L>, found: Option<seq<L>>): (r: Outcome<L>)
    ensures r.Ok? <==> found.Some? && |found.value| > 0
    ensures r.Ok? ==>
      r.step.viewer == v.(items := Some(Highlight(found.value)), highlights := Some(Highlight(found.value)))
    ensures r.Ok? ==> r.step.goTo == Some(Selection(found.value[0], true))
    ensures r.Crash? ==> r.trap == UnwrappedNil
  {
    match found
    case None => Crash(UnwrappedNil)
    case Some(locs) =>
      if |locs| == 0 then Crash(UnwrappedNil)
      else
        var items := Highlight(locs);
        Ok(Step(v.(items := Some(items), highlights := Some(items)), Some(items[0])))
  }

  /** The search as evidently intended: as `FindItems`, but the index restarts at the first match. */
  function FindItemsReset<L>(v: Viewer<L>, found: Option<seq<L>>): (r: Outcome<L>)
    ensures r.Ok? <==> found.Some? && |found.value| > 0
    ensures r.Ok? ==>
      r.step.viewer == v.(items := Some(Highlight(found.value)), highlights := Some(Highlight(found.value)), selected := 0)
    ensures r.Ok? ==> Valid(r.step.viewer)
    ensures r.Ok? ==> r.step.goTo == Some(r.step.viewer.items.value[r.step.viewer.selected])
    ensures r.Crash? ==> r.trap == UnwrappedNil
  {
    match FindItems(v, found)
    case Crash(t) => Crash(t)
    case Ok(step) => Ok(step.(viewer := step.viewer.(selected := 0)))
  }

  /** What the end of editing asks for: nothing, hiding the search bar, or a search for the text. */
  datatype EditAction = Ignore | HideBar | SearchFor(query: string)

  /** The empty-text rule of `searchBarTextDidEndEditing`. */
  function EndEditingAction(text: Option<string>): (a: EditAction)
    ensures text.None? <==> a == Ignore
    ensures text == Some("") <==> a == HideBar
    ensures a.SearchFor? ==> text == Some(a.query) && a.query != ""
  {
    match text
    case None => Ignore
    case Some(t) => if |t| == 0 then HideBar else SearchFor(t)
  }

  /**
    The search bar finished editing (`searchBarTextDidEndEditing`): no text
    does nothing, empty text hides the bar without searching, other text runs
    a search.  `find` is the document's search function.
   */
  function TextDidEndEditing<L>(v: Viewer<L>, text: Option<string>, find: string -> Option<seq<L>>): (r: Outcome<L>)
    ensures text.None? ==> r == Ok(Step(v, None))
    ensures text == Some("") ==> r == Ok(Step(v.(searchHidden := true), None))
    ensures text.Some? && text.value != "" ==> r == FindItems(v, find(text.value))
  {
    match EndEditingAction(text)
    case Ignore => Ok(Step(v, None))
    case HideBar => Ok(Step(v.(searchHidden := true), None))
    case SearchFor(t) => FindItems(v, find(t))
  }

  /** The end of editing with the corrected search. */
  function TextDidEndEditingFixed<L>(v: Viewer<L>, text: Option<string>, find: string -> Option<seq<L>>): (r: Outcome<L>)
    ensures text.None? ==> r == Ok(Step(v, None))
    ensures text == Some("") ==> r == Ok(Step(v.(searchHidden := true), None))
    ensures text.Some? && text.value != "" ==> r == FindItemsReset(v, find(text.value))
  {
    match EndEditingAction(text)
    case Ignore => Ok(Step(v, None))
    case HideBar => Ok(Step(v.(searchHidden := true), None))
    case SearchFor(t) => FindItemsReset(v, find(t))
  }

  /**
    A user action on the search controls: a search whose matches are given,
    the end of editing the search text, or a navigation button.
   */
  datatype Event<L> =
    | Query(found: Option<seq<L>>)
    | EndEditing(text: Option<string>, find: string -> Option<seq<L>>)
    | Back
    | Next

  /** One action, with the search as written or, when `fixed`, with the corrected search. */
  function Apply<L>(v: Viewer<L>, e: Event<L>, fixed: bool): Outcome<L> {
    match e
    case Query(found) => if fixed then FindItemsReset(v, found) else FindItems(v, found)
    case EndEditing(text, find) =>
      if fixed then TextDidEndEditingFixed(v, text, find) else TextDidEndEditing(v, text, find)
    case Back => Backward(v)
    case Next => Forward(v)
  }

  /** Run a sequence of actions; stop at the first trap. */
  function Replay<L>(v: Viewer<L>, evs: seq<Event<L>>, fixed: bool): Outcome<L>
    decreases |evs|
  {
    if |evs| == 0 then Ok(Step(v, None))
    else
      var r := Apply(v, evs[0], fixed);
      if r.Crash? || |evs| == 1 then r else Replay(r.step.viewer, evs[1..], fixed)
  }

  /** The actions as the source runs them. */
  function Run<L>(v: Viewer<L>, evs: seq<Event<L>>): Outcome<L> {
    Replay(v, evs, false)
  }

  /** The actions with the corrected search. */
  function RunFixed<L>(v: Viewer<L>, evs: seq<Event<L>>): Outcome<L> {
    Replay(v, evs, true)
  }

  /**
    With the corrected search, no sequence of actions from a valid state ever
    subscripts out of range, and every state reached is valid.
   */
  lemma {:induction false} RunFixedNeverOutOfRange<L>(v: Viewer<L>, evs: seq<Event<L>>)
    requires Valid(v)
    ensures RunFixed(v, evs) != Crash(IndexOutOfRange)
    ensures RunFixed(v, evs).Ok? ==> Valid(RunFixed(v, evs).step.viewer)
    decreases |evs|
  {
    if |evs| > 0 {
      var r := Apply(v, evs[0], true);
      if r.Ok? && |evs| > 1 {
        RunFixedNeverOutOfRange(r.step.viewer, evs[1..]);
      }
    }
  }

  /** As written, no sequence of actions drives the index below zero. */
  lemma {:induction false} RunKeepsIndexNonNegative<L>(v: Viewer<L>, evs: seq<Event<L>>)
    requires v.selected >= 0
    ensures Run(v, evs).Ok? ==> Run(v, evs).step.viewer.selected >= 0
    decreases |evs|
  {
    if |evs| > 0 {
      var r := Apply(v, evs[0], false);
      if r.Ok? && |evs| > 1 {
        RunKeepsIndexNonNegative(r.step.viewer, evs[1..]);
      }
    }
  }

  /**
    As written, a second search with fewer matches keeps an index past its
    end, and the next forward press subscripts out of range.
   */
  lemma SecondSearchTrapsAsWritten()
    ensures Run(Initial<int>(), [Query(Some([0, 1, 2, 3, 4])), Next, Next, Next, Next, Query(Some([7, 8])), Next])
      == Crash(IndexOutOfRange)
  {
    var v0 := Initial<int>();
    var v1 := FindItems(v0, Some([0, 1, 2, 3, 4])).step.viewer;
    var v5 := v1.(selected := 4);
    assert Forward(v1).step.viewer == v1.(selected := 1);
    assert Forward(v1.(selected := 1)).step.viewer == v1.(selected := 2);
    assert Forward(v1.(selected := 2)).step.viewer == v1.(selected := 3);
    assert Forward(v1.(selected := 3)).step.viewer == v5;
    var v6 := FindItems(v5, Some([7, 8])).step.viewer;
    assert v6.selected == 4 && |v6.items.value| == 2;
    assert Forward(v6) == Crash(IndexOutOfRange);
  }

  /**
    Matches at m0, m1, m2: the search shows m0, forward shows m1 then m2,
    forward again stays at m2, back shows m1.
   */
  lemma ThreeMatchWalk(m0: int, m1: int, m2: int)
    ensures var v0 := FindItems(Initial<int>(), Some([m0, m1, m2]));
      && v0.step.goTo == Some(Selection(m0, true))
      && var v1 := Forward(v0.step.viewer);
      && v1.step.goTo == Some(Selection(m1, true))
      && var v2 := Forward(v1.step.viewer);
      && v2.step.goTo == Some(Selection(m2, true))
      && var v3 := Forward(v2.step.viewer);
      && v3.step.goTo == Some(Selection(m2, true))
      && Backward(v3.step.viewer).step.goTo == Some(Selection(m1, true))
  {
  }
}
