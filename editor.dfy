/**
 * The editor state of App.js and the handlers that change it: adding,
 * deleting, selecting and re-parenting elements in the explorer, editing
 * properties in the panel, and the pointer gestures in the preview area.
 * DOM classification (`closest`, `classList`) becomes the `Target` a
 * pointer-down lands on; dataset ids arrive as integers.
 */
module Editor {
  import opened Wrappers
  import opened Decimal
  import opened Properties
  import opened SceneTree
  import opened Interaction
  import opened LuaCodegen

  /** JavaScript truthiness of a nullable id: null and 0 are false. */
  predicate Truthy(id: Option<int>) {
    id.Some? && id.value != 0
  }

  /** What a pointer-down in the preview area lands on. */
  datatype Target =
    | ResizeHandle(direction: string)   // one of the eight desktop edge handles
    | MultifuncHandle                   // the single mobile resize handle
    | RadiusHandle
    | ElementBody(id: int)              // an element of the preview
    | Background

  /** The name an element gets when it is added: its kind followed by its id. */
  function DefaultName(k: Kind, id: nat): string {
    KindName(k) + NatToString(id)
  }

  /** The element the add handler appends. */
  function NewElement(k: Kind, id: nat): Element {
    Element(id, k, DefaultProperties(k, DefaultName(k, id)), [])
  }

  /** What the property input handler makes of the forest. */
  function EditResult(f: seq<Element>, selected: Option<int>, k: Key, v: Value): seq<Element>
    requires Fits(k, v)
  {
    match selected
    case None => f
    case Some(id) =>
      match Find(f, id)
      case None => f
      case Some(e) => SetProps(f, id, Put(e.props, k, v))
  }

  /**
   * The properties one pointer-move event writes into the selected element,
   * or None when it writes nothing: no gesture, no selection, the element
   * or the snapshot missing, or `Step` failing.
   */
  function DragWrite(f: seq<Element>, selected: Option<int>, action: Option<Action>, detail: Option<string>,
                     start: Vec2, snapshot: Option<Element>, isDesktop: bool,
                     x: real, y: real, stretch: Vec2): (r: Option<Props>)
    ensures r.Some? ==> action.Some? && Truthy(selected) && selected.value in Ids(f) && snapshot.Some?
    ensures action.Some? && Truthy(selected) && selected.value in Ids(f) && snapshot.Some? ==>
              r == Step(action.value, Find(f, selected.value).value.props, snapshot.value.props,
                        x - start.x, y - start.y, isDesktop, detail, stretch)
  {
    if action.None? || !Truthy(selected) || snapshot.None? then None
    else
      match Find(f, selected.value)
      case None => None
      case Some(el) => Step(action.value, el.props, snapshot.value.props, x - start.x, y - start.y, isDesktop, detail, stretch)
  }

  /** What one pointer-move event makes of the forest. */
  function DragMoveResult(f: seq<Element>, selected: Option<int>, action: Option<Action>, detail: Option<string>,
                          start: Vec2, snapshot: Option<Element>, isDesktop: bool,
                          x: real, y: real, stretch: Vec2): seq<Element>
  {
    match DragWrite(f, selected, action, detail, start, snapshot, isDesktop, x, y, stretch)
    case None => f
    case Some(p) => SetProps(f, selected.value, p)
  }

  /** Every id is one the counter has handed out. */
  ghost predicate Issued(s: seq<int>, counter: nat) {
    forall x :: x in s ==> 1 <= x <= counter
  }

  /** The ids of `f` are distinct and all handed out by a counter now at `counter`. */
  ghost predicate WellNumbered(f: seq<Element>, counter: nat) {
    Distinct(Ids(f)) && Issued(Ids(f), counter)
  }

  class EditorState {
    var elements: seq<Element>
    var selectedId: Option<int>
    var idCounter: nat
    var action: Option<Action>
    var actionDetail: Option<string>
    var dragStart: Vec2
    var originalElement: Option<Element>
    var draggedElementId: Option<int>
    var isDesktop: bool

    /** Ids are distinct and come from the counter: positive and at most its value. */
    ghost predicate Valid()
      reads this
    {
      WellNumbered(elements, idCounter)
    }

    constructor(isDesktop: bool)
      ensures Valid()
      ensures elements == [] && selectedId == None && idCounter == 0
      ensures action == None && actionDetail == None && dragStart == Vec2(0.0, 0.0)
      ensures originalElement == None && draggedElementId == None && this.isDesktop == isDesktop
    {
      elements := [];
      selectedId := None;
      idCounter := 0;
      action := None;
      actionDetail := None;
      dragStart := Vec2(0.0, 0.0);
      originalElement := None;
      draggedElementId := None;
      this.isDesktop := isDesktop;
    }

    /**
     * The add handler: takes the next id from the counter, appends a fresh
     * element with default properties at the end of the root list and
     * selects it. The id is new to the scene.
     */
    method AddElement(kind: Kind) returns (id: nat)
      requires Valid()
      modifies this
      ensures Valid()
      ensures id == old(idCounter) + 1 && idCounter == id
      ensures id !in Ids(old(elements))
      ensures elements == old(elements) + [NewElement(kind, id)]
      ensures selectedId == Some(id)
      ensures action == old(action) && actionDetail == old(actionDetail) && dragStart == old(dragStart)
      ensures originalElement == old(originalElement) && draggedElementId == old(draggedElementId)
      ensures isDesktop == old(isDesktop)
    {
      id := idCounter + 1;
      var e := NewElement(kind, id);
      var grown := elements + [e];
      AppendKeepsValid(elements, e, idCounter, grown);
      idCounter := id;
      elements := grown;
      selectedId := Some(id);
    }

    /**
     * The delete handler, given the user's answer to the confirmation. The
     * confirmation message reads the element's name, so an id that is not
     * in the scene stops the handler before anything changes. Otherwise,
     * if confirmed, the element is detached with its whole subtree, none of
     * whose ids can be found afterwards, and the selection is cleared if it
     * was this very id (a selected descendant stays selected).
     */
    method DeleteElement(id: int, confirmed: bool)
      requires Valid()
      modifies this
      ensures Valid()
      ensures id !in Ids(old(elements)) || !confirmed ==> elements == old(elements) && selectedId == old(selectedId)
      ensures id in Ids(old(elements)) && confirmed ==>
                elements == Remove(old(elements), id).1
                && Gone(Ids([Find(old(elements), id).value]), elements)
                && selectedId == (if old(selectedId) == Some(id) then None else old(selectedId))
      ensures idCounter == old(idCounter) && action == old(action) && actionDetail == old(actionDetail)
      ensures dragStart == old(dragStart) && originalElement == old(originalElement)
      ensures draggedElementId == old(draggedElementId) && isDesktop == old(isDesktop)
    {
      var named := Find(elements, id);
      if named.None? || !confirmed {
        assert id !in Ids(elements) || !confirmed;
        return;
      }
      RemoveKeepsValid(elements, id, idCounter);
      var removed, remaining := RemoveFromTree(elements, id);
      elements := remaining;
      if selectedId == Some(id) {
        selectedId := None;
      }
      assert WellNumbered(elements, idCounter);
    }

    /** A click on a tree node selects it. */
    method Select(id: int)
      modifies this
      ensures selectedId == Some(id)
      ensures elements == old(elements) && idCounter == old(idCounter) && action == old(action)
      ensures actionDetail == old(actionDetail) && dragStart == old(dragStart)
      ensures originalElement == old(originalElement) && draggedElementId == old(draggedElementId)
      ensures isDesktop == old(isDesktop)
    {
      selectedId := Some(id);
    }

    /** Dragging a tree node records its id; a drag that starts elsewhere records nothing. */
    method ExplorerDragStart(node: Option<int>)
      modifies this
      ensures draggedElementId == if node.Some? then node else old(draggedElementId)
      ensures elements == old(elements) && selectedId == old(selectedId) && idCounter == old(idCounter)
      ensures action == old(action) && actionDetail == old(actionDetail) && dragStart == old(dragStart)
      ensures originalElement == old(originalElement) && isDesktop == old(isDesktop)
    {
      if node.Some? {
        draggedElementId := node;
      }
    }

    /**
     * The drop handler: with a tree node under the pointer and a dragged id
     * recorded, the forest becomes `Reparent` of it. The recorded id is
     * kept, and ids stay distinct whatever the drop does.
     */
    method Drop(target: Option<int>)
      requires Valid()
      modifies this
      ensures Valid()
      ensures elements == if target.Some? && Truthy(old(draggedElementId))
                          then Reparent(old(elements), old(draggedElementId).value, target.value)
                          else old(elements)
      ensures selectedId == old(selectedId) && idCounter == old(idCounter) && action == old(action)
      ensures actionDetail == old(actionDetail) && dragStart == old(dragStart)
      ensures originalElement == old(originalElement) && draggedElementId == old(draggedElementId)
      ensures isDesktop == old(isDesktop)
    {
      if target.None? || !Truthy(draggedElementId) {
        return;
      }
      var targetId := target.value;
      var dragged := draggedElementId.value;
      ReparentKeepsValid(elements, dragged, targetId, idCounter);
      if targetId == dragged {
        return;
      }
      var moved, rest := RemoveFromTree(elements, dragged);
      elements := rest;
      var found := Find(elements, targetId);
      if moved.Some? && found.Some? {
        var t := found.value;
        elements := ReplaceFirst(elements, targetId, t.(children := t.children + [moved.value]));
      }
    }

    /**
     * The drop with the checks the source misses: it re-parents only when
     * the dragged element exists and the target lies in the scene outside
     * the dragged subtree, and then no element is lost.
     */
    method DropChecked(target: Option<int>)
      requires Valid()
      modifies this
      ensures Valid()
      ensures elements == if target.Some? && Truthy(old(draggedElementId))
                          then SafeReparent(old(elements), old(draggedElementId).value, target.value)
                          else old(elements)
      ensures multiset(Ids(elements)) == multiset(Ids(old(elements)))
      ensures selectedId == old(selectedId) && idCounter == old(idCounter) && action == old(action)
      ensures actionDetail == old(actionDetail) && dragStart == old(dragStart)
      ensures originalElement == old(originalElement) && draggedElementId == old(draggedElementId)
      ensures isDesktop == old(isDesktop)
    {
      if target.None? || !Truthy(draggedElementId) {
        return;
      }
      var dragged := draggedElementId.value;
      SafeReparentKeepsIds(elements, dragged, target.value);
      var d := Find(elements, dragged);
      if d.None? || target.value in Ids([d.value]) || target.value !in Ids(elements) {
        return;
      }
      Drop(target);
    }

    /**
     * The property input handler: an input for key `k` with text `raw`
     * (whose numeric value is `parsed`) writes into the selected element,
     * if there is one in the scene.
     */
    method PropertyInput(k: Key, raw: string, parsed: real)
      requires Valid()
      modifies this
      ensures Valid()
      ensures elements == EditResult(old(elements), old(selectedId), k, InputValue(k, raw, parsed))
      ensures selectedId == old(selectedId) && idCounter == old(idCounter) && action == old(action)
      ensures actionDetail == old(actionDetail) && dragStart == old(dragStart)
      ensures originalElement == old(originalElement) && draggedElementId == old(draggedElementId)
      ensures isDesktop == old(isDesktop)
    {
      if selectedId.None? {
        return;
      }
      var el := Find(elements, selectedId.value);
      if el.None? {
        return;
      }
      var v := InputValue(k, raw, parsed);
      SetPropsKeepsIds(elements, selectedId.value, Put(el.value.props, k, v));
      elements := SetProps(elements, selectedId.value, Put(el.value.props, k, v));
    }

    /**
     * Pointer-down in the preview area at (x, y): records the start point,
     * classifies the target into the gesture to run (a handle selects
     * nothing new, an element body selects that element, the background
     * clears the selection and leaves the gesture as it was) and, when
     * something is selected, snapshots it (None if it is not in the scene).
     */
    method DragStart(target: Target, x: real, y: real)
      modifies this
      ensures dragStart == Vec2(x, y)
      ensures action == match target
                        case ResizeHandle(_) => Some(Resize)
                        case MultifuncHandle => Some(Resize)
                        case RadiusHandle => Some(Radius)
                        case ElementBody(_) => Some(Move)
                        case Background => old(action)
      ensures actionDetail == if target.ResizeHandle? && target.direction != "" then Some(target.direction)
                              else old(actionDetail)
      ensures selectedId == match target
                            case ElementBody(id) => Some(id)
                            case Background => None
                            case _ => old(selectedId)
      ensures originalElement == if Truthy(selectedId) then Find(elements, selectedId.value) else old(originalElement)
      ensures elements == old(elements) && idCounter == old(idCounter)
      ensures draggedElementId == old(draggedElementId) && isDesktop == old(isDesktop)
    {
      dragStart := Vec2(x, y);
      match target {
        case ResizeHandle(direction) =>
          action := Some(Resize);
          if direction != "" {
            actionDetail := Some(direction);
          }
        case MultifuncHandle =>
          action := Some(Resize);
        case RadiusHandle =>
          action := Some(Radius);
        case ElementBody(id) =>
          selectedId := Some(id);
          action := Some(Move);
        case Background =>
          selectedId := None;
      }
      if Truthy(selectedId) {
        originalElement := Find(elements, selectedId.value);
      }
    }

    /**
     * Pointer-move to (x, y). Without a gesture or a selection it does
     * nothing. Otherwise it writes `Step`'s result, computed from the
     * snapshot and the offset from the start point, into the selected
     * element; a missing element, a missing snapshot or a desktop resize
     * without a direction makes the source fail before it writes anything.
     * `stretch` is the diagonal growth of a mobile resize.
     */
    method DragMove(x: real, y: real, stretch: Vec2)
      requires Valid()
      modifies this
      ensures Valid()
      ensures !(old(action).Some? && Truthy(old(selectedId))) ==> elements == old(elements)
      ensures elements == DragMoveResult(old(elements), old(selectedId), old(action), old(actionDetail), old(dragStart),
                                         old(originalElement), old(isDesktop), x, y, stretch)
      ensures selectedId == old(selectedId) && idCounter == old(idCounter) && action == old(action)
      ensures actionDetail == old(actionDetail) && dragStart == old(dragStart)
      ensures originalElement == old(originalElement) && draggedElementId == old(draggedElementId)
      ensures isDesktop == old(isDesktop)
    {
      if action.None? || !Truthy(selectedId) {
        return;
      }
      var id := selectedId.value;
      var dx := x - dragStart.x;
      var dy := y - dragStart.y;
      var el := Find(elements, id);
      if el.None? || originalElement.None? {
        return;
      }
      var orig := originalElement.value.props;
      var written := Step(action.value, el.value.props, orig, dx, dy, isDesktop, actionDetail, stretch);
      if written.None? {
        return;
      }
      SetPropsKeepsIds(elements, id, written.value);
      elements := SetProps(elements, id, written.value);
    }

    /** Pointer-up ends the gesture and drops the snapshot. */
    method DragEnd()
      modifies this
      ensures action == None && originalElement == None
      ensures elements == old(elements) && selectedId == old(selectedId) && idCounter == old(idCounter)
      ensures actionDetail == old(actionDetail) && dragStart == old(dragStart)
      ensures draggedElementId == old(draggedElementId) && isDesktop == old(isDesktop)
    {
      action := None;
      originalElement := None;
    }
  }

  // ----- validity is preserved -----

  /** None of the ids `gone` can be found in `f`. */
  ghost predicate Gone(gone: seq<int>, f: seq<Element>) {
    forall x :: x in gone ==> Find(f, x).None?
  }

  lemma DistinctAppend(s: seq<int>, x: int)
    requires Distinct(s) && x !in s
    ensures Distinct(s + [x])
  {
    forall y ensures multiset(s + [x])[y] <= 1 {
      assert multiset(s + [x]) == multiset(s) + multiset{x};
    }
  }

  /** Appending an element with the next id from the counter. */
  lemma AppendKeepsValid(f: seq<Element>, e: Element, counter: nat, g: seq<Element>)
    requires WellNumbered(f, counter)
    requires e.id == counter + 1 && e.children == [] && g == f + [e]
    ensures e.id !in Ids(f)
    ensures WellNumbered(g, counter + 1)
  {
    AppendedIds(f, e, g, Ids(f), Ids(g));
    NextIdKeepsNumbering(Ids(f), Ids(g), e.id, counter);
  }

  /** After an add, the id the handler selects finds the element it appended. */
  lemma AddedElementFound(f: seq<Element>, kind: Kind, counter: nat)
    requires WellNumbered(f, counter)
    ensures Find(f + [NewElement(kind, counter + 1)], counter + 1) == Some(NewElement(kind, counter + 1))
  {
    var e := NewElement(kind, counter + 1);
    AppendKeepsValid(f, e, counter, f + [e]);
    FindAppended(f, e);
  }

  /** Appending the next id from the counter to distinct issued ids. */
  lemma NextIdKeepsNumbering(s: seq<int>, t: seq<int>, x: int, counter: nat)
    requires Distinct(s) && Issued(s, counter) && x == counter + 1 && t == s + [x]
    ensures x !in s && Distinct(t) && Issued(t, counter + 1)
  {
    DistinctAppend(s, x);
  }

  lemma RemoveKeepsValid(f: seq<Element>, id: int, counter: nat)
    requires id in Ids(f)
    requires WellNumbered(f, counter)
    ensures WellNumbered(Remove(f, id).1, counter) && Gone(Ids([Find(f, id).value]), Remove(f, id).1)
  {
    RemoveKeepsOtherIds(f, id);
    var r := Remove(f, id).1;
    DistinctSub(Ids(r), Ids(f));
  }

  lemma ReparentKeepsValid(f: seq<Element>, dragged: int, target: int, counter: nat)
    requires WellNumbered(f, counter)
    ensures WellNumbered(Reparent(f, dragged, target), counter)
  {
    ReparentNeverDuplicates(f, dragged, target);
  }

  // ----- properties of the handlers -----

  /**
   * Default names never clash: different kinds differ in their first or
   * fifth letter, and the same kind with different ids differs in the
   * decimal suffix.
   */
  lemma DefaultNamesDistinct(k1: Kind, id1: nat, k2: Kind, id2: nat)
    requires k1 != k2 || id1 != id2
    ensures DefaultName(k1, id1) != DefaultName(k2, id2)
  {
    var a := DefaultName(k1, id1);
    var b := DefaultName(k2, id2);
    if k1 == k2 {
      if a == b {
        assert NatToString(id1) == a[|KindName(k1)|..];
        assert NatToString(id2) == b[|KindName(k2)|..];
        NatToStringInjective(id1, id2);
      }
    } else {
      assert a[..|KindName(k1)|] == KindName(k1);
      assert b[..|KindName(k2)|] == KindName(k2);
      if k1 == Frame || k2 == Frame {
        assert a[0] != b[0];
      } else {
        assert a[4] != b[4];
      }
    }
  }

  /** A default name has no whitespace, so it is also the variable the generated code declares for it. */
  lemma DefaultNameIsVariable(k: Kind, id: nat)
    ensures StripWhitespace(DefaultName(k, id)) == DefaultName(k, id)
  {
    var n := DefaultName(k, id);
    var digits := NatToString(id);
    forall i | 0 <= i < |n| ensures !IsWhitespace(n[i]) {
      if i >= |KindName(k)| {
        assert n[i] == digits[i - |KindName(k)|];
      }
    }
    StripKeepsCleanText(n);
  }

  /**
   * An input for the selected element changes only its own line of the
   * pre-order listing, where the edited key then reads the new value and
   * every other key reads as before.
   */
  lemma EditChangesOnlySelected(f: seq<Element>, id: int, k: Key, v: Value)
    requires Fits(k, v) && id in Ids(f)
    ensures var E := Entries(f, None);
            var i := IndexOf(Ids(f), id);
            i < |E| && Entries(EditResult(f, Some(id), k, v), None) == E[i := E[i].(props := Put(E[i].props, k, v))]
  {
    FoundLine(f, id, None);
    SetPropsChangesOneLine(f, id, Put(Find(f, id).value.props, k, v), None);
  }

  /** The write of one pointer-move event, unfolded. */
  lemma DragMoveWrites(f: seq<Element>, selected: Option<int>, action: Option<Action>, detail: Option<string>,
                       start: Vec2, snapshot: Option<Element>, isDesktop: bool, x: real, y: real, stretch: Vec2)
    requires DragWrite(f, selected, action, detail, start, snapshot, isDesktop, x, y, stretch).Some?
    ensures DragMoveResult(f, selected, action, detail, start, snapshot, isDesktop, x, y, stretch)
            == SetProps(f, selected.value, DragWrite(f, selected, action, detail, start, snapshot, isDesktop, x, y, stretch).value)
  {
  }

  /**
   * A move event during a gesture, with the selection found and a snapshot
   * taken, writes the gesture's step into the selected element whenever the
   * step succeeds.
   */
  lemma DragMoveApplies(f: seq<Element>, selected: Option<int>, action: Option<Action>, detail: Option<string>,
                        start: Vec2, snapshot: Option<Element>, isDesktop: bool, x: real, y: real, stretch: Vec2)
    requires action.Some? && Truthy(selected) && selected.value in Ids(f) && snapshot.Some?
    requires Step(action.value, Find(f, selected.value).value.props, snapshot.value.props,
                  x - start.x, y - start.y, isDesktop, detail, stretch).Some?
    ensures DragMoveResult(f, selected, action, detail, start, snapshot, isDesktop, x, y, stretch)
            == SetProps(f, selected.value, Step(action.value, Find(f, selected.value).value.props, snapshot.value.props,
                                                x - start.x, y - start.y, isDesktop, detail, stretch).value)
  {
    var w := DragWrite(f, selected, action, detail, start, snapshot, isDesktop, x, y, stretch);
    DragMoveWrites(f, selected, action, detail, start, snapshot, isDesktop, x, y, stretch);
  }

  /**
   * Pointer-move events during a move, a radius drag or a desktop resize
   * overwrite one another: two events in a row leave the scene as the
   * second one alone would, since both start from the same snapshot.
   */
  lemma DragMoveLatestWins(f: seq<Element>, selected: Option<int>, action: Option<Action>, detail: Option<string>,
                           start: Vec2, snapshot: Option<Element>, isDesktop: bool,
                           x1: real, y1: real, x2: real, y2: real, stretch: Vec2)
    requires !(action == Some(Resize) && !isDesktop)
    ensures DragMoveResult(DragMoveResult(f, selected, action, detail, start, snapshot, isDesktop, x1, y1, stretch),
                           selected, action, detail, start, snapshot, isDesktop, x2, y2, stretch)
            == DragMoveResult(f, selected, action, detail, start, snapshot, isDesktop, x2, y2, stretch)
  {
    var w1 := DragWrite(f, selected, action, detail, start, snapshot, isDesktop, x1, y1, stretch);
    if w1.Some? {
      var id := selected.value;
      var el := Find(f, id).value;
      var orig := snapshot.value.props;
      var g := SetProps(f, id, w1.value);
      DragMoveWrites(f, selected, action, detail, start, snapshot, isDesktop, x1, y1, stretch);
      FindAfterSetProps(f, id, w1.value);
      LatestEventWins(action.value, el.props, orig, x1 - start.x, y1 - start.y, x2 - start.x, y2 - start.y,
                      isDesktop, detail, stretch);
      var w2 := DragWrite(f, selected, action, detail, start, snapshot, isDesktop, x2, y2, stretch);
      assert DragWrite(g, selected, action, detail, start, snapshot, isDesktop, x2, y2, stretch) == w2;
      DragMoveWrites(f, selected, action, detail, start, snapshot, isDesktop, x2, y2, stretch);
      DragMoveWrites(g, selected, action, detail, start, snapshot, isDesktop, x2, y2, stretch);
      SetPropsTwice(f, id, w1.value, w2.value);
    }
  }

  /** A pointer-move never adds, removes or reorders elements. */
  lemma DragMoveKeepsIds(f: seq<Element>, selected: Option<int>, action: Option<Action>, detail: Option<string>,
                         start: Vec2, snapshot: Option<Element>, isDesktop: bool, x: real, y: real, stretch: Vec2)
    ensures Ids(DragMoveResult(f, selected, action, detail, start, snapshot, isDesktop, x, y, stretch)) == Ids(f)
  {
    var w := DragWrite(f, selected, action, detail, start, snapshot, isDesktop, x, y, stretch);
    if w.Some? {
      SetPropsKeepsIds(f, selected.value, w.value);
    }
  }
}
