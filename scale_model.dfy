/**
 * The second editor, app.js, which describes geometry the way the target
 * engine does: every position and size is a pair of a scale (a fraction of
 * the parent) and an offset (in pixels) per axis. Modelled here: its
 * default property tables, the add handler and the visible part of the
 * nested numeric property write.
 */
module ScaleModel {
  import opened Wrappers
  import opened Decimal

  /** The nine kinds the toolbox of app.js offers, in its order. */
  datatype ScaleKind = Frame | TextLabel | TextButton | ImageLabel | UICorner | UIGradient | TextBox | ScrollingFrame | UIListLayout

  function ScaleKindName(k: ScaleKind): string {
    match k
    case Frame => "Frame"
    case TextLabel => "TextLabel"
    case TextButton => "TextButton"
    case ImageLabel => "ImageLabel"
    case UICorner => "UICorner"
    case UIGradient => "UIGradient"
    case TextBox => "TextBox"
    case ScrollingFrame => "ScrollingFrame"
    case UIListLayout => "UIListLayout"
  }

  datatype Axes = Axes(x: real, y: real)

  /** A scale and an offset per axis. */
  datatype UDim2 = UDim2(scale: Axes, offset: Axes)

  /** A scale and an offset on one axis. */
  datatype UDim = UDim(scale: real, offset: real)

  /** A colour stop of a gradient: a time in [0, 1] and a colour. */
  datatype ColorStop = ColorStop(time: real, value: string)

  /** The properties only some kinds have. */
  datatype Extra =
    | NoExtra
    | LabelText(text: string, textColor3: string, textSize: int, font: string,
                textWrapped: bool, textXAlignment: string, textYAlignment: string)
    | ButtonText(text: string, textColor3: string, textSize: int, font: string)
    | BoxText(text: string, placeholderText: string, textColor3: string, textSize: int, clearTextOnFocus: bool)
    | Image(image: string, imageColor3: string, imageTransparency: real, scaleType: string)
    | Corner(cornerRadius: UDim)
    | Gradient(color: seq<ColorStop>)

  datatype ScaleProps = ScaleProps(
    name: string,
    position: UDim2,
    size: UDim2,
    anchorPoint: Axes,
    rotation: real,
    backgroundColor3: string,
    backgroundTransparency: real,
    zIndex: int,
    visible: bool,
    extra: Extra)

  const Zero: Axes := Axes(0.0, 0.0)

  /** The record every kind starts from. */
  function ScaleBase(name: string): ScaleProps {
    ScaleProps(name, UDim2(Zero, Axes(50.0, 50.0)), UDim2(Zero, Axes(200.0, 100.0)), Zero,
               0.0, "#808080", 0.0, 1, true, NoExtra)
  }

  /**
   * `getDefaultProperties` of app.js, stated property by property: what all
   * kinds share, and where a kind departs from the shared record.
   */
  function DefaultScaleProperties(k: ScaleKind, name: string): (p: ScaleProps)
    ensures p.name == match k
                      case UICorner => "UICorner"
                      case UIGradient => "UIGradient"
                      case _ => name
    ensures p.position == UDim2(Axes(0.0, 0.0), Axes(50.0, 50.0))
    ensures p.size.scale == Axes(0.0, 0.0)
    ensures p.size.offset == match k
                             case TextButton => Axes(120.0, 50.0)
                             case TextBox => Axes(250.0, 40.0)
                             case UICorner => Axes(0.0, 0.0)
                             case UIGradient => Axes(0.0, 0.0)
                             case _ => Axes(200.0, 100.0)
    ensures p.anchorPoint == Axes(0.0, 0.0)
    ensures p.rotation == if k == UIGradient then 90.0 else 0.0
    ensures p.backgroundColor3 == if k == TextBox then "#FFFFFF" else "#808080"
    ensures p.backgroundTransparency == 0.0 && p.zIndex == 1 && p.visible
    ensures p.extra.NoExtra? <==> k in {Frame, ScrollingFrame, UIListLayout}
    ensures k == TextLabel ==> p.extra == LabelText("TextLabel", "#FFFFFF", 18, "SourceSans", true, "Center", "Center")
    ensures k == TextButton ==> p.extra == ButtonText("Button", "#FFFFFF", 18, "SourceSans")
    ensures k == TextBox ==> p.extra == BoxText("", "Digite aqui...", "#000000", 14, false)
    ensures k == ImageLabel ==> p.extra == Image("", "#FFFFFF", 0.0, "Stretch")
    ensures k == UICorner ==> p.extra == Corner(UDim(0.0, 8.0))
    ensures k == UIGradient ==> p.extra.Gradient? && |p.extra.color| == 2
                                && p.extra.color[0] == ColorStop(0.0, "#3B82F6")
                                && p.extra.color[1] == ColorStop(1.0, "#8B5CF6")
  {
    var base := ScaleBase(name);
    match k
    case TextLabel => base.(extra := LabelText("TextLabel", "#FFFFFF", 18, "SourceSans", true, "Center", "Center"))
    case TextButton => base.(size := UDim2(Zero, Axes(120.0, 50.0)), extra := ButtonText("Button", "#FFFFFF", 18, "SourceSans"))
    case TextBox => base.(size := UDim2(Zero, Axes(250.0, 40.0)), backgroundColor3 := "#FFFFFF",
                          extra := BoxText("", "Digite aqui...", "#000000", 14, false))
    case ImageLabel => base.(extra := Image("", "#FFFFFF", 0.0, "Stretch"))
    case UICorner => base.(name := "UICorner", size := UDim2(Zero, Zero), extra := Corner(UDim(0.0, 8.0)))
    case UIGradient => base.(name := "UIGradient", size := UDim2(Zero, Zero),
                             extra := Gradient([ColorStop(0.0, "#3B82F6"), ColorStop(1.0, "#8B5CF6")]), rotation := 90.0)
    case _ => base
  }

  /** The stops of a gradient lie in [0, 1] with strictly increasing times. */
  ghost predicate StopsOrdered(s: seq<ColorStop>) {
    (forall i :: 0 <= i < |s| ==> 0.0 <= s[i].time <= 1.0)
    && forall i, j :: 0 <= i < j < |s| ==> s[i].time < s[j].time
  }

  /** The default gradient is well formed and spans the whole range. */
  lemma DefaultGradientOrdered(name: string)
    ensures var c := DefaultScaleProperties(UIGradient, name).extra.color;
            StopsOrdered(c) && c[0].time == 0.0 && c[|c| - 1].time == 1.0
  {
    var c := DefaultScaleProperties(UIGradient, name).extra.color;
    assert |c| == 2 && c[0].time == 0.0 && c[1].time == 1.0;
    forall i, j | 0 <= i < j < |c| ensures c[i].time < c[j].time {
      assert i == 0 && j == 1;
    }
  }

  /**
   * Every kind's default keeps some size: only the two modifier kinds,
   * which the engine never draws, have a zero size.
   */
  lemma OnlyModifiersHaveNoSize(k: ScaleKind, name: string)
    ensures var s := DefaultScaleProperties(k, name).size.offset;
            (s.x == 0.0 || s.y == 0.0) <==> k in {UICorner, UIGradient}
  {
    match k {
      case UICorner =>
      case UIGradient =>
      case TextButton =>
      case TextBox =>
      case _ =>
    }
  }

  // ----- elements and the add handler -----

  /** An element of app.js also records the id of its owner (null at the root). */
  datatype ScaleElement = ScaleElement(id: int, kind: ScaleKind, props: ScaleProps,
                                       children: seq<ScaleElement>, parentId: Option<int>)

  /** The tab shown in the side panel. */
  datatype PanelTab = ExplorerTab | PropsTab

  function NewScaleElement(k: ScaleKind, id: nat): ScaleElement {
    ScaleElement(id, k, DefaultScaleProperties(k, ScaleKindName(k) + NatToString(id)), [], None)
  }

  /** The root ids strictly increase along the list and were all handed out by the counter. */
  ghost predicate RootIdsIncreasing(roots: seq<ScaleElement>, counter: nat) {
    (forall i :: 0 <= i < |roots| ==> 1 <= roots[i].id <= counter)
    && forall i, j :: 0 <= i < j < |roots| ==> roots[i].id < roots[j].id
  }

  class ScaleEditor {
    var elements: seq<ScaleElement>
    var selectedId: Option<int>
    var idCounter: nat
    var activePanelTab: PanelTab

    ghost predicate Valid()
      reads this
    {
      RootIdsIncreasing(elements, idCounter)
    }

    constructor()
      ensures Valid()
      ensures elements == [] && selectedId == None && idCounter == 0 && activePanelTab == ExplorerTab
    {
      elements := [];
      selectedId := None;
      idCounter := 0;
      activePanelTab := ExplorerTab;
    }

    /**
     * `addElement`: the counter is pre-incremented and its new value is the
     * id; the element, named after its kind and id, goes at the end of the
     * root list; it is selected and the properties tab is shown.
     */
    method AddElement(kind: ScaleKind) returns (id: nat)
      requires Valid()
      modifies this
      ensures Valid()
      ensures id == old(idCounter) + 1 && idCounter == id
      ensures forall i :: 0 <= i < |old(elements)| ==> old(elements)[i].id < id
      ensures elements == old(elements) + [NewScaleElement(kind, id)]
      ensures selectedId == Some(id) && activePanelTab == PropsTab
    {
      id := idCounter + 1;
      elements := elements + [NewScaleElement(kind, id)];
      idCounter := id;
      selectedId := Some(id);
      activePanelTab := PropsTab;
    }
  }

  // ----- the nested numeric write of updateProperty -----

  datatype Field = PositionField | SizeField
  datatype Part = ScalePart | OffsetPart
  datatype Axis = X | Y

  /** A three-level key path `properties[key][subkey][subsubkey]` into a scale-and-offset value. */
  datatype NestedPath = NestedPath(key: Field, subkey: Part, subsubkey: Axis)

  function AxisOf(a: Axes, axis: Axis): real {
    match axis
    case X => a.x
    case Y => a.y
  }

  function WithAxis(a: Axes, axis: Axis, n: real): (b: Axes)
    ensures AxisOf(b, axis) == n
    ensures forall other :: other != axis ==> AxisOf(b, other) == AxisOf(a, other)
  {
    match axis
    case X => a.(x := n)
    case Y => a.(y := n)
  }

  function FieldOf(p: ScaleProps, key: Field): UDim2 {
    match key
    case PositionField => p.position
    case SizeField => p.size
  }

  function PartOf(u: UDim2, part: Part): Axes {
    match part
    case ScalePart => u.scale
    case OffsetPart => u.offset
  }

  /** The number a path reads. */
  function Read(p: ScaleProps, path: NestedPath): real {
    AxisOf(PartOf(FieldOf(p, path.key), path.subkey), path.subsubkey)
  }

  function WithPart(u: UDim2, part: Part, a: Axes): UDim2 {
    match part
    case ScalePart => u.(scale := a)
    case OffsetPart => u.(offset := a)
  }

  /** The write at one path; every field outside position and size is kept. */
  function Write(p: ScaleProps, path: NestedPath, n: real): (q: ScaleProps)
    ensures Read(q, path) == n
    ensures forall other :: other != path ==> Read(q, other) == Read(p, other)
    ensures q.(position := p.position, size := p.size) == p
  {
    var u := FieldOf(p, path.key);
    var u' := WithPart(u, path.subkey, WithAxis(PartOf(u, path.subkey), path.subsubkey, n));
    match path.key
    case PositionField => p.(position := u')
    case SizeField => p.(size := u')
  }

  /**
   * `updateProperty(key, value, subkey, subsubkey)` with all three keys
   * given, applied to what the lookup of the selection returned: nothing
   * when it found nothing, otherwise the properties with `Number(value)`
   * (here `n`) at the path.
   */
  function UpdateNumber(found: Option<ScaleProps>, path: NestedPath, n: real): (r: Option<ScaleProps>)
    ensures r.None? <==> found.None?
    ensures r.Some? ==> Read(r.value, path) == n
    ensures r.Some? ==> forall other :: other != path ==> Read(r.value, other) == Read(found.value, other)
    ensures r.Some? ==> r.value.(position := found.value.position, size := found.value.size) == found.value
  {
    match found
    case None => None
    case Some(p) => Some(Write(p, path, n))
  }

  /** Two values of the numbers read at every path and of every other field are the same properties. */
  lemma {:induction false} ReadsDetermine(p: ScaleProps, q: ScaleProps)
    requires forall path :: Read(p, path) == Read(q, path)
    requires p.(position := q.position, size := q.size) == q
    ensures p == q
  {
    assert Read(p, NestedPath(PositionField, ScalePart, X)) == Read(q, NestedPath(PositionField, ScalePart, X));
    assert Read(p, NestedPath(PositionField, ScalePart, Y)) == Read(q, NestedPath(PositionField, ScalePart, Y));
    assert Read(p, NestedPath(PositionField, OffsetPart, X)) == Read(q, NestedPath(PositionField, OffsetPart, X));
    assert Read(p, NestedPath(PositionField, OffsetPart, Y)) == Read(q, NestedPath(PositionField, OffsetPart, Y));
    assert Read(p, NestedPath(SizeField, ScalePart, X)) == Read(q, NestedPath(SizeField, ScalePart, X));
    assert Read(p, NestedPath(SizeField, ScalePart, Y)) == Read(q, NestedPath(SizeField, ScalePart, Y));
    assert Read(p, NestedPath(SizeField, OffsetPart, X)) == Read(q, NestedPath(SizeField, OffsetPart, X));
    assert Read(p, NestedPath(SizeField, OffsetPart, Y)) == Read(q, NestedPath(SizeField, OffsetPart, Y));
  }

  /** Writing back the number a path reads changes nothing. */
  lemma {:induction false} WriteRead(p: ScaleProps, path: NestedPath)
    ensures Write(p, path, Read(p, path)) == p
  {
    ReadsDetermine(Write(p, path, Read(p, path)), p);
  }

  /** A second write at the same path overrides the first. */
  lemma {:induction false} WriteTwice(p: ScaleProps, path: NestedPath, m: real, n: real)
    ensures Write(Write(p, path, m), path, n) == Write(p, path, n)
  {
    ReadsDetermine(Write(Write(p, path, m), path, n), Write(p, path, n));
  }

  /** Writes at different paths commute. */
  lemma {:induction false} WritesCommute(p: ScaleProps, a: NestedPath, m: real, b: NestedPath, n: real)
    requires a != b
    ensures Write(Write(p, a, m), b, n) == Write(Write(p, b, n), a, m)
  {
    ReadsDetermine(Write(Write(p, a, m), b, n), Write(Write(p, b, n), a, m));
  }
}
