/**
 * The property record of App.js: every element carries a name, a pixel
 * position and size, a corner radius and a background colour; the text
 * kinds add a text style.
 */
module Properties {
  import opened Wrappers

  /** The kinds the editor offers (the keys of its icon table). */
  datatype Kind = Frame | TextLabel | TextButton

  /** The kind as the text the editor stores in `type` and writes into the generated code. */
  function KindName(k: Kind): string {
    match k
    case Frame => "Frame"
    case TextLabel => "TextLabel"
    case TextButton => "TextButton"
  }

  /** A pixel pair (`{X, Y}`). */
  datatype Vec2 = Vec2(x: real, y: real)

  datatype TextStyle = TextStyle(text: string, textColor3: string, textSize: real)

  datatype Props = Props(
    name: string,
    position: Vec2,
    size: Vec2,
    cornerRadius: real,
    backgroundColor3: string,
    textStyle: Option<TextStyle>)

  /** Shared by every kind. */
  function BaseProperties(name: string): Props {
    Props(name, Vec2(50.0, 50.0), Vec2(200.0, 100.0), 0.0, "#393939", None)
  }

  /** The properties of a newly added element of kind `k` called `name`. */
  function DefaultProperties(k: Kind, name: string): (p: Props)
    ensures p.name == name && p.position == Vec2(50.0, 50.0)
    ensures p.cornerRadius == 0.0 && p.backgroundColor3 == "#393939"
    ensures p.size == if k == TextButton then Vec2(120.0, 50.0) else Vec2(200.0, 100.0)
    ensures p.textStyle.Some? <==> k != Frame
    ensures p.textStyle.Some? ==> p.textStyle.value.textColor3 == "#FFFFFF" && p.textStyle.value.textSize == 18.0
    ensures p.textStyle.Some? ==> p.textStyle.value.text == (if k == TextLabel then "TextLabel" else "Button")
  {
    var base := BaseProperties(name);
    match k
    case TextLabel => base.(textStyle := Some(TextStyle("TextLabel", "#FFFFFF", 18.0)))
    case TextButton => base.(size := Vec2(120.0, 50.0), textStyle := Some(TextStyle("Button", "#FFFFFF", 18.0)))
    case Frame => base
  }

  // ----- the properties panel -----

  /** The properties the panel edits, by their `data-key` path. */
  datatype Key = Name | PositionX | PositionY | SizeX | SizeY | BackgroundColor3 | CornerRadius

  /** A value written by an input: text, or a number from a numeric input. */
  datatype Value = Str(s: string) | Num(n: real)

  /** The position, size and radius inputs are numeric; the name and colour inputs give text. */
  predicate IsNumeric(k: Key) {
    !(k == Name || k == BackgroundColor3)
  }

  predicate Fits(k: Key, v: Value) {
    IsNumeric(k) <==> v.Num?
  }

  /**
   * What an input event writes for key `k`: the number (`parsed`, the
   * value of `Number(raw)`) for a numeric input, the raw text otherwise.
   */
  function InputValue(k: Key, raw: string, parsed: real): (v: Value)
    ensures Fits(k, v)
    ensures v.Str? ==> v.s == raw
    ensures v.Num? ==> v.n == parsed
  {
    if IsNumeric(k) then Num(parsed) else Str(raw)
  }

  /** The value shown for key `k`, read along its path. */
  function Get(p: Props, k: Key): (v: Value)
    ensures Fits(k, v)
  {
    match k
    case Name => Str(p.name)
    case PositionX => Num(p.position.x)
    case PositionY => Num(p.position.y)
    case SizeX => Num(p.size.x)
    case SizeY => Num(p.size.y)
    case BackgroundColor3 => Str(p.backgroundColor3)
    case CornerRadius => Num(p.cornerRadius)
  }

  /**
   * The write at the end of the key's path: the key then reads `v`, every
   * other key reads as before, and the text style is untouched.
   */
  function Put(p: Props, k: Key, v: Value): (q: Props)
    requires Fits(k, v)
    ensures Get(q, k) == v
    ensures forall k' :: k' != k ==> Get(q, k') == Get(p, k')
    ensures q.textStyle == p.textStyle
  {
    match k
    case Name => p.(name := v.s)
    case PositionX => p.(position := p.position.(x := v.n))
    case PositionY => p.(position := p.position.(y := v.n))
    case SizeX => p.(size := p.size.(x := v.n))
    case SizeY => p.(size := p.size.(y := v.n))
    case BackgroundColor3 => p.(backgroundColor3 := v.s)
    case CornerRadius => p.(cornerRadius := v.n)
  }

  /** Writing back what a key reads changes nothing. */
  lemma PutGet(p: Props, k: Key)
    ensures Put(p, k, Get(p, k)) == p
  {
  }

  /** Properties agreeing on every key and on the text style are the same. */
  lemma GetDetermines(p: Props, q: Props)
    requires forall k :: Get(p, k) == Get(q, k)
    requires p.textStyle == q.textStyle
    ensures p == q
  {
    assert Get(p, Name) == Get(q, Name) && Get(p, BackgroundColor3) == Get(q, BackgroundColor3);
    assert Get(p, PositionX) == Get(q, PositionX) && Get(p, PositionY) == Get(q, PositionY);
    assert Get(p, SizeX) == Get(q, SizeX) && Get(p, SizeY) == Get(q, SizeY);
    assert Get(p, CornerRadius) == Get(q, CornerRadius);
  }

  /** A second write to the same key overrides the first. */
  lemma PutPut(p: Props, k: Key, v: Value, w: Value)
    requires Fits(k, v) && Fits(k, w)
    ensures Put(Put(p, k, v), k, w) == Put(p, k, w)
  {
    var a := Put(Put(p, k, v), k, w);
    var b := Put(p, k, w);
    forall k' ensures Get(a, k') == Get(b, k') {
    }
    GetDetermines(a, b);
  }
}
