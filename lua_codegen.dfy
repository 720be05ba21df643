/**
 * `generateLuaCode` of App.js: a Luau script that rebuilds the scene under
 * a ScreenGui. After a fixed header, a pre-order walk of the forest writes
 * one block per element: it declares a variable named after the element's
 * name with whitespace removed, creates the instance, names it, parents it
 * to the enclosing element's variable (or to `screenGui` at the root) and
 * sets its rounded pixel position and size and its background colour.
 *
 * The script is modelled as its list of lines; its text is every line
 * followed by a newline (`Unlines`).
 */
module LuaCodegen {
  import opened Wrappers
  import opened Decimal
  import opened Properties
  import opened SceneTree

  // ----- text helpers -----

  /** The characters JavaScript's `\s` matches. */
  predicate IsWhitespace(c: char) {
    c == ' ' || c == '\t' || c == '\n' || c == '\r' || c as int == 0x0B || c as int == 0x0C
    || c as int == 0xA0 || c as int == 0x1680 || (0x2000 <= c as int <= 0x200A)
    || c as int == 0x2028 || c as int == 0x2029 || c as int == 0x202F || c as int == 0x205F
    || c as int == 0x3000 || c as int == 0xFEFF
  }

  /** `s.replace(/\s/g, '')`. */
  function StripWhitespace(s: string): (r: string)
    ensures forall i :: 0 <= i < |r| ==> !IsWhitespace(r[i])
    ensures |r| <= |s|
  {
    if s == [] then [] else (if IsWhitespace(s[0]) then [] else [s[0]]) + StripWhitespace(s[1..])
  }

  /**
   * Stripping works character by character: a single character is dropped
   * exactly when it is whitespace, and the result of a concatenation is the
   * concatenation of the results, so what is kept keeps its order.
   */
  lemma {:induction false} StripConcat(a: string, b: string)
    ensures StripWhitespace(a + b) == StripWhitespace(a) + StripWhitespace(b)
  {
    if a == [] {
      assert a + b == b;
    } else {
      assert (a + b)[0] == a[0] && (a + b)[1..] == a[1..] + b;
      StripConcat(a[1..], b);
    }
  }

  /** Text without whitespace is its own stripped form, so stripping is idempotent. */
  lemma {:induction false} StripKeepsCleanText(s: string)
    requires forall i :: 0 <= i < |s| ==> !IsWhitespace(s[i])
    ensures StripWhitespace(s) == s
  {
    if s != [] {
      StripKeepsCleanText(s[1..]);
    }
  }

  /** `Math.round`: the nearest integer, halves rounded up. */
  function Round(x: real): (n: int)
    ensures n as real <= x + 0.5 < n as real + 1.0
  {
    (x + 0.5).Floor
  }

  /** Joins lines, each followed by a newline. */
  function Unlines(ls: seq<string>): string {
    if ls == [] then "" else ls[0] + "\n" + Unlines(ls[1..])
  }

  lemma {:induction false} UnlinesConcat(a: seq<string>, b: seq<string>)
    ensures Unlines(a + b) == Unlines(a) + Unlines(b)
  {
    if a == [] {
      assert a + b == b;
    } else {
      assert (a + b)[0] == a[0] && (a + b)[1..] == a[1..] + b;
      UnlinesConcat(a[1..], b);
    }
  }

  // ----- the script -----

  /** The variable of the ScreenGui everything hangs from. */
  const RootVar: string := "screenGui"

  /** `local v = Instance.new("kind")`: declares `v` and creates the instance. */
  function DeclLine(v: string, kind: string): string {
    "local " + v + " = Instance.new(\"" + kind + "\")"
  }

  /** A statement on a member of `v`: `v.rest`. */
  function MemberLine(v: string, rest: string): string {
    v + "." + rest
  }

  function UDim2Text(v: Vec2): string {
    "UDim2.new(0, " + IntToString(Round(v.x)) + ", 0, " + IntToString(Round(v.y)) + ")"
  }

  function Header(): seq<string> {
    [DeclLine(RootVar, "ScreenGui"),
     MemberLine(RootVar, "Parent = game.Players.LocalPlayer:WaitForChild(\"PlayerGui\")"),
     ""]
  }

  /** The variable a block declares: the element's name with whitespace removed. */
  function VarName(e: Element): (v: string)
    ensures forall i :: 0 <= i < |v| ==> !IsWhitespace(v[i])
  {
    StripWhitespace(e.props.name)
  }

  /** The six statements of a block after the declaration, then a blank line. */
  function BlockBody(v: string, e: Element, parentVar: string): seq<string> {
    [MemberLine(v, "Name = \"" + e.props.name + "\""),
     MemberLine(v, "Parent = " + parentVar),
     MemberLine(v, "Position = " + UDim2Text(e.props.position)),
     MemberLine(v, "Size = " + UDim2Text(e.props.size)),
     MemberLine(v, "BackgroundColor3 = Color3.fromHex(\"" + e.props.backgroundColor3 + "\")"),
     ""]
  }

  /** The seven-line block for element `e` whose parent's variable is `parentVar`. */
  function Block(e: Element, parentVar: string): (b: seq<string>)
    ensures |b| == 7
  {
    [DeclLine(VarName(e), KindName(e.kind))] + BlockBody(VarName(e), e, parentVar)
  }

  /** `generateFor`: the blocks of a forest whose top-level elements are parented to `parentVar`. */
  function Emit(f: seq<Element>, parentVar: string): seq<string> {
    if f == [] then []
    else
      Block(f[0], parentVar)
      + (if |f[0].children| > 0 then Emit(f[0].children, VarName(f[0])) else [])
      + Emit(f[1..], parentVar)
  }

  /** The whole script, line by line. */
  function Program(f: seq<Element>): seq<string> {
    Header() + Emit(f, RootVar)
  }

  // ----- the walk the generator performs -----

  /** One visit of the walk: an element and the element that owns it (None at the root). */
  datatype Visit = Visit(element: Element, owner: Option<Element>)

  /** The variable a visited element is parented to. */
  function OwnerVar(owner: Option<Element>): string {
    match owner
    case None => RootVar
    case Some(p) => VarName(p)
  }

  function OwnerId(owner: Option<Element>): Option<int> {
    match owner
    case None => None
    case Some(p) => Some(p.id)
  }

  /** The pre-order walk, recording each element's owner. */
  function Walk(f: seq<Element>, owner: Option<Element>): seq<Visit> {
    if f == [] then [] else [Visit(f[0], owner)] + Walk(f[0].children, Some(f[0])) + Walk(f[1..], owner)
  }

  /** The blocks of a list of visits, one after the other. */
  function Blocks(ws: seq<Visit>): seq<string> {
    if ws == [] then [] else Block(ws[0].element, OwnerVar(ws[0].owner)) + Blocks(ws[1..])
  }

  /** What a visit shows of the scene: the line of the pre-order listing it stands for. */
  function AsEntry(w: Visit): Entry {
    Entry(OwnerId(w.owner), w.element.id, w.element.kind, w.element.props)
  }

  function AsEntries(ws: seq<Visit>): seq<Entry> {
    seq(|ws|, i requires 0 <= i < |ws| => AsEntry(ws[i]))
  }

  lemma {:induction false} WalkConcat(a: seq<Element>, b: seq<Element>, owner: Option<Element>)
    ensures Walk(a + b, owner) == Walk(a, owner) + Walk(b, owner)
  {
    if a == [] {
      assert a + b == b;
    } else {
      assert (a + b)[0] == a[0] && (a + b)[1..] == a[1..] + b;
      WalkConcat(a[1..], b, owner);
    }
  }

  lemma {:induction false} BlocksConcat(a: seq<Visit>, b: seq<Visit>)
    ensures Blocks(a + b) == Blocks(a) + Blocks(b)
  {
    if a == [] {
      assert a + b == b;
    } else {
      assert (a + b)[0] == a[0] && (a + b)[1..] == a[1..] + b;
      BlocksConcat(a[1..], b);
    }
  }

  lemma AsEntriesConcat(a: seq<Visit>, b: seq<Visit>)
    ensures AsEntries(a + b) == AsEntries(a) + AsEntries(b)
  {
  }

  /**
   * The generator writes the blocks of the walk, in order: the i-th block
   * belongs to the i-th visited element and names its owner's variable.
   */
  lemma {:induction false} EmitIsBlocksOfWalk(f: seq<Element>, owner: Option<Element>)
    ensures Emit(f, OwnerVar(owner)) == Blocks(Walk(f, owner))
  {
    if f != [] {
      var e := f[0];
      EmitIsBlocksOfWalk(e.children, Some(e));
      EmitIsBlocksOfWalk(f[1..], owner);
      var wc := Walk(e.children, Some(e));
      var wt := Walk(f[1..], owner);
      BlocksConcat([Visit(e, owner)] + wc, wt);
      BlocksConcat([Visit(e, owner)], wc);
      assert Blocks([Visit(e, owner)]) == Block(e, OwnerVar(owner)) by {
        assert [Visit(e, owner)][1..] == [];
      }
      if |e.children| == 0 {
        assert wc == [];
      }
    }
  }

  /** The walk visits exactly the lines of the scene's pre-order listing, each with its owner. */
  lemma {:induction false} WalkFollowsListing(f: seq<Element>, owner: Option<Element>)
    ensures AsEntries(Walk(f, owner)) == Entries(f, OwnerId(owner))
  {
    if f != [] {
      var e := f[0];
      WalkFollowsListing(e.children, Some(e));
      WalkFollowsListing(f[1..], owner);
      var wc := Walk(e.children, Some(e));
      var wt := Walk(f[1..], owner);
      AsEntriesConcat([Visit(e, owner)] + wc, wt);
      AsEntriesConcat([Visit(e, owner)], wc);
    }
  }

  /**
   * Every visited element really belongs to its recorded owner: it is one
   * of the walked forest's top-level elements (owned by the walk's owner)
   * or one of its owner's children.
   */
  lemma {:induction false} WalkOwnersOwn(f: seq<Element>, owner: Option<Element>)
    ensures forall w :: w in Walk(f, owner) ==>
              (w.owner == owner && w.element in f) || (w.owner.Some? && w.element in w.owner.value.children)
  {
    if f != [] {
      var e := f[0];
      WalkOwnersOwn(e.children, Some(e));
      WalkOwnersOwn(f[1..], owner);
      forall w | w in Walk(f, owner)
        ensures (w.owner == owner && w.element in f) || (w.owner.Some? && w.element in w.owner.value.children)
      {
        if w in Walk(f[1..], owner) && w.owner == owner && w.element in f[1..] {
          assert w.element in f;
        }
      }
    }
  }

  /** The block of one visit. */
  function VisitBlock(w: Visit): (b: seq<string>)
    ensures |b| == 7
  {
    Block(w.element, OwnerVar(w.owner))
  }

  /** `F`'s lines for each visit, one after the other. */
  function Chunks(ws: seq<Visit>, F: Visit -> seq<string>): seq<string> {
    if ws == [] then [] else F(ws[0]) + Chunks(ws[1..], F)
  }

  lemma {:induction false} BlocksAreChunks(ws: seq<Visit>)
    ensures Blocks(ws) == Chunks(ws, VisitBlock)
  {
    if ws != [] {
      BlocksAreChunks(ws[1..]);
    }
  }

  /** When `F` always gives seven lines, the chunk of visit `i` sits at lines `7*i` to `7*i + 6`. */
  lemma {:induction false} ChunksAt(ws: seq<Visit>, F: Visit -> seq<string>, i: nat)
    requires i < |ws| && forall w :: |F(w)| == 7
    ensures |Chunks(ws, F)| == 7 * |ws|
    ensures Chunks(ws, F)[7 * i..7 * i + 7] == F(ws[i])
  {
    ChunksLength(ws, F);
    var A := F(ws[0]);
    var B := Chunks(ws[1..], F);
    if i > 0 {
      ChunksAt(ws[1..], F, i - 1);
      assert ws[1..][i - 1] == ws[i];
      assert (A + B)[7 * i..7 * i + 7] == B[7 * (i - 1)..7 * (i - 1) + 7];
    }
  }

  lemma {:induction false} ChunksLength(ws: seq<Visit>, F: Visit -> seq<string>)
    requires forall w :: |F(w)| == 7
    ensures |Chunks(ws, F)| == 7 * |ws|
  {
    if ws != [] {
      ChunksLength(ws[1..], F);
    }
  }

  /** Block `i` of a list of visits sits at lines `7*i` to `7*i + 6`. */
  lemma {:induction false} BlocksAt(ws: seq<Visit>, i: nat)
    requires i < |ws|
    ensures |Blocks(ws)| == 7 * |ws|
    ensures Blocks(ws)[7 * i..7 * i + 7] == Block(ws[i].element, OwnerVar(ws[i].owner))
  {
    BlocksAreChunks(ws);
    ChunksAt(ws, VisitBlock, i);
  }

  lemma {:induction false} BlocksLength(ws: seq<Visit>)
    ensures |Blocks(ws)| == 7 * |ws|
  {
    if ws != [] {
      BlocksLength(ws[1..]);
    }
  }

  /** The walk has one visit per element. */
  lemma WalkLength(f: seq<Element>, owner: Option<Element>)
    ensures |Walk(f, owner)| == |Ids(f)|
  {
    WalkFollowsListing(f, owner);
    assert |AsEntries(Walk(f, owner))| == |EntryIds(Entries(f, OwnerId(owner)))|;
  }

  // ----- the shape of the script -----

  /** The script is the three header lines followed by one seven-line block per element. */
  lemma ProgramLength(f: seq<Element>)
    ensures |Program(f)| == 3 + 7 * |Ids(f)|
    ensures Program(f)[..3] == Header()
    ensures Program(f)[3..] == Emit(f, RootVar)
  {
    EmitIsBlocksOfWalk(f, None);
    WalkLength(f, None);
    BlocksLength(Walk(f, None));
  }

  /**
   * Block `i` after the header belongs to the element on line `i` of the
   * scene's pre-order listing; its Parent line names `screenGui` for a root
   * element and its owner's variable otherwise.
   */
  lemma ProgramBlock(f: seq<Element>, i: nat)
    requires i < |Ids(f)|
    ensures |Walk(f, None)| == |Ids(f)| && |Emit(f, RootVar)| == 7 * |Ids(f)|
    ensures var w := Walk(f, None)[i];
            var b := Emit(f, RootVar)[7 * i..7 * i + 7];
            AsEntry(w) == Entries(f, None)[i]
            && b == Block(w.element, OwnerVar(w.owner))
            && b[2] == MemberLine(VarName(w.element), "Parent = " + OwnerVar(w.owner))
  {
    var ws := Walk(f, None);
    WalkLength(f, None);
    EmitIsBlocksOfWalk(f, None);
    BlocksLength(ws);
    WalkFollowsListing(f, None);
    assert AsEntries(ws)[i] == AsEntry(ws[i]);
    var E := Emit(f, RootVar);
    var b := E[7 * i..7 * i + 7];
    BlocksAt(ws, i);
    BlockParentLine(ws[i].element, OwnerVar(ws[i].owner));
  }

  /**
   * The seven lines of a block: the declaration, the Name, Parent, Position,
   * Size and BackgroundColor3 assignments, and the blank separator line.
   */
  lemma BlockLines(e: Element, parentVar: string)
    ensures var b := Block(e, parentVar);
            b[0] == DeclLine(VarName(e), KindName(e.kind))
            && b[1] == MemberLine(VarName(e), "Name = \"" + e.props.name + "\"")
            && b[2] == MemberLine(VarName(e), "Parent = " + parentVar)
            && b[3] == MemberLine(VarName(e), "Position = " + UDim2Text(e.props.position))
            && b[4] == MemberLine(VarName(e), "Size = " + UDim2Text(e.props.size))
            && b[5] == MemberLine(VarName(e), "BackgroundColor3 = Color3.fromHex(\"" + e.props.backgroundColor3 + "\")")
            && b[6] == ""
  {
  }

  lemma BlockParentLine(e: Element, parentVar: string)
    ensures Block(e, parentVar)[2] == MemberLine(VarName(e), "Parent = " + parentVar)
  {
  }

  /** A line that declares a variable. */
  predicate IsDeclaration(line: string) {
    |line| >= 6 && line[..6] == "local "
  }

  lemma DeclLineDeclares(v: string, kind: string)
    ensures IsDeclaration(DeclLine(v, kind))
  {
    var line := DeclLine(v, kind);
    assert line == "local " + (v + " = Instance.new(\"" + kind + "\")");
    assert line[..6] == "local ";
  }

  /** A statement on a whitespace-free variable never reads as a declaration. */
  lemma {:induction false} MemberLineIsNoDeclaration(v: string, rest: string)
    requires forall i :: 0 <= i < |v| ==> !IsWhitespace(v[i])
    ensures !IsDeclaration(MemberLine(v, rest))
  {
    var line := MemberLine(v, rest);
    if |v| >= 5 {
      assert line[5] == (if |v| == 5 then '.' else v[5]);
      assert "local "[5] == ' ';
    } else {
      assert line[|v|] == '.';
      assert "local "[|v|] != '.';
    }
  }

  /** The number of declaration lines. */
  function Declarations(ls: seq<string>): nat {
    if ls == [] then 0 else (if IsDeclaration(ls[0]) then 1 else 0) + Declarations(ls[1..])
  }

  lemma {:induction false} DeclarationsConcat(a: seq<string>, b: seq<string>)
    ensures Declarations(a + b) == Declarations(a) + Declarations(b)
  {
    if a == [] {
      assert a + b == b;
    } else {
      assert (a + b)[0] == a[0] && (a + b)[1..] == a[1..] + b;
      DeclarationsConcat(a[1..], b);
    }
  }

  lemma {:induction false} NoDeclarations(ls: seq<string>)
    requires forall i :: 0 <= i < |ls| ==> !IsDeclaration(ls[i])
    ensures Declarations(ls) == 0
  {
    if ls != [] {
      NoDeclarations(ls[1..]);
    }
  }

  /** Only the first line of a block declares: each block creates exactly one instance. */
  lemma BlockDeclaresOnce(e: Element, parentVar: string)
    ensures Declarations(Block(e, parentVar)) == 1
  {
    var v := VarName(e);
    DeclLineDeclares(v, KindName(e.kind));
    BodyDeclaresNothing(v, e, parentVar);
    DeclarationsConcat([DeclLine(v, KindName(e.kind))], BlockBody(v, e, parentVar));
  }

  lemma BodyDeclaresNothing(v: string, e: Element, parentVar: string)
    requires forall i :: 0 <= i < |v| ==> !IsWhitespace(v[i])
    ensures Declarations(BlockBody(v, e, parentVar)) == 0
  {
    var body := BlockBody(v, e, parentVar);
    MemberLineIsNoDeclaration(v, "Name = \"" + e.props.name + "\"");
    MemberLineIsNoDeclaration(v, "Parent = " + parentVar);
    MemberLineIsNoDeclaration(v, "Position = " + UDim2Text(e.props.position));
    MemberLineIsNoDeclaration(v, "Size = " + UDim2Text(e.props.size));
    MemberLineIsNoDeclaration(v, "BackgroundColor3 = Color3.fromHex(\"" + e.props.backgroundColor3 + "\")");
    NoDeclarations(body);
  }

  lemma {:induction false} BlocksDeclarations(ws: seq<Visit>)
    ensures Declarations(Blocks(ws)) == |ws|
  {
    if ws != [] {
      BlockDeclaresOnce(ws[0].element, OwnerVar(ws[0].owner));
      DeclarationsConcat(Block(ws[0].element, OwnerVar(ws[0].owner)), Blocks(ws[1..]));
      BlocksDeclarations(ws[1..]);
    }
  }

  /**
   * The script declares one variable more than the scene has elements: the
   * ScreenGui and one per element, each declaration creating the instance
   * with `Instance.new`. (Counting the text `Instance.new` itself would not
   * do: the Name line quotes the user's name, which may contain it.)
   */
  lemma DeclarationPerElement(f: seq<Element>)
    ensures Declarations(Program(f)) == 1 + |Ids(f)|
  {
    EmitIsBlocksOfWalk(f, None);
    WalkLength(f, None);
    BlocksDeclarations(Walk(f, None));
    DeclarationsConcat(Header(), Emit(f, RootVar));
    HeaderDeclaresOnce();
  }

  /** The header declares only the ScreenGui. */
  lemma HeaderDeclaresOnce()
    ensures Declarations(Header()) == 1
  {
    var H := Header();
    DeclLineDeclares(RootVar, "ScreenGui");
    assert forall i :: 0 <= i < |RootVar| ==> !IsWhitespace(RootVar[i]);
    MemberLineIsNoDeclaration(RootVar, "Parent = game.Players.LocalPlayer:WaitForChild(\"PlayerGui\")");
    NoDeclarations(H[1..]);
    DeclarationsConcat([H[0]], H[1..]);
    assert [H[0]] + H[1..] == H;
  }

  // ----- the generator as the source runs it -----

  lemma {:induction false} EmitConcat(a: seq<Element>, b: seq<Element>, parentVar: string)
    ensures Emit(a + b, parentVar) == Emit(a, parentVar) + Emit(b, parentVar)
  {
    if a == [] {
      assert a + b == b;
    } else {
      assert (a + b)[0] == a[0] && (a + b)[1..] == a[1..] + b;
      EmitConcat(a[1..], b, parentVar);
    }
  }

  /** The accumulator bookkeeping of one step: appending two pieces is appending their concatenation. */
  lemma AppendTwice(code: string, a: string, b: string, afterA: string, out: string)
    requires afterA == code + a && out == afterA + b
    ensures out == code + (a + b)
  {
  }

  /**
   * The body of the `forEach` callback in `generateFor`: append the
   * element's block, then, if it has children, their blocks parented to
   * its variable.
   */
  method GenerateOne(el: Element, parentVar: string, code: string) returns (out: string)
    ensures out == code + Unlines(Emit([el], parentVar))
    decreases el, 0
  {
    out := code + Unlines(Block(el, parentVar));
    ghost var afterBlock := out;
    if |el.children| > 0 {
      out := GenerateFor(el.children, StripWhitespace(el.props.name), out);
    }
    ghost var kids := if |el.children| > 0 then Emit(el.children, VarName(el)) else [];
    assert [el][1..] == [];
    assert Emit([el], parentVar) == Block(el, parentVar) + kids;
    UnlinesConcat(Block(el, parentVar), kids);
    AppendTwice(code, Unlines(Block(el, parentVar)), Unlines(kids), afterBlock, out);
  }

  /** The blocks of one more sibling. */
  lemma EmitStep(elements: seq<Element>, i: nat, parentVar: string)
    requires i < |elements|
    ensures Unlines(Emit(elements[..i + 1], parentVar))
            == Unlines(Emit(elements[..i], parentVar)) + Unlines(Emit([elements[i]], parentVar))
  {
    assert elements[..i + 1] == elements[..i] + [elements[i]];
    EmitConcat(elements[..i], [elements[i]], parentVar);
    UnlinesConcat(Emit(elements[..i], parentVar), Emit([elements[i]], parentVar));
  }

  /** `generateFor`: appends to the accumulator the blocks of `elements`, in pre-order. */
  method GenerateFor(elements: seq<Element>, parentVar: string, code: string) returns (out: string)
    ensures out == code + Unlines(Emit(elements, parentVar))
    decreases elements, 1
  {
    out := code;
    var i := 0;
    while i < |elements|
      invariant 0 <= i <= |elements|
      invariant out == code + Unlines(Emit(elements[..i], parentVar))
    {
      ghost var before := out;
      out := GenerateOne(elements[i], parentVar, out);
      EmitStep(elements, i, parentVar);
      AppendTwice(code, Unlines(Emit(elements[..i], parentVar)), Unlines(Emit([elements[i]], parentVar)), before, out);
      i := i + 1;
    }
    assert elements[..i] == elements;
  }

  /** `generateLuaCode`: the header, then the blocks of the whole scene. */
  method GenerateLuaCode(elements: seq<Element>) returns (code: string)
    ensures code == Unlines(Program(elements))
  {
    code := Unlines(Header());
    code := GenerateFor(elements, RootVar, code);
    UnlinesConcat(Header(), Emit(elements, RootVar));
  }
}
