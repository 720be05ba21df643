# A verified model of a browser layout editor for Roblox-style user interfaces

The editor lets a user build a tree of rectangular interface elements
(frames, labels, buttons). Elements are added from a toolbox and
re-parented by dragging nodes in an explorer tree. Their properties are
edited in a side panel. In the preview, an element is moved, resized and
has its corners rounded with the pointer. The finished tree is exported
as a Luau script that rebuilds it with `Instance.new`.

Two versions of the editor are modelled.

- `App.js`, by module:
  - **Properties**: the per-kind property defaults, and the keys the panel edits.
  - **SceneTree**: the element forest with its depth-first lookup.
    It also holds the in-place removal of a subtree, the re-parenting drop and property writes.
  - **Interaction**: the geometry of the pointer gestures, which is move, corner radius, desktop edge resize and mobile resize.
  - **LuaCodegen**: the code generator.
  - **Editor**: the handler state as a class, `EditorState`.
- `app.js` (module **ScaleModel**): the scale-and-offset defaults of the second editor, its add handler and the visible part of its nested numeric property write.

The forest is specified by its pre-order listing, `SceneTree.Entries`.
Each line of that listing gives an element's owner, id, kind and properties, in pre-order.
Removal, property writes and the drop are each proved to change exactly a known block of lines and nothing else.
The generator is proved to emit, for the i-th line of the listing, a 7-line block (6 statements and a blank line).
That block declares the element and parents it to its owner's variable.

Helper modules:

- **Wrappers**: `Option`.
- **Decimal**: natural numbers written in decimal. It is used for the `${type}${id}` names and the rounded numbers in the generated code.

Modelling conventions:

- Coordinates and sizes are `real`. `Math.round` is floor(x + 1/2).
- A handler that would throw a `TypeError` leaves the state as it was. This matches the source, where the throw happens before any write.
- A nullable id is truthy when it is present and not 0.

## Model

| member | source | states |
|---|---|---|
| Properties.DefaultProperties | App.js:17-24 | name is the given name; position (50,50); corner radius 0; colour #393939; size (120,50) for TextButton and (200,100) otherwise; text styling exactly for the two text kinds, white and size 18, with text "TextLabel" or "Button" |
| Properties.InputValue | App.js:269 | a number input stores the parsed number, any other input stores the raw text; the value always has the type of the key |
| Properties.Get | App.js:264-268 | following a dotted key path reads a value of the key's type |
| Properties.Put | App.js:264-269 | a write at a key path makes that key read the new value; every other key and the text styling stay as they were |
| Properties.PutGet | App.js:264-269 | writing back the value read at a key changes nothing |
| Properties.GetDetermines | App.js:161-163 | the seven editable keys plus the text styling determine the properties |
| Properties.PutPut | App.js:262-272 | a second input at the same key overrides the first |
| Decimal.NatToString | App.js:203 | the decimal text of a number is non-empty and all digits, with no leading zero except for 0 itself |
| Decimal.IntToString | App.js:176-177 | the text of an integer is non-empty and starts with '-' exactly when the number is negative |
| Decimal.ParseIntToString | App.js:176-177 | the text of any integer, a rounded coordinate included, is a valid integer text that reads back as that integer |
| Decimal.ParseNatToString | App.js:203 | reading the digits back gives the number: the id suffix of a default name is the id |
| Decimal.NatToStringInjective | App.js:203 | different ids give different suffixes |
| SceneTree.Entries | App.js:26-46 | the ids of the pre-order listing are the forest's ids in pre-order |
| SceneTree.Find | App.js:26-35 | the lookup returns an element carrying the id, and returns one exactly when the id occurs in the forest |
| SceneTree.FindFirstInPreorder | App.js:26-35 | the element found is the first in pre-order with that id, and the listing lines after it are exactly its own subtree |
| SceneTree.Remove | App.js:37-46 | removal returns the element the lookup finds, and leaves the forest unchanged when the id is absent |
| SceneTree.RemoveDetachesSubtree | App.js:37-46 | removal deletes exactly the block of listing lines of the found element's subtree; every other element keeps its order, owner, kind and properties |
| SceneTree.RemoveIds | App.js:37-46 | the ids after removal are the ids with the found subtree's block cut out |
| SceneTree.RemoveKeepsOtherIds | App.js:37-46 | the remaining ids plus the removed subtree's ids are the original ids as a multiset; with distinct ids, the removed ids no longer occur |
| SceneTree.RemoveFromTree | App.js:37-46 | the loop that splices a sibling list in place, recursing into children, returns the detached element and the remaining forest that `Remove` specifies |
| SceneTree.ReplaceSwapsSubtree | App.js:253-255 | an in-place change to the found element swaps only its subtree's block of listing lines |
| SceneTree.FindAfterReplace | App.js:253-255 | the changed element is found again at its id |
| SceneTree.ReplaceIdsMultiset | App.js:253-255 | changing the found element swaps its subtree's ids for the new subtree's ids, as multisets |
| SceneTree.AppendChildIds | App.js:255 | pushing a child adds exactly the child's subtree ids after the element's own |
| SceneTree.Reparent | App.js:249-255 | dropping an element on itself, or dragging an id that is absent, leaves the forest unchanged |
| SceneTree.TargetSurvivesRemove | App.js:252-253 | when the target lies outside the dragged subtree, it can still be found after the detachment |
| SceneTree.ReparentMovesSubtree | App.js:252-255 | with distinct ids and a target outside the dragged subtree, the drop keeps the multiset of ids; the target is found with the dragged subtree appended as its last child |
| SceneTree.AppendToFoundEntries | App.js:255 | pushing a last child inserts the child's subtree lines, owned by the target, right after the target's block and changes no other line |
| SceneTree.ReparentAppendsAfterTarget | App.js:252-255 | the forest after the drop lists as the forest after the detachment, with the dragged subtree's lines inserted after the target's block |
| SceneTree.ReparentNeverDuplicates | App.js:249-259 | every drop yields a sub-multiset of the ids, so distinct ids stay distinct and no id appears that was not there |
| SceneTree.ReparentIntoOwnSubtreeDropsIt | App.js:252-254 | dropping an element onto one of its descendants detaches its whole subtree and re-attaches nothing |
| SceneTree.DropOntoOwnChildEmptiesForest | App.js:252-254 | a frame with one child frame, dropped onto the child, leaves an empty forest |
| SceneTree.SafeReparent | App.js:249-255 | the corrected drop does what the source's drop does exactly when both ids are present and the target lies outside the dragged subtree, and otherwise changes nothing |
| SceneTree.SafeReparentAttaches | App.js:252-255 | an allowed corrected drop is carried out: the target is found with the dragged subtree as its last child, and that subtree's lines follow the target's own in the listing |
| SceneTree.SafeReparentKeepsIds | App.js:249-255 | the corrected drop keeps the multiset of ids for every input |
| SceneTree.SetProps | App.js:265-269 | writing properties under an absent id changes nothing |
| SceneTree.SetPropsChangesOneLine | App.js:265-269 | a property write changes only the properties on the written element's own listing line |
| SceneTree.FoundLine | App.js:26-35 | the found element's listing line carries its id, kind and properties |
| SceneTree.SetPropsKeepsIds | App.js:265-269 | property writes keep every id where it was |
| SceneTree.FindAfterSetProps | App.js:311-316 | after a write, the lookup finds the element with the new properties |
| SceneTree.SetPropsTwice | App.js:311-346 | a second write to the same element overrides the first |
| Interaction.ClampSize | App.js:326-346 | a resized axis is at least 20, and equals the raw value when that is already at least 20 |
| Interaction.MoveTo | App.js:315-317 | the position is the snapshot's plus the pointer offset; nothing else changes |
| Interaction.RadiusFor | App.js:319-321 | the radius is at most half of each snapshot dimension and at most max(0, snapshot radius + (dx+dy)/2); it is one of those three values; it is non-negative for non-negative sizes |
| Interaction.SetRadius | App.js:319-321 | the radius drag writes only the corner radius |
| Interaction.ResizeSpan | App.js:326-335 | on one axis, a held edge gives an extent of at least 20; the near edge moves by exactly the offset and keeps the far edge in place while the clamp is not hit; an untouched axis is unchanged |
| Interaction.ResizeEdges | App.js:324-335 | e and w steer the width, s and n the height; touched axes are at least 20; untouched axes keep position and size; e (without w) and s (without n) keep the position and set the size to max(20, snapshot size + offset); w and n set it to max(20, snapshot size - offset), shift the position by exactly dx or dy and keep the opposite edge while unclamped; only position and size change |
| Interaction.ResizeMultifunc | App.js:336-347 | a diagonal beyond the 10-pixel dead zone grows both axes by the stretch; otherwise only the axis with the larger offset changes (the vertical one on a tie); position is never touched |
| Interaction.Step | App.js:309-350 | one move event fails exactly for a desktop resize without a recorded direction; name, colour and text are never written; each gesture writes only its own fields |
| Interaction.LatestEventWins | App.js:309-335 | for move, radius and desktop resize, a second event's result does not depend on the first: everything is computed from the snapshot |
| Interaction.MultifuncRemembersEarlierAxis | App.js:343-346 | a mobile horizontal drag then a vertical one keeps the earlier width, so the mobile resize depends on the path |
| Interaction.SingleAxisOutsideDiagonal | App.js:338-347 | outside the dead zone at most one axis changes |
| LuaCodegen.StripWhitespace | App.js:172 | the variable name has no whitespace and is no longer than the name |
| LuaCodegen.StripKeepsCleanText | App.js:172 | a name without whitespace is its own variable name |
| LuaCodegen.Round | App.js:176-177 | the rounded value is the integer n with n <= x + 1/2 < n + 1 |
| LuaCodegen.VarName | App.js:172 | an element's variable contains no whitespace |
| LuaCodegen.Block | App.js:173-178 | an element's block has exactly 7 lines (their contents are BlockLines) |
| LuaCodegen.EmitIsBlocksOfWalk | App.js:169-184 | the generated text is the concatenation of one block for each visit of a pre-order walk |
| LuaCodegen.WalkFollowsListing | App.js:169-184 | the walk visits the elements in the order of the pre-order listing, each with its owner |
| LuaCodegen.WalkOwnersOwn | App.js:179-181 | every visit's owner is either the walk's owner for a top-level element, or an element whose children hold the visited one |
| LuaCodegen.ProgramLength | App.js:167-186 | the script is the 3-line header followed by 7 lines per element |
| LuaCodegen.ProgramBlock | App.js:170-184 | the i-th block belongs to the i-th element in pre-order, and its third line parents it to `screenGui` at the root or to its owner's variable |
| LuaCodegen.BlockLines | App.js:173-178 | the block's lines in order: `local v = Instance.new(kind)`, then the Name, Parent, Position, Size and BackgroundColor3 assignments on `v`, then a blank line |
| LuaCodegen.BlockParentLine | App.js:175 | a block's third line is its `.Parent` assignment |
| LuaCodegen.DeclarationPerElement | App.js:168-173 | the script declares exactly 1 + (number of elements) variables with `Instance.new` |
| LuaCodegen.HeaderDeclaresOnce | App.js:168 | the header declares only `screenGui` |
| LuaCodegen.GenerateOne | App.js:170-181 | the code for one element appends its block and then, if it has children, their code |
| LuaCodegen.GenerateFor | App.js:169-183 | the loop over a sibling list appends exactly the text of their blocks in pre-order |
| LuaCodegen.GenerateLuaCode | App.js:167-186 | the generated code is the text of the header and one block per element |
| Editor.DragWrite | App.js:306-352 | a move event writes only with a gesture, a truthy selection that is in the scene and a snapshot; with all four present, what it writes (or that it writes nothing) is what `Step` computes from the snapshot |
| Editor.EditorState.constructor | App.js:2-7 | the empty editor state |
| SceneTree.FindPastPrefix | App.js:26-35 | the lookup of an id absent from a leading part of the forest gives what the lookup in the rest gives |
| SceneTree.FindAppended | App.js:26-35 | an element appended with an id new to the forest is what that id finds |
| Editor.AddedElementFound | App.js:198-207 | after an add, the selected id finds exactly the appended element |
| Editor.EditorState.AddElement | App.js:198-207 | the id is the incremented counter and new to the scene; a `<kind><id>`-named element with default properties is appended at the root and selected; ids stay distinct and issued by the counter |
| Editor.EditorState.DeleteElement | App.js:216-222 | an unknown id or a declined confirmation changes nothing; otherwise the subtree is removed, none of its ids can be found afterwards, and the selection is cleared only if it was that id |
| Editor.EditorState.Select | App.js:227-229 | clicking a node selects it and changes nothing else |
| Editor.EditorState.ExplorerDragStart | App.js:233-236 | dragging a node records its id |
| Editor.EditorState.Drop | App.js:245-260 | with a target node and a truthy dragged id, the forest becomes the drop of that id on the target; ids stay distinct; nothing else changes |
| Editor.EditorState.DropChecked | App.js:249-255 | the corrected drop: it re-parents only when the target is in the scene outside the dragged subtree, keeping the multiset of ids; otherwise nothing changes |
| Editor.EditorState.PropertyInput | App.js:262-272 | the forest becomes the selected element's properties with the input written at the key, or stays as it was when nothing is selected or found |
| Editor.EditorState.DragStart | App.js:282-304 | the start point is recorded; handles set the gesture (a resize handle also records a non-empty direction); an element body selects it for a move; the background clears the selection; a truthy selection is snapshotted |
| Editor.EditorState.DragMove | App.js:306-352 | nothing changes without a gesture and a selection; otherwise the forest becomes the write of `DragWrite`; the rest of the state is untouched and ids stay valid |
| Editor.EditorState.DragEnd | App.js:354-357 | the gesture and the snapshot are cleared |
| Editor.AppendKeepsValid | App.js:201-203 | appending an element with the next counter value keeps ids distinct and issued |
| Editor.RemoveKeepsValid | App.js:219 | the delete keeps ids distinct and issued, and makes the removed ids unfindable |
| Editor.ReparentKeepsValid | App.js:252-255 | the drop keeps ids distinct and issued |
| Editor.DefaultNamesDistinct | App.js:203 | default names of elements that differ in kind or id differ |
| Editor.DefaultNameIsVariable | App.js:203 | a default name has no whitespace, so it is its own variable in the generated code |
| Editor.EditChangesOnlySelected | App.js:262-272 | an input changes only the selected element's listing line, writing the input at the key |
| Editor.DragMoveApplies | App.js:309-346 | during a gesture, with the selection found and a snapshot, a move event puts `Step`'s result into the selected element whenever the step succeeds |
| Editor.DragMoveWrites | App.js:311-346 | a move event that writes puts `DragWrite`'s properties into the selected element |
| Editor.DragMoveLatestWins | App.js:306-352 | two move events in a row, other than a mobile resize, leave the scene as the second alone would |
| Editor.DragMoveKeepsIds | App.js:306-352 | a move event never adds, removes or reorders elements |
| ScaleModel.DefaultScaleProperties | app.js:27-38 | name given, except the forced names of UICorner and UIGradient; position Scale (0,0) Offset (50,50); size Scale (0,0), Offset by kind: TextButton (120,50), TextBox (250,40), the two modifiers (0,0), otherwise (200,100); anchor (0,0); rotation 0, or 90 for the gradient; colour #808080, or #FFFFFF for TextBox; transparency 0, ZIndex 1, visible; each kind's own extras, with a UICorner radius of Scale 0 Offset 8 and gradient stops at time 0 and then 1 |
| ScaleModel.DefaultGradientOrdered | app.js:35 | the default gradient's stops increase in time and span exactly 0 to 1 |
| ScaleModel.OnlyModifiersHaveNoSize | app.js:28-36 | a default size has a zero dimension exactly for UICorner and UIGradient |
| ScaleModel.ScaleEditor.constructor | app.js:3-16 | the empty state with the explorer tab shown |
| ScaleModel.ScaleEditor.AddElement | app.js:40-45 | the id is the incremented counter and exceeds every earlier root id; the element is appended at the root with no children and no parent id; it is selected and the properties tab is shown; root ids keep increasing |
| ScaleModel.WithAxis | app.js:55 | an axis write sets that axis and keeps the other one |
| ScaleModel.Write | app.js:55 | a three-level write sets exactly the number at its path; every other path and every other property stays as it was |
| ScaleModel.UpdateNumber | app.js:49-55 | nothing happens without a found element; otherwise the number is written at exactly the given path |
| ScaleModel.ReadsDetermine | app.js:28 | the eight numbers of position and size, with the other fields, determine the properties |
| ScaleModel.WriteRead | app.js:55 | writing back the number read at a path changes nothing |
| ScaleModel.WriteTwice | app.js:55 | a second write at the same path overrides the first |
| ScaleModel.WritesCommute | app.js:55 | writes at different paths commute |

## Left out

- Rendering and DOM work are not modelled: the preview, selection box, explorer and properties panel, modals and panel toggling. Expand and collapse (`expandedNodes`) is also left out, including the node expanded after a drop. These are view glue with no state the model reads.
- Host input and output are parameters or left out. The confirmation dialog becomes the `confirmed` parameter of `DeleteElement`. The clipboard, event registration, touch-versus-mouse coordinates and the window-resize listener are left out.
- DOM classification of pointer and click targets becomes the `Target` datatype and optional node ids. `parseInt` of dataset strings becomes integer ids.
- Floating point is not modelled: there is no NaN or Infinity, and `Number(value)` of a number input is a `parsed` parameter.
- Interaction.ResizeMultifunc: the diagonal growth is a `stretch` parameter (distance times aspect, distance) instead of the square root and the division of App.js:337-342. Only the branch choice and the floor of 20 are stated.
- The `JSON` deep copy of the snapshot is a value copy.
- A handler body that would throw leaves the state unchanged. Its `render()` call is not modelled.
- The forest is a value in the editor state. Writes are stated as replacing the found element, so the aliasing of JavaScript objects is not modelled. The source relies on it for the push into the target's children and for the property writes.
- LuaCodegen: the generated code is modelled as a sequence of lines, with text equal to the lines joined by newlines. The claim "the code contains 1 + n occurrences of `Instance.new`" is stated as 1 + n declaration lines of the form `local <var> = Instance.new(...)`. A substring count is false in general, because element names are user text.
- ScaleModel: app.js from line 56 on is cut off. Its lookup `findElementById` and the remaining branches of `updateProperty` are not part of this model. `UpdateNumber` therefore takes the lookup result as input and returns new properties instead of writing into the tree in place.
- ScaleModel.UpdateNumber: only the paths into Position and Size are modelled. Three-level paths into other records are not, because which paths the panel offers is in the part of the file that is cut off.
- ScaleModel.ScaleEditor: the other fields of the app.js state (view, drag flags, panel state, edited name) are not modelled, because no visible code in the modelled lines reads or writes them.

## Findings

| source | as written | input that shows it | evidently intended | confidence | as-written member | corrected member |
|---|---|---|---|---|---|---|
| App.js:252-254 | the drop detaches the dragged subtree first and then looks up the target, so a target inside that subtree is not found and the subtree is never re-attached | a Frame with id 1 owning a Frame with id 2; drag 1 onto 2: the forest becomes empty | reject a drop whose target lies in the dragged subtree (or is missing), so that no element is lost | not executed | SceneTree.ReparentIntoOwnSubtreeDropsIt | Editor.EditorState.DropChecked |
