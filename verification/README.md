# Find bar and custom accent: a Dafny model

This project models two parts of the Scratch GUI fork.

The first is the **find bar add-on** (`find-bar`): the search box over the code tab.
- It builds an index of every block, variable and list in the workspace. Each label is listed once, and later blocks with the same label are kept as clones.
- It sorts the index by category, label and vertical position.
- It filters the index as the user types, cutting the first match out in bold.
- A click on an entry resolves the blocks the entry stands for: variable uses, procedure calls, broadcast senders and receivers, or the entry's own occurrences.
- A carousel cycles through those blocks.
- Two colour helpers normalise a block's colour to `#rrggbb` and pick black or white text for it.

The second is the **custom accent theme** (`custom.js`):
- three user colours with an update and a read operation;
- a table of GUI colours derived from them, including darker, lighter and `rgb(...)` variants;
- the resolution of that table into a plain key-to-colour map.

Modules, one per file:

| file | module | what |
|---|---|---|
| wrappers.dfy | Wrappers | `Option`, with JavaScript's null/NaN as `None` |
| js_strings.dfy | JsStrings | `toLowerCase` (ASCII), `indexOf`, `trim`, `substr`, `<` on strings |
| js_numbers.dfy | JsNumbers | `parseInt`, `toString(16)`, `padStart`, 32-bit `<<`, `%` |
| host.dfy | Host | the Blockly blocks, variable rows and VM targets the add-on reads |
| categories.dfy | Categories | `getBlockCategory` and the `clsOrder` rank table |
| block_item.dfy | BlockItems | `BlockItem` and `matchesID` |
| display_text.dfy | DisplayText | `getBlockDisplayText` |
| dedup.dfy | Deduplication | the `addBlock` fold, with a reference definition of each label's item |
| item_sort.dfy | ItemSort | the comparator and a stable sort by it |
| block_index.dfy | BlockIndex | `getAllScratchBlocks`: skip rules, variable and list rows, dedup, sort |
| find_filter.dfy | FindFilter | `showDropDown` and `inputChange` |
| carousel.dfy | Carousels | `Carousel.build`, `navSideways` and `remove` |
| cross_refs.dfy | CrossRefs | `getVariableUsesById`, `getCallsToProcedureById`, `getCallsToEventsByName` |
| dropdown.dfy | Dropdowns | `onItemClick` |
| block_colour.dfy | BlockColour | `normalizeColour` and `getTextColor` |
| custom_accent.dfy | CustomAccent | `custom.js` |

How the host is represented:
- The workspace is a value. Clicks and keystrokes are function calls that return the new state.
- Scrolling a block into view is returned as the focused block id.
- The localisation lookup `msg` and the floating-point `hsl` conversion are parameters.

## Model

| member | source | states |
|---|---|---|
| BlockItems.NewItem | src/addons/addons/find-bar/blockly/BlockItem.js:2-15 | a new item keeps the category, label, id, y and colour it is given; its search key is the label lowered; its clones and event name start null |
| BlockItems.MatchesID | src/addons/addons/find-bar/blockly/BlockItem.js:22-34 | true exactly when the id is the item's label id or one of its clones, which is exactly when the item stands for that occurrence |
| BlockItems.FreshItemRepresentsOnlyLabel | src/addons/addons/find-bar/blockly/BlockItem.js:2-34 | a freshly built item matches its own label id and no other id |
| Categories.BlockCategory | src/addons/addons/find-bar/userscript.js:469-488 | "define", "flag" and "receive" are given exactly to their one block type each; no block is ever put in a variable or list category |
| Categories.EventCategory | src/addons/addons/find-bar/userscript.js:473-476 | "event" means an `event_when…` hat other than the flag and receive hats, or the clone hat |
| Categories.FirstPrefixCategories | src/addons/addons/find-bar/userscript.js:476-480 | motion, looks and sound are exactly their prefixes; control is its prefix minus the clone hat |
| Categories.LaterPrefixCategories | src/addons/addons/find-bar/userscript.js:481-483 | sensing, operator and data are exactly their prefixes |
| Categories.ExtensionAndOtherCategories | src/addons/addons/find-bar/userscript.js:470-487 | "extension" means one of the five extension prefixes; "other" means no known prefix and not the definition hat, and covers a missing type |
| Categories.Rank | src/addons/addons/find-bar/userscript.js:543-549 | every category ranks between 0 and 16 |
| Categories.RankIsClsOrder | src/addons/addons/find-bar/userscript.js:543-549 | a category's rank is the `clsOrder` value stored under its `cls` string |
| Categories.OfRank | src/addons/addons/find-bar/userscript.js:543-549 | every rank from 0 to 16 belongs to a category |
| Categories.RankInverse | src/addons/addons/find-bar/userscript.js:543-549 | a category is recovered from its rank |
| Categories.RankInjective | src/addons/addons/find-bar/userscript.js:543-549 | two different categories never share a rank, so the first key of the sort orders categories totally |
| DisplayText.StripPlaceholders | src/addons/addons/find-bar/userscript.js:447 | deleting `%s`, `%b`, `%n` and `%d` removes characters only in pairs |
| DisplayText.StripKeepsOtherCharacters | src/addons/addons/find-bar/userscript.js:447 | a proc code without `%` is unchanged; every character other than `%`, s, b, n and d keeps its count |
| DisplayText.StripConcat | src/addons/addons/find-bar/userscript.js:447 | placeholders are stripped piece by piece when the second piece cannot complete a `%` left at the end of the first |
| DisplayText.PlaceholderKindIrrelevant | src/addons/addons/find-bar/userscript.js:447 | which placeholder fills a slot does not change the label, and the slot simply disappears |
| DisplayText.StripCanExposePlaceholder | src/addons/addons/find-bar/userscript.js:447 | the single left-to-right pass can leave a placeholder behind: "%%ss" becomes "%s" |
| DisplayText.ToStringLabel | src/addons/addons/find-bar/userscript.js:451-458 | with a `[` after the first character, the label is the trimmed text before the first `[`; otherwise it is the whole text |
| DisplayText.BlockDisplayText | src/addons/addons/find-bar/userscript.js:412-462 | variable blocks with a known first variable get "变量 " and the variable's name; a variable block whose first variable is unknown falls through and is labelled like any other block; if, if-else, repeat and forever get fixed labels; other blocks get the trimmed proc code with placeholders stripped, or the `toString` label |
| DisplayText.SameLabelUpToPlaceholder | src/addons/addons/find-bar/userscript.js:443-448 | two ordinary blocks whose proc codes differ only in one placeholder's kind get the same label, so the index merges them |
| Deduplication.ItemFor | src/addons/addons/find-bar/userscript.js:387-410 | the reference item of a label: the first entry's data, the label lowered as key, and the ids of all entries with that label, in order, as its occurrences |
| Deduplication.FindText | src/addons/addons/find-bar/userscript.js:390 | the lookup finds the item holding the label, or reports -1 exactly when no item holds it |
| Deduplication.AddClone | src/addons/addons/find-bar/userscript.js:391-396 | pushing a clone adds the id at the end of the occurrences and changes nothing else |
| Deduplication.AddBlock | src/addons/addons/find-bar/userscript.js:387-410 | a known label adds the block's id to the end of that item's occurrences and leaves the item otherwise, and every other item, unchanged; a new label appends a freshly built item |
| Deduplication.Dedup | src/addons/addons/find-bar/userscript.js:387-410 | after feeding any stream: one item per label and no other, each equal to its label's reference item, in order of first occurrence |
| Deduplication.DedupKeepsEveryOccurrence | src/addons/addons/find-bar/userscript.js:387-410 | every entry fed in is represented by the item that carries its label |
| Deduplication.AddBlockAsWritten | src/addons/addons/find-bar/userscript.js:390-397 | with the plain-object lookup, a label that names an inherited `Object.prototype` member leaves the index unchanged |
| Deduplication.AsWrittenAgrees | src/addons/addons/find-bar/userscript.js:387-410 | without such labels, the lookup as written and the own-key lookup build the same index |
| Deduplication.InheritedLabelLost | src/addons/addons/find-bar/userscript.js:390-404 | a custom block labelled "toString" never reaches the index as written, though the own-key index lists it |
| ItemSort.CompareIsKeyOrder | src/addons/addons/find-bar/userscript.js:551-563 | the comparator's sign is the order on (rank, lowered label, y); it is zero exactly on equal keys and antisymmetric |
| ItemSort.KeyLessTransitive | src/addons/addons/find-bar/userscript.js:551-563 | the comparator's order is transitive |
| ItemSort.KeyLessTotal | src/addons/addons/find-bar/userscript.js:551-563 | any two different keys are ordered |
| ItemSort.Insert | src/addons/addons/find-bar/userscript.js:551-563 | insertion adds exactly the new item to the multiset |
| ItemSort.InsertSorted | src/addons/addons/find-bar/userscript.js:551-563 | inserting into a sorted sequence keeps it sorted |
| ItemSort.Sort | src/addons/addons/find-bar/userscript.js:551-565 | the result is sorted by the comparator, a permutation of the input, and keeps the input order among items the comparator calls equal |
| BlockIndex.BlockEntries | src/addons/addons/find-bar/userscript.js:490-513 | the loop feeds exactly the blocks it does not skip (no type, id "@", an all-digit or all-"?" label), each with its category and label |
| BlockIndex.BlockEntriesConcat | src/addons/addons/find-bar/userscript.js:490-513 | the entries of two block lists are the entries of the first followed by those of the second, so the loop keeps the blocks' order |
| BlockIndex.BlockEntriesOne | src/addons/addons/find-bar/userscript.js:490-513 | one block gives one entry, or none when it is skipped |
| BlockIndex.RowEntries | src/addons/addons/find-bar/userscript.js:518-534 | one entry per variable or list row, in order |
| BlockIndex.RowEntry | src/addons/addons/find-bar/userscript.js:519-533 | a row gets "var"/"VAR"/"list"/"LIST" by kind and locality, its own id, no y or colour, and the label the localised message for its kind and locality gives its name |
| BlockIndex.AllScratchBlocks | src/addons/addons/find-bar/userscript.js:375-566 | the index is a stable sort of the deduplicated entries |
| BlockIndex.IndexIsDeduplicated | src/addons/addons/find-bar/userscript.js:375-566 | the index lists every label once, and each item is its label's reference item with no event name |
| BlockIndex.IndexCoversEveryKeptBlock | src/addons/addons/find-bar/userscript.js:490-566 | every block the loop keeps is found under its label, by its own id |
| BlockIndex.IndexCoversEveryRow | src/addons/addons/find-bar/userscript.js:515-566 | every variable and list row is found under its message label, by its own id |
| FindFilter.MatchingRows | src/addons/addons/find-bar/userscript.js:201-206 | the rows standing for the focus id, exactly those, in increasing order |
| FindFilter.ShowDropDown | src/addons/addons/find-bar/userscript.js:185-216 | an open dropdown without a focus id is left alone; otherwise the rows are the index in order (none off the code tab), the selection is cleared and the carousel leaves its old row, a row is shown when there is no focus id or it stands for it, and the clicked rows are exactly the matching ones |
| FindFilter.FocusRequestFocusesBlock | src/addons/addons/find-bar/userscript.js:185-212 | with the corrected click, a focus request that passes the block (`showDropDown(id, block)`: the variable and broadcast shift-clicks) and clicks a row standing for it focuses that block, whatever the dropdown held before, so repeating the request focuses the same block again |
| FindFilter.FocusRequestAsWrittenFocusesBlock | src/addons/addons/find-bar/userscript.js:185-212 | as written, the same holds for a request that passes the block and clicks a row that is not a variable, definition, sound or receive entry |
| FindFilter.BlocklessRequestFocusesFirst | src/addons/addons/find-bar/userscript.js:1059-1064 | a request that passes no block (the custom-block shift-click, `showDropDown(id)`) focuses the entry's first occurrence in both clicks, so a later call of a custom block scrolls to the first call rather than to itself |
| FindFilter.ReceiveRequestAsWrittenFocusesNothing | src/addons/addons/find-bar/userscript.js:1083-1093 | as written, a request from a "when I receive" hat clicks a receive entry without a message name and focuses nothing |
| FindFilter.FocusRequestFocusesMessageUse | src/addons/addons/find-bar/userscript.js:185-212 | with the corrected click, the same for an entry carrying a message name, when the block is among the message's uses: the click starts the carousel at that block. The built index never holds such an entry (`BlockIndex.IndexIsDeduplicated`), so this is the behaviour the commented-out message-name assignment intended |
| FindFilter.FilterRow | src/addons/addons/find-bar/userscript.js:88-117 | a row is shown exactly when its key contains the query; a hidden row keeps its content; the empty query shows the plain label |
| FindFilter.InputChange | src/addons/addons/find-bar/userscript.js:73-118 | the dropdown is open and remembers the lowered query; the same query changes nothing, and a new one refilters every row and takes the carousel out of its row when that row is displayed again |
| FindFilter.Rerendered | src/addons/addons/find-bar/userscript.js:94-112 | a carousel in a displayed row leaves it when the row's children are replaced; one in a hidden row stays |
| FindFilter.InputChangeIdempotent | src/addons/addons/find-bar/userscript.js:77-81 | typing the same query again changes nothing |
| FindFilter.InputChangeShowsMatches | src/addons/addons/find-bar/userscript.js:84-117 | after a new query, a row is shown exactly when its key contains the lowered query |
| FindFilter.OpenAndType | src/addons/addons/find-bar/userscript.js:73-118 | typing into a closed bar lists the whole index in order, filtered by the query |
| FindFilter.EmptyQueryShowsAll | src/addons/addons/find-bar/userscript.js:90-112 | the empty query shows every row with its plain label |
| FindFilter.CutReassembles | src/addons/addons/find-bar/userscript.js:100-108 | the three pieces of a highlighted row put back together give the label |
| FindFilter.HighlightReassembles | src/addons/addons/find-bar/userscript.js:90-108 | a highlighted row reassembles the label, its bold piece lowers to the query, and it sits at the first match |
| Carousels.NavSideways | src/addons/addons/find-bar/userscript.js:1030-1041 | with blocks, the cursor moves one place with wrap-around and the block under it is focused; without blocks nothing happens |
| Carousels.Remove | src/addons/addons/find-bar/userscript.js:1043-1049 | a created carousel is detached and emptied; one never created is untouched |
| Carousels.Orphan | src/addons/addons/find-bar/userscript.js:939-947 | when its row is removed the carousel keeps its blocks and cursor but is no longer in any row, so the next click on a row builds afresh |
| Carousels.FirstPosition | src/addons/addons/find-bar/userscript.js:970-977 | the first position of the instance block, or 0 when it is absent |
| Carousels.Build | src/addons/addons/find-bar/userscript.js:960-984 | a second click on the same row steps right; otherwise the carousel moves to the row with the new blocks, the cursor on the first copy of the instance block or at 0, and focuses that block |
| Carousels.RightSteps | src/addons/addons/find-bar/userscript.js:1030-1035 | k right steps advance the cursor by k, wrapping once |
| Carousels.FullCircle | src/addons/addons/find-bar/userscript.js:1030-1035 | one right step per block brings the carousel back to where it started |
| Carousels.LeftUndoesRight | src/addons/addons/find-bar/userscript.js:1022-1035 | a step left undoes a step right |
| CrossRefs.Count | src/addons/addons/find-bar/userscript.js:864-868 | how many references a block has to the id, positive exactly when it has one |
| CrossRefs.VariableUses | src/addons/addons/find-bar/userscript.js:853-874 | the uses are exactly the blocks that reference the variable |
| CrossRefs.VariableUsesConcat | src/addons/addons/find-bar/userscript.js:857-871 | the uses across top blocks are the uses in each, one after the other |
| CrossRefs.VariableUsesCount | src/addons/addons/find-bar/userscript.js:862-869 | a block is listed once per reference it makes to the variable |
| CrossRefs.CallsOf | src/addons/addons/find-bar/userscript.js:883-893 | the calls are exactly the `procedures_call` blocks with the proc code |
| CrossRefs.CallsOfConcat | src/addons/addons/find-bar/userscript.js:883-893 | the calls in two block lists are those of the first followed by those of the second, in workspace order |
| CrossRefs.CallsOfOne | src/addons/addons/find-bar/userscript.js:883-893 | one block gives its id once when it calls the proc code and nothing otherwise |
| CrossRefs.ProcedureCalls | src/addons/addons/find-bar/userscript.js:876-896 | it fails exactly when the definition or its prototype is missing; otherwise the definition comes first, then the calls to its proc code in workspace order |
| CrossRefs.Lookup | src/addons/addons/find-bar/userscript.js:920 | a found block is in the table with that id; none is found exactly when no block has it |
| CrossRefs.MentionsIn | src/addons/addons/find-bar/userscript.js:914-933 | one sprite's instances are exactly its receivers and broadcasts of the message |
| CrossRefs.MentionsInConcat | src/addons/addons/find-bar/userscript.js:914-933 | a sprite's instances in two block lists are those of the first followed by those of the second, in block-table order |
| CrossRefs.MentionsInOne | src/addons/addons/find-bar/userscript.js:914-933 | one block gives one instance when it mentions the message and none otherwise |
| CrossRefs.EventsByName | src/addons/addons/find-bar/userscript.js:898-935 | the instances are exactly the receivers and broadcasts of the message on original targets that have a block table |
| CrossRefs.NullNameFindsNothing | src/addons/addons/find-bar/userscript.js:916-928 | a null message name matches nothing |
| CrossRefs.EventsByNameConcat | src/addons/addons/find-bar/userscript.js:904-934 | the resolver works target by target |
| CrossRefs.EventsByNameOne | src/addons/addons/find-bar/userscript.js:904-934 | one target gives its own instances when it is searched and none otherwise |
| Dropdowns.BlockIds | src/addons/addons/find-bar/userscript.js:840 | the ids of the event instances, in order |
| Dropdowns.FirstOnTarget | src/addons/addons/find-bar/userscript.js:830-839 | the first instance, in resolver order, on the edited sprite, or none exactly when no instance is on it |
| Dropdowns.ToCarousel | src/addons/addons/find-bar/userscript.js:824-846 | handing blocks to the carousel keeps the selection and a valid cursor |
| Dropdowns.OnItemClickAsWritten | src/addons/addons/find-bar/userscript.js:793-851 | the clicked row is selected; a "sound" entry does nothing else, because the asset panel it looks for is mounted only on the costume and sound tabs |
| Dropdowns.GoToOccurrences | src/addons/addons/find-bar/userscript.js:841-850 | an entry with clones cycles through its occurrences; one without scrolls to its block and drops the carousel |
| Dropdowns.OnItemClick | src/addons/addons/find-bar/userscript.js:793-851 | the corrected click: sound blocks and unnamed receive entries go to their occurrences, and everything else behaves as written |
| Dropdowns.ClickFocusesOccurrence | src/addons/addons/find-bar/userscript.js:841-850 | with the corrected click, clicking an entry that is not a variable, a definition or a named receive focuses a block the entry stands for |
| Dropdowns.ClickAsWrittenFocusesOccurrence | src/addons/addons/find-bar/userscript.js:841-850 | as written, the same for entries that are also neither sound nor receive entries |
| Dropdowns.VariableClickFocusesUse | src/addons/addons/find-bar/userscript.js:821-824 | clicking a variable entry focuses, if anything, a block that uses the variable |
| Dropdowns.SoundEntryAsWritten | src/addons/addons/find-bar/userscript.js:804-820 | as written, a sound block's entry only selects its row and never reaches the block, which the corrected click focuses |
| Dropdowns.ReceiveEntryAsWritten | src/addons/addons/find-bar/userscript.js:828-840 | as written, a receive entry, whose event name is always null, resolves to no block |
| BlockColour.DigitRuns | src/addons/addons/find-bar/userscript.js:284 | every run `/\d+/g` finds is a non-empty string of decimal digits |
| BlockColour.NormalizeColour | src/addons/addons/find-bar/userscript.js:267-349 | falsy values give null; a number gives its hex form; a '#' string is kept; any other result starts with '#' unless it came from `hsl(` |
| BlockColour.NormalizeText | src/addons/addons/find-bar/userscript.js:276-346 | a '#' string is kept; any other result is '#'-prefixed unless it came from `hsl(` |
| BlockColour.FromRgb | src/addons/addons/find-bar/userscript.js:286-289 | the packed rgb value is written with a leading '#' |
| BlockColour.PackRgbDigits | src/addons/addons/find-bar/userscript.js:289 | for bytes, the packed value's hex digits are "1" followed by two digits per component |
| BlockColour.NormalizeRgb | src/addons/addons/find-bar/userscript.js:283-290 | `rgb(r, g, b)` with components in 0..255 becomes "#rrggbb" |
| BlockColour.NormalizeNumberRoundTrip | src/addons/addons/find-bar/userscript.js:271-273 | a colour number in (0, 2^24) becomes '#' and six hex digits that parse back to the number |
| BlockColour.NamedColour | src/addons/addons/find-bar/userscript.js:327-339 | a colour name is recognised in any letter case |
| BlockColour.TextColor | src/addons/addons/find-bar/userscript.js:771-791 | the text is black or white, and black on anything not '#'-prefixed |
| BlockColour.ChannelColor | src/addons/addons/find-bar/userscript.js:784-786 | black exactly when all three channels parse and the luma is above 128 |
| BlockColour.TextColorOfHex | src/addons/addons/find-bar/userscript.js:775-786 | on "#rrggbb" the text is black exactly when the colour is bright |
| BlockColour.RgbBlockTextColor | src/addons/addons/find-bar/userscript.js:283-290 | a block coloured `rgb(r, g, b)` gets a colour, and black text on it exactly when the colour is bright |
| CustomAccent.Update | src/lib/themes/accent/custom.js:108-114 | a field given non-empty replaces the stored one; the others keep their values; an empty tertiary falls back to "#cc3333"; the tertiary is never empty afterwards |
| CustomAccent.Get | src/lib/themes/accent/custom.js:120-124 | the colours read are never empty, and a stored non-empty colour is returned as is |
| CustomAccent.UpdateKeepsComplete | src/lib/themes/accent/custom.js:108-114 | updates keep every colour non-empty |
| CustomAccent.ReachableIsComplete | src/lib/themes/accent/custom.js:4-8 | after any sequence of updates from the start, no colour is empty and reading returns the stored colours |
| CustomAccent.UpdateIdempotent | src/lib/themes/accent/custom.js:108-114 | applying the same update twice is applying it once |
| CustomAccent.GetIdempotent | src/lib/themes/accent/custom.js:120-124 | reading twice is reading once, and never yields an empty colour |
| CustomAccent.Darken | src/lib/themes/accent/custom.js:18-28 | scaling by 0.7 and rounding down never increases a non-negative component, and strictly decreases a positive one |
| CustomAccent.Lighten | src/lib/themes/accent/custom.js:44-54 | scaling by 1.3, rounding down and capping at 255 never exceeds 255 and never decreases a byte |
| CustomAccent.ResolveColor | src/lib/themes/accent/custom.js:131-136 | a function is called, and any other value is returned unchanged |
| CustomAccent.ResolveTable | src/lib/themes/accent/custom.js:142-148 | the map holds exactly the table's keys, each bound to its function's value; a repeated key keeps its last value |
| CustomAccent.ResolvedGuiColors | src/lib/themes/accent/custom.js:142-148 | every GUI colour key is bound to its function's value for the current colours, and no other key is present |
| CustomAccent.ResolvedBlockColors | src/lib/themes/accent/custom.js:154-170 | the block table resolves to the primary and tertiary colours under their two keys |
| CustomAccent.GuiColorsDistinct | src/lib/themes/accent/custom.js:10-96 | the GUI table's 31 keys are pairwise different |
| CustomAccent.TransparentVariants | src/lib/themes/accent/custom.js:10-96 | every transparent variant is its user colour followed by a two-hex-digit alpha |
| CustomAccent.ComponentsOfHex | src/lib/themes/accent/custom.js:20-23 | a "#rrggbb" colour splits into exactly its three components |
| CustomAccent.ExtensionsPrimaryExact | src/lib/themes/accent/custom.js:30-37 | for a well-formed primary, `extensions-primary` is `rgb(r, g, b)` with its exact components, and normalising that gives the primary back |
| CustomAccent.DarkerIsDarker | src/lib/themes/accent/custom.js:18-28 | for a well-formed secondary, `looks-secondary-dark` darkens every component |
| CustomAccent.LighterIsLighter | src/lib/themes/accent/custom.js:44-66 | for a well-formed primary, `extensions-light` and `drop-highlight` lighten every component without passing 255 |
| CustomAccent.InitialPrimaryIsHex | src/lib/themes/accent/custom.js:4-8 | the initial colours are well-formed "#rrggbb" colours |
| JsStrings.Lower | src/addons/addons/find-bar/blockly/BlockItem.js:7 | lowering keeps the length and lowers each character |
| JsStrings.LowerIdempotent | src/addons/addons/find-bar/userscript.js:77 | lowering twice is lowering once |
| JsStrings.IndexOf | src/addons/addons/find-bar/userscript.js:90 | the first position where the query occurs, or -1 exactly when it does not occur |
| JsStrings.Trim | src/addons/addons/find-bar/userscript.js:447 | the result is a slice of the input with only whitespace cut on both sides, and it does not start or end with whitespace |
| JsNumbers.ParseHex2 | src/addons/addons/find-bar/userscript.js:776-778 | two hex digits parse back to their byte |
| JsNumbers.DigitsValue | src/addons/addons/find-bar/userscript.js:272 | the digits of a number read back as the number |
| JsNumbers.ShiftLeft | src/addons/addons/find-bar/userscript.js:289 | `<<` yields a 32-bit value, and is a plain multiplication when that fits |
| JsNumbers.JsRem | src/addons/addons/find-bar/userscript.js:1032 | `%` takes the sign of the dividend and stays below the divisor in size |

## Left out

- Rendering and event plumbing are not modelled: DOM nodes, CSS, `scrollIntoView`, mouse handlers, `navigateFilter` and the keyboard handling. These are host effects. The model returns the focused block id, the shown flag and the label pieces instead.
- Costume and sound lists (`getScratchCostumes`, `getScratchSounds`) and the asset-panel branch's internals are not modelled. They belong to the other editor tabs: off the code tab the model's dropdown is empty. On the code tab the asset panel is not mounted, so the branch is the `Idle` effect.
- `BlockIndex.AllScratchBlocks`: uses the corrected `Deduplication.Dedup`. The source drops a block whose label names an inherited `Object.prototype` member; `Deduplication.DedupAsWritten` models that.
- `ItemSort.KeyOf`: a block's y is `getRelativeToSurfaceXY().y`, a floating-point number; the model takes it as an integer, so the comparator's `a.y - b.y` is exact and fractional positions are not modelled.
- `getCallsToEvents` is not modelled. Its only use in the index is commented out at userscript.js:536-540.
- `extractBlockColour` and `getColourFromStyle` are not modelled. They probe Blockly internals and the DOM. A block's colour is given in the `Host.Block` record.
- `BlockColour.NormalizeColour`: the `hsl(` branch converts with floating point. It is the parameter `hslToHex`, which receives the three numbers parsed as the code parses them.
- `BlockColour.NormalizeColour`: the colour-name lookup uses own keys only. In the source, a name that matches an inherited `Object.prototype` member such as "constructor" would return that member.
- `BlockColour.NormalizeColour`: `parseInt` is exact. Precision loss beyond 2^53 and `toString(16)` on fractions are not modelled.
- `CustomAccent.Darken`: multiplies by exactly 7/10 before rounding down, where the source multiplies by the double 0.7. The two differ on the bytes 90, 170 and 180, where the source gives 62, 118 and 125 and the model 63, 119 and 126; so "#5a5a5a" darkens to "rgb(62, 62, 62)" in the source and "rgb(63, 63, 63)" here. The stated bounds hold for both.
- `CustomAccent.Lighten`: multiplies by exactly 13/10 before rounding down, where the source multiplies by the double 1.3.
- `JsStrings.Lower` changes only ASCII letters. `toLowerCase` also lowers non-ASCII letters, and Unicode case mapping is out of scope.
- `JsStrings.LexLess` compares characters as code points. JavaScript compares UTF-16 code units; the two orders agree on the Basic Multilingual Plane.
- Exceptions and `try`/`catch` fallbacks are not modelled (for example, `getBlockDisplayText` returning the type after an error), except where a throw decides the outcome: `CrossRefs.ProcedureCalls` returns None and `Dropdowns.Effect.Throws` is the result. The host calls are total here.
- The `toString` fallback's final `return block.type` is unreachable in the source, because every object has a `toString`. It is not modelled.
- `Dropdowns.OnItemClick` identifies blocks by id. The source compares `block.id` between instance and Blockly objects. `BlockInstance.js` is not part of this model.
- The carousel's "i / n" count text is not modelled. It is display only, and the cursor index is modelled.
- `CustomAccent.ResolvedBlockColors` covers only the function branch of `getResolvedBlockColors`. The object and plain-value branches are not reachable with the table as defined. `ResolveColor` covers plain values.
- The host lookups are parameters: `workspace.getVariableById` is the `names` map, and the `msg` localisation is a function argument.
- `Carousels.NavSideways` is stated for a valid cursor, meaning within the blocks. Every operation keeps the cursor valid, and `Carousels.Initial` is valid.

## Findings

| source | as written | input that shows it | evidently intended | confidence | as-written member | corrected member |
|---|---|---|---|---|---|---|
| src/addons/addons/find-bar/userscript.js:390-404 | `myBlocksByProcCode` is a plain object, so `myBlocksByProcCode[txt]` is truthy for inherited names such as "toString". The block is then pushed as a clone of a built-in function and never listed. | a custom block whose label is "toString" | every label, including inherited property names, gets its own index entry | not executed | Deduplication.InheritedLabelLost | Deduplication.Dedup |
| src/addons/addons/find-bar/userscript.js:804-820 | `getBlockCategory` gives `sound_` blocks the `cls` "sound". `onItemClick` treats "sound" as a sound asset and looks for the asset panel, which is not mounted on the code tab, so the click only selects the row. | clicking the entry of a "play sound" block on the code tab | a code-tab sound block is focused like any other block | not executed | Dropdowns.SoundEntryAsWritten | Dropdowns.OnItemClick |
| src/addons/addons/find-bar/userscript.js:828-840 | receive entries come only from the block loop, and their `eventName` is always null. `getCallsToEventsByName(null)` finds nothing, so the carousel is built empty and nothing is focused. | clicking the entry of a "when I receive" hat | the receive hat and its occurrences are focused | not executed | Dropdowns.ReceiveEntryAsWritten | Dropdowns.OnItemClick |
