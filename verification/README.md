# BC3 to tree conversion, modelled in Dafny

This project models the conversion that the BC3 parser (FIEBDC-3 budget
files) carries out in `bc3_to_json`. The model starts from the decoded text
of the file and follows each stage:

1. **Record scan** (`load_records`). `\r\n` becomes `\n`. The text is then
   cut into records, each running from a `~` to the next `|` + newline pair,
   or to the last `|` of the text when no such pair follows.
2. **Four decoders**:
   - concepts `~C`: code, unit, summary and price;
   - long texts `~T`;
   - decompositions `~D`: parent code to its child codes and factors;
   - measurements `~M`: code to the sum of its measured totals.
3. **Root detection** (`detect_root_code`): a decomposition parent that is
   nobody's child.
4. **Tree construction** (`build_node`, `determine_naturaleza`). One visited
   set is shared by the whole construction. The quantity rule, the nature
   codes 0 to 3, and amount = quantity × price are applied here.
5. **Pruning** (`_prune_node`, `prune_tree`). Branches with no non-zero
   quantity anywhere are removed.
6. **Renumbering** (`_renumber_children`, `renumber_tree`). Position codes
   are assigned afresh: `"0"` for the root, `"01"`, `"02"`, … under it, and
   `parent.NN` deeper down.

## How it is modelled

The model is functional. Nodes are an immutable `Node` datatype. The
decoders are pure functions folding the records into maps.

`BuildNode` and `BuildChildren` are mutually recursive. They pass the visited
set in and out, exactly as the shared Python `set` is mutated across
siblings. They terminate because the codes not yet visited shrink. Python's
`float(text)` is a parameter `num: string -> Option<real>`, where `None`
means `ValueError`. Numbers are `real`.

The modules follow the pipeline:

| module | file | what it holds |
|---|---|---|
| `Wrappers` | wrappers.dfy | `Option`, `Result` |
| `Text` | text.dfy | `startswith`, `split`, limited `split`, `join`, `strip`, `lstrip`, `find`, `rfind` |
| `Decimal` | decimal.dfy | `f"{n:02d}"` |
| `Records` | records.dfy | the record scan |
| `Decoders` | decoders.dfy | the four decoders |
| `Tree` | tree.dfy | `Node`, `determine_naturaleza`, the shape of a built tree |
| `Builder` | builder.dfy | `build_node`, `detect_root_code` |
| `Prune` | prune.dfy | pruning |
| `Renumber` | renumber.dfy | renumbering |
| `Pipeline` | pipeline.dfy | `bc3_to_json` |

Where the docstrings and the code disagree, the model follows the code:

- **Visited codes.** The cycle guard is one visited set for the whole
  traversal, never shrunk. A code reached a second time through any branch,
  not only through a cycle, is dropped where it is reached again.
- **Prune test.** The docstring speaks of quantity `> 0`. The code tests
  `!= 0.0`, so branches whose only quantities are negative survive.
- **What pruning can remove.** Nodes at depth 1, and deeper nodes with a
  decomposition entry, always get quantity 1. So pruning only ever removes
  line items at depth 2 or more whose quantity is 0 (`Prune.ShapedSignal`).
  It never removes a chapter (`Prune.PruneTreeKeepsFirstLevel`), even one
  whose children all lack measurements.

## Model

| member | source | states |
|---|---|---|
| Records.NormalizeNewlines | src/main/python/parser.py:17 | only carriage returns are removed; a text with no `\r\n` is unchanged; the text never grows |
| Records.NormalizeDropsPairedCr | src/main/python/parser.py:17 | normalisation deletes exactly each carriage return that a newline follows and keeps every other character, in order |
| Text.FindChar | src/main/python/parser.py:24 | the first index at or after the start holding the character, or -1 when none does |
| Records.FindTerminator | src/main/python/parser.py:28 | the first bar-newline pair at or after the start, or -1 when there is none |
| Text.RFindChar | src/main/python/parser.py:31 | the last index holding the character, or -1 |
| Records.NextRecord | src/main/python/parser.py:24-34 | one loop step: the record found is the first marker and its terminator, or the last bar when no terminator follows and that bar lies after the marker; otherwise scanning stops |
| Records.ScanRecords | src/main/python/parser.py:19-40 | each record is the text slice between its marker and its terminating bar, which is excluded; every record starts with `~`; records come in strictly increasing, non-overlapping order; each is what the scan finds where the previous one ends; after the last one the scan finds nothing |
| Records.LoadRecords | src/main/python/parser.py:17-40 | the same facts about the text after newline normalisation |
| Records.ScanUnique | src/main/python/parser.py:23-38 | the scan of a text is unique: two span lists that each follow it step by step and stop where it stops are the same list |
| Text.Split | src/main/python/parser.py:54 | at least one part, and no part contains the separator |
| Text.JoinSplit | src/main/python/parser.py:96 | joining the parts of a split with the separator gives back the text |
| Text.SplitJoin | src/main/python/parser.py:96 | splitting a join of separator-free parts gives back the parts |
| Text.SplitMaxIsCapped | src/main/python/parser.py:114 | a split limited to `max` cuts keeps the first `max` parts of the full split, then the rest re-joined verbatim |
| Text.SplitLast | src/main/python/parser.py:173 | the last part of a split is the text after the last separator, and there is more than one part exactly when a separator occurs |
| Text.LStrip | src/main/python/parser.py:133 | the result is a suffix of the text; everything dropped is a dropped character; the first remaining character is not one |
| Text.Strip | src/main/python/parser.py:128 | the result is a slice of the text with only white space before and after it, and it neither starts nor ends with white space |
| Decoders.TagFields | src/main/python/parser.py:54-58 | in a record made of a tag, a bar and the rest, field 1 runs to the next bar, and fields 2 onward re-join to exactly the text after it |
| Decoders.LastWins | src/main/python/parser.py:69 | a key is stored exactly when some record decodes to it |
| Decoders.LastWinsIsLast | src/main/python/parser.py:97 | the stored value comes from the last record carrying that key; no later record carries it |
| Decoders.ConceptEntry | src/main/python/parser.py:50-67 | only records starting `~C` and a bar decode; the code is field 1 and contains no bar; the unit is absent exactly when field 2 is missing or empty; a missing summary is empty; a missing, empty or unparseable price is 0.0, and otherwise it is the parsed field 6 |
| Decoders.ParseConcepts | src/main/python/parser.py:43-76 | a code is present exactly when some `~C` record decodes to it; each concept carries its own code |
| Decoders.TextFields | src/main/python/parser.py:90-96 | a record starting `~T` and a bar has a body exactly when a second bar follows the tag; the body is all the text after that bar |
| Decoders.TextEntry | src/main/python/parser.py:86-97 | only records starting `~T` and a bar with a body decode; the long text is the whole body after the tag, the code and a bar, including any further bars, stripped |
| Decoders.ParseTexts | src/main/python/parser.py:79-99 | a code is present exactly when some `~T` record decodes to it; no code contains a bar |
| Decoders.ChildLine | src/main/python/parser.py:127-149 | a line gives no child exactly when nothing is left after stripping and dropping leading `\` and bar characters; otherwise the child code is the non-empty text up to the next `\`, with no `\` and no leading `\` or bar; the factor is the parsed second segment, or 0.0 when it is missing, empty or unparseable |
| Decoders.Keep | src/main/python/parser.py:125-149 | every kept value comes from some line, and nothing is kept exactly when no line yields a value |
| Decoders.KeepConcat | src/main/python/parser.py:127-149 | keeping distributes over concatenation, so children stay in line order |
| Decoders.ChildLines | src/main/python/parser.py:124-149 | every child code is valid, and the block has no child exactly when no line yields one |
| Decoders.DecompEntry | src/main/python/parser.py:110-152 | a record decodes exactly when it starts `~D` and a bar, has three parts, has a non-empty stripped parent, and its block yields a child; the entry is then the stripped parent with the block's children in line order |
| Decoders.ParseDecompositions | src/main/python/parser.py:102-154 | a parent is present exactly when some `~D` record decodes to it; every stored parent is non-empty and has a non-empty list of valid child codes |
| Decoders.MeasureKey | src/main/python/parser.py:176-178 | the key contains no `\`; it is the whole header when the header has no `\`; otherwise it is the last `\`-segment, or the segment before it when the header ends in `\` |
| Decoders.MeasureEntry | src/main/python/parser.py:165-183 | a record decodes exactly when it starts `~M` and a bar, has at least three fields, and its last field parses; the entry is then the header's key and that total |
| Decoders.MeasuredKeys | src/main/python/parser.py:164-185 | a key has a total exactly when some `~M` record with a parseable total names it; an unparseable total creates nothing |
| Decoders.MeasurementsAreSums | src/main/python/parser.py:157-187 | each stored total is the sum of the parseable totals of the key's records; a key that no record contributes to is absent |
| Decimal.Pad2 | src/main/python/parser.py:266 | at least two decimal digits; exactly two below 100; no leading zero from 10 on |
| Decimal.Pad2RoundTrip | src/main/python/parser.py:395 | reading a padded index back as a number gives the index |
| Decimal.Pad2Injective | src/main/python/parser.py:398 | distinct indices give distinct padded codes |
| Tree.NatureOf | src/main/python/parser.py:194-208 | 0 exactly at depth 0; 3 exactly below the root without children; 1 exactly at depth 1 with children; 2 exactly deeper with children |
| Builder.BuildNode | src/main/python/parser.py:211-302 | an already-visited code gives no node and leaves the visited set alone; otherwise the code becomes visited; the node has the code, the position, the concept's unit, summary and price (absent, empty and 0.0 without a concept), and the long text; the nature follows the decomposition entry, even if every child was dropped; quantity is 1 at depth 0 and 1 and for codes with an entry, and otherwise the measured total or 0.0; amount is quantity × price; the visited set only grows |
| Builder.BuildNodeCodes | src/main/python/parser.py:227-230 | the built tree holds, each exactly once, the codes the construction newly marked visited; no code appears twice anywhere in the tree |
| Builder.BuildChildrenCodes | src/main/python/parser.py:263-281 | the children's subtrees hold, each once, exactly the codes marked visited during the loop |
| Builder.BuildNodeShaped | src/main/python/parser.py:246-259 | every built node fits its depth: nature Root only at the root, chapters at depth 1, subchapters deeper, quantity 1 unless a line item below depth 1, line items without children, amount = quantity × price |
| Builder.BuildChildrenShaped | src/main/python/parser.py:263-283 | every child built by the loop fits its depth, all the way down |
| Builder.BuildChildrenOrder | src/main/python/parser.py:263-281 | the children's codes are a subsequence of the entry's codes, in entry order, and every code of the entry is visited once the loop ends |
| Builder.DetectRoot | src/main/python/parser.py:305-323 | fails exactly when every decomposition parent is also a child, the empty map included; otherwise the result is a parent that is no child |
| Prune.PruneNode | src/main/python/parser.py:330-358 | a node is kept exactly when it, or some node below it, has a non-zero quantity; no field but the children changes |
| Prune.PruneList | src/main/python/parser.py:349-357 | never more children than before, and some survive exactly when some child has signal |
| Prune.PruneTree | src/main/python/parser.py:361-376 | the root is always kept with every field unchanged |
| Prune.PruneListSurvivors | src/main/python/parser.py:352-357 | the kept children are exactly the children with signal, in their order, with their fields unchanged |
| Prune.PruneNodePruned | src/main/python/parser.py:352-355 | after pruning, every node below the top has signal |
| Prune.PruneListPruned | src/main/python/parser.py:371-373 | every kept child of the root has signal all the way down |
| Prune.PruneNodeFixed | src/main/python/parser.py:330-358 | pruning a pruned subtree changes nothing |
| Prune.PruneTreeIdempotent | src/main/python/parser.py:361-376 | pruning twice gives what pruning once gives |
| Prune.PruneNodeCodes | src/main/python/parser.py:349-357 | the codes of a pruned subtree are a subsequence of its codes |
| Prune.PruneTreeNoDup | src/main/python/parser.py:368-375 | pruning a tree without repeated codes leaves it without repeated codes |
| Prune.PruneTreeShaped | src/main/python/parser.py:368-375 | pruning keeps the shape of a built tree |
| Prune.ShapedSignal | src/main/python/parser.py:246-257 | below the root of a built tree, a node survives exactly when it is not a line item or its quantity is non-zero |
| Prune.PruneTreeKeepsFirstLevel | src/main/python/parser.py:248-249 | no child of the root of a built tree is ever pruned |
| Renumber.RenumberNode | src/main/python/parser.py:383-402 | only the position code changes, and the number of children is kept |
| Renumber.RenumberNumbered | src/main/python/parser.py:393-401 | after renumbering, child `i` of every node has the padded index `i` under the root, and the parent's code, a dot and the padded index deeper down, with siblings numbered 1, 2, … without gaps |
| Renumber.RenumberErase | src/main/python/parser.py:400 | renumbering changes nothing but position codes, anywhere in the tree |
| Renumber.NumberedFixed | src/main/python/parser.py:393-401 | a tree that already follows the numbering rule is its own renumbering |
| Renumber.RenumberTreeIdempotent | src/main/python/parser.py:404-410 | renumbering twice gives what renumbering once gives, with the root at `"0"` |
| Renumber.RenumberShaped | src/main/python/parser.py:383-402 | renumbering keeps the shape of a built tree |
| Renumber.RenumberCodes | src/main/python/parser.py:383-402 | renumbering keeps the concept codes and their order |
| Renumber.NumberedUnique | src/main/python/parser.py:393-398 | in a tree that follows the numbering rule no two nodes share a position code, and every code lies below its parent's |
| Renumber.RenumberTreeUnique | src/main/python/parser.py:404-410 | after `renumber_tree` every node has its own position code |
| Pipeline.RenumberSignal | src/main/python/parser.py:347-355 | renumbering does not change whether a branch has signal |
| Pipeline.RenumberPruned | src/main/python/parser.py:458-461 | renumbering a pruned tree keeps it pruned |
| Pipeline.FinishedTree | src/main/python/parser.py:457-461 | after pruning and renumbering, a built tree keeps its shape; it has root `"0"` with nature Root and quantity 1; every node below the root has signal; codes and position codes are unique; the numbering rule holds |
| Pipeline.TreeOf | src/main/python/parser.py:444-463 | fails exactly when the decompositions have no root; otherwise the tree is the pruned, renumbered build of a root that is a parent and no child, and it has every property of a finished tree |
| Pipeline.Bc3ToTree | src/main/python/parser.py:417-463 | the records are the slices, in order, of the scan of the normalised raw text, each starting with `~`, and the scan finds nothing after the last; on the tables decoded from them the result is as for `TreeOf` |

## Left out

- The file read with `latin-1` decoding (parser.py:16) is file I/O. The
  model starts from the decoded text.
- `generar_nombre_incremental` and `main` (parser.py:470-541) probe the
  filesystem, prompt the user and write JSON. `parser_wrapper.py` and the
  Java service and API are process and HTTP glue. None of these is part of
  this model.
- Python `float(text)` is the abstract parameter `num`. Decimal parsing,
  IEEE rounding of sums and products, NaN and infinities are not modelled.
  Quantities, prices and amounts are exact `real`s.
- Decoders.ConceptEntry: a missing or empty price field is taken directly
  as 0.0, which is what `float("0")` returns.
- Prune.PruneNode: the coercion of a non-numeric `cantidad` (parser.py:338-345)
  is not modelled, because `build_node` always stores a number there.
- Builder.DetectRoot: when several roots exist, the code picks the first one
  in set iteration order. The model picks any of them, so its contract only
  promises a parent that is no child.
- The constant fields `margen`, `interno`, `grupo` and `proveedor`
  (parser.py:294-298) are not part of `Node`. The child factor of a
  decomposition is decoded but, as in the code, never used by the tree.
- JSON serialisation of the tree is not modelled.
- Python's recursion limit: `build_node`, `_prune_node` and
  `_renumber_children` recurse once per level, so a decomposition chain
  about a thousand levels deep makes `bc3_to_json` fail with
  `RecursionError`. The model has no such limit and returns a tree at any
  depth.
