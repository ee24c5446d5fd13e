# Offline icon-font builder: layer splitting and glyph collection

This project models the core of an offline command-line tool that builds an icon font
from a folder of SVG icons.

- **Layer splitter (`svg-split.js`).** It parses an icon and takes its first `<svg>` element.
  - Colour discovery walks the children of that element. It collects the fill colours the
    visited elements declare in their own `style`, in first-encountered order, without
    duplicates.
  - When both allowed colours (`#515151` and `#ff8000`) are present, the icon is flattened
    twice, once per colour. Otherwise it is flattened once, unfiltered.
  - Flattening threads each ancestor's `transform` down the tree. It concatenates the
    transformed `d` of every selected `<path>` and attaches the frame that
    `getCoordinates` resolves from the `viewBox`, `x`, `y`, `width` and `height` attributes.
- **Batch driver (`fg.js`).**
  - It derives a CSS glyph name from each file name and a font name from the configured
    name.
  - It selects the `.svg` entries of the icon folder's listing.
  - In `createGlyph`, it pushes one glyph record per non-empty layer, each with the next
    code point from `0xE800`.
  - Later, `collectGlyphsInfo` turns the selected custom glyphs into the records handed to
    the font builder. It strips the first `@` from each name in place, flags the second
    layer, scales the width and stable-sorts by code.

The modules, one per file:

| module | file | what it holds |
|---|---|---|
| `Js` | `js.dfy` | The JavaScript semantics relied on: `\s`, numbers with `undefined`/NaN, truthiness, `indexOf`, `replace` with a string pattern, and lower-casing. |
| `Dom` | `dom.dfy` | The parsed document, `getAttribute` and `getElementsByTagName(...)[0]`. |
| `FillPattern` | `fill_pattern.dfy` | The regular expression `/fill:\s*([^\s;]+)[\s;]/i`. |
| `ColorDiscovery` | `color_discovery.dfy` | `findAllFillColors` and the quiet tags. |
| `FlattenWalk` | `flatten_walk.dfy` | `processSVG`. |
| `Viewport` | `viewport.dfy` | `getCoordinates` and the `viewBox` split. |
| `SvgSplit` | `svg_split.dfy` | `flatten` and `split`. |
| `Names` | `names.dfy` | Glyph names, the font name, `filterSvgFiles` and the descent. |
| `GlyphBatch` | `glyph_batch.dfy` | The class `GlyphStore`, with `createGlyph` and `collectGlyphsInfo`. |

The walkers (`findAllFillColors`, `processSVG`) and the two `fg.js` closures are methods
with loops. Each is proved equal to a reference function: `AddNew`/`Fills`,
`Render`/`Keep`/`PathUses`, `FileGlyphs`/`Batch`, and `UnmarkAll`/`SortByCode`/`Infos`.
The properties are proved about those functions.

## Model

| member | source | states |
|---|---|---|
| `Js.IndexOf` | fg.js:157 | The position returned is where the pattern occurs, and no earlier position holds it; `None` (-1) means it occurs nowhere. |
| `Js.ReplaceFirstMeaning` | fg.js:159 | `replace` with a string pattern changes only the first occurrence and keeps the text around it. Without an occurrence the string is unchanged. |
| `Dom.FirstByTag` | svg-split.js:31 | `getElementsByTagName(tag)[0]` is defined exactly when some element at any depth is named `tag`, and then it is such an element. |
| `Dom.FirstByTagInOrder` | svg-split.js:31 | The element found is the first one named `tag` in document order (`PreOrder`, each element before its descendants and its later siblings). |
| `Dom.FirstNamedIndex` | svg-split.js:31 | The scan of `FirstNamed` stops at an element named `tag` with none before it, and finds nothing only when no element is named `tag`. |
| `Dom.FirstNamedAppend` | svg-split.js:31 | Scanning two runs finds the first run's element if it has one, else the second's. |
| `FillPattern.SkipSpaces` | svg-split.js:78 | The greedy `\s*` consumes a maximal run of whitespace. |
| `FillPattern.ValueEnd` | svg-split.js:78 | The greedy `[^\s;]+` consumes a maximal run of value characters. |
| `FillPattern.MatchAtSound` | svg-split.js:78 | What the matcher captures at a position is a genuine match of the expression there. |
| `FillPattern.MatchAtComplete` | svg-split.js:78 | Every way of matching the expression at a position captures the same colour as the matcher, so no backtracking is lost. |
| `FillPattern.FirstMatchFromMeaning` | svg-split.js:78 | The search returns the match at the first position where one exists, and nothing only when no position matches. |
| `FillPattern.FirstMatchPosition` | svg-split.js:78 | When the search succeeds, it stops at a matching position with no match before it. |
| `FillPattern.FirstMatchFromNone` | svg-split.js:78 | A search that finds nothing passed only non-matching positions. |
| `FillPattern.ExtractFillMeaning` | svg-split.js:78-80 | `ExtractFill`, i.e. `match(...)[1]`, is the leftmost match's group: non-empty, free of whitespace and `;`. It is absent exactly when the expression matches nowhere. |
| `FillPattern.NoTerminatorNoFill` | svg-split.js:78 | The trailing `[\s;]` is required: a style without whitespace or `;` yields no colour. |
| `FillPattern.FillAtEndIgnored` | svg-split.js:78 | A last declaration with no terminator (`fill:#fff`) is not read. |
| `FillPattern.FirstDeclarationWins` | svg-split.js:78 | The match is case-insensitive and only the first declaration counts: `FILL: red;fill:blue;` gives `red`. |
| `ColorDiscovery.PrototypeNameSilencedAsWritten` | svg-split.js:73 | As written, an element named `constructor` is silenced although it is not a quiet tag. |
| `ColorDiscovery.ConstructorFillRead` | svg-split.js:73-81 | With the four-tag quiet set, an element named `constructor` is visited and its declared fill is read. |
| `ColorDiscovery.FillsAsWrittenAgree` | svg-split.js:71-88 | Colour discovery as written (`FillsAsWritten`, with the inherited lookup) reads the same declarations as the four-tag walk whenever no element of the tree is named after an `Object.prototype` member. |
| `ColorDiscovery.ConstructorWalksDiffer` | svg-split.js:73-80 | On a `constructor` element declaring a fill, the walk as written reads nothing while the four-tag walk reads that colour. |
| `ColorDiscovery.StyleFill` | svg-split.js:76-80 | An element's own style yields at most one colour, which is well formed. |
| `ColorDiscovery.FillsWellFormed` | svg-split.js:71-88 | Every colour the walk reads is non-empty and free of whitespace and `;`. |
| `ColorDiscovery.AddNewProperties` | svg-split.js:81 | The list only grows at its end. It ends up holding exactly the old and the read colours, and stays free of duplicates. |
| `ColorDiscovery.AddNewSnoc` | svg-split.js:81 | A colour read is appended exactly when the list does not already hold it. |
| `ColorDiscovery.DiscoverColors` | svg-split.js:32 | The discovered colours are distinct and well formed, and are exactly those declared by visited elements below the root. |
| `ColorDiscovery.FillScope` | svg-split.js:72-87 | Quiet subtrees and non-elements declare nothing, and only `g` children are descended into. |
| `ColorDiscovery.FillsStep` | svg-split.js:71-88 | The walk over one more child reads that child's declarations after the earlier ones. |
| `ColorDiscovery.FindAllFillColors` | svg-split.js:68-90 | The method returns the input list extended, in reading order, with each newly seen colour below the node. |
| `FlattenWalk.OwnTransforms` | svg-split.js:99-101 | The inherited list is a prefix of the passed-on list, and an element without a `transform` passes the list on unchanged. |
| `FlattenWalk.KeepProperties` | svg-split.js:114-120 | Filtering keeps exactly the selected paths, never adds one, and without an active colour keeps all. |
| `FlattenWalk.PathUsesAppend` | svg-split.js:94 | The paths reached under two runs of siblings are those of the first followed by those of the second. |
| `FlattenWalk.ItemStep` | svg-split.js:94-131 | One more child adds its own rendering after the rendering of the earlier children. |
| `FlattenWalk.PathItemStep` | svg-split.js:110-125 | A `<path>` child appends its transformed `d` exactly when the filter is off or its own fill equals the colour. |
| `FlattenWalk.GroupItemStep` | svg-split.js:104-106 | A `g` child contributes its children's paths under its extended transform list. |
| `FlattenWalk.OtherItemStep` | svg-split.js:96-127 | Non-elements, quiet tags and other tags contribute nothing. |
| `FlattenWalk.ProcessSvg` | svg-split.js:92-133 | The method returns the running path followed by the rendering of every selected path below the node, in document order. |
| `FlattenWalk.ProcessItem` | svg-split.js:96-127 | One loop iteration appends the rendering of that child's selected paths to the running path. |
| `FlattenWalk.InheritedTransformsPrefix` | svg-split.js:99-105 | Every path below a node carries the node's accumulated list as a prefix, so ancestors wrap descendants. |
| `FlattenWalk.NestedGroupTransforms` | svg-split.js:99-105 | Two nested groups with transforms T1 and T2 give their path the list ` T1 T2`. |
| `FlattenWalk.GroupFillNotInherited` | svg-split.js:114-119 | A group's fill does not select the paths inside it. |
| `FlattenWalk.FiltersDisjoint` | svg-split.js:119 | Two different colours select disjoint sets of paths. |
| `Viewport.SpacesEnd` | svg-split.js:137 | ` *` consumes a maximal run of U+0020 spaces. |
| `Viewport.SeparatorAt` | svg-split.js:137 | A separator match is non-empty and made of spaces and commas, and one starts exactly at a space or comma. |
| `Viewport.SplitFromConcat` | svg-split.js:137 | Concatenated, the tokens give back every non-separator character. |
| `Viewport.SplitFromClean` | svg-split.js:137 | There is at least one token, and no token contains a separator character. |
| `Viewport.ViewBoxTokens` | svg-split.js:137 | The `viewBox` split yields at least one separator-free token, and together the tokens are the input without separators. |
| `Viewport.NoSeparatorOneToken` | svg-split.js:137 | Text without spaces or commas is a single token, so `''` splits to `['']`. |
| `Viewport.TokenAt` | svg-split.js:137 | A separator ends the current token, and the next token starts after the separator. |
| `Viewport.FirstToken` | svg-split.js:137-141 | Text before the first separator is the first token, and more tokens follow. A leading separator gives an empty first token. |
| `Viewport.GetCoordinatesMeaning` | svg-split.js:135-187 | `GetCoordinates`: `ViewBoxTooShort` and `NegativeSize` occur exactly under their conditions, in the source's order, and `MissingSize` only without a viewBox (the converse is `NoViewBoxNeedsBothSizes`). A frame has non-negative sizes and origin `x \|\| 0`, `y \|\| 0`, and without a viewBox both sizes are truthy. |
| `Viewport.MessagesDistinct` | svg-split.js:141-176 | The three `Error` messages differ, so each tells which check failed. |
| `Viewport.FallbackPolicy` | svg-split.js:180-186 | The viewBox supplies the size exactly when neither explicit size is truthy. Otherwise both explicit values are kept. |
| `Viewport.NoViewBoxNeedsBothSizes` | svg-split.js:168-178 | Without a viewBox, and when neither explicit size is negative, the frame resolves iff both sizes are truthy, else `MissingSize`. |
| `Viewport.ViewBoxSuppliesSize` | svg-split.js:180-183 | A viewBox of four or more tokens without explicit sizes gives the parsed third and fourth tokens as the size. |
| `Viewport.PercentIsAbsent` | svg-split.js:149 | An attribute ending in `%` resolves as if it were absent: `GetCoordinates` gives the same result without it. |
| `Viewport.SameExplicit` | svg-split.js:146-152 | Dropping a `%` attribute leaves every `ExplicitValue` unchanged. |
| `Viewport.SameFrame` | svg-split.js:135-187 | The frame depends only on the viewBox text and the four explicit values. |
| `Viewport.NoDimensions` | svg-split.js:173-177 | No viewBox and no sizes gives `MissingSize`. |
| `Viewport.NegativeViewBox` | svg-split.js:154-158 | A negative third or fourth viewBox number is rejected, whatever the explicit sizes. |
| `Viewport.TokensNotNumbers` | svg-split.js:141 | The length check counts tokens: it does not depend on `parseFloat`. |
| `SvgSplit.FlattenMeaning` | svg-split.js:48-66 | `Flatten`: a layer carries an error iff the frame does, and then an empty path with zero geometry. Otherwise the layer holds the rendering of the selected paths and the frame. |
| `SvgSplit.SplitMeaning` | svg-split.js:17-43 | `Split`: a parse error is passed on with its message. A parsed document without `<svg>` throws. Otherwise the first `<svg>` yields two colour layers iff both allowed colours are discovered, else one unfiltered layer. |
| `SvgSplit.TwoLayersIff` | svg-split.js:35 | Two layers exactly when both allowed colours are declared below the root. |
| `SvgSplit.TwoLayerContents` | svg-split.js:35-37 | Each of the two layers draws exactly the paths of its own colour. With different colours no path is drawn twice. |
| `SvgSplit.SingleLayerDrawsAll` | svg-split.js:39 | The unfiltered layer draws every path reached. |
| `SvgSplit.SecondaryOnlyGivesOneLayer` | svg-split.js:35-40 | An icon without the primary colour gives one layer with all its paths. |
| `SvgSplit.FrameErrorInEveryLayer` | svg-split.js:52-57 | A frame error reaches every layer, each with an empty path. |
| `SvgSplit.RootStyleNotRead` | svg-split.js:31-32 | The root's own `style` is not read, so a fill on the root alone does not split the icon. |
| `Names.LastComponent` | fg.js:182 | The result is a `/`-free suffix of the path. |
| `Names.GlyphNameNoSpace` | fg.js:182-186 | A `GlyphName` holds no whitespace. |
| `Names.GlyphNameLowerCase` | fg.js:186 | A glyph name holds no upper-case ASCII letter. |
| `Names.LastOfPath` | fg.js:182 | `Basename` of `dir/name` is `name`. |
| `Names.NoDashPairs` | fg.js:184-185 | Text without adjacent dashes contains neither `--` nor `---`, so both replacements leave it alone. |
| `Names.GlyphNameExample` | fg.js:182-186 | `a b.svg` in any folder gives `a-b`. |
| `Names.OnlyFirstRunShortened` | fg.js:184-185 | `a - b - c.svg` gives `a-b--c`: only the first run is shortened. |
| `Names.RunEnd` | fg.js:76 | `[^A-Za-z0-9\-_]+` consumes a maximal run of other characters. |
| `Names.CollapseRunsProperties` | fg.js:76 | The replacement leaves only font characters, never lengthens, and leaves clean names unchanged. |
| `Names.FontNameProperties` | fg.js:76 | A `FontName` holds only lower-case letters, digits, `-` and `_`, is no longer than the name, and is a fixed point. |
| `Names.CleanNameLowerCased` | fg.js:76 | A clean name is only lower-cased. |
| `Names.DefaultFontName` | fg.js:76 | The default name `untitled` is kept. |
| `Names.SpacedFontName` | fg.js:76 | A run of spaces becomes one dash: `a  b` gives `a-b`. |
| `Names.LastDot` | fg.js:239 | Finds the last `.`, or reports that there is none. |
| `Names.ExtnameSvgIff` | fg.js:239 | `Extname(name) == ".svg"` iff the name is longer than `.svg` and ends with it. |
| `Names.FilterSvgFiles` | fg.js:229-248 | The method returns the joined `.svg` entries, skipping an entry whose bare name is already in the list. |
| `Names.SvgFilesFromListing` | fg.js:236-246 | Every returned file is an entry of the listing joined to the folder. |
| `Names.SvgFilesAreJoinedEntries` | fg.js:236-246 | For a listing without duplicates, `SvgFiles` is every `.svg` entry in order, joined to the folder. |
| `Names.LastNotYetListed` | fg.js:243 | The duplicate check does not fire for a fresh entry of such a listing. |
| `Names.FilterSvgFilesChecked` | fg.js:232-234 | The intended filter fails with the folder message iff the listing is empty. Otherwise it returns the filtered files, which for a listing without duplicates are all its `.svg` entries joined to the folder. |
| `Names.EmptyFolderNotReported` | fg.js:232-234 | As written an empty folder gives no files and no error; the checked filter reports it. |
| `Names.DefaultMetrics` | fg.js:124 | With the defaults, `Descent` is -480, the negated ascent. |
| `GlyphBatch.LayerGlyphsShape` | fg.js:198-216 | `LayerGlyphs`: the glyphs pushed for a file are selected custom glyphs, 1000 wide and named after the file. They have consecutive codes and carry the non-empty normalised path of their layer; there are no more glyphs than layers. |
| `GlyphBatch.LayerGlyphsOrdered` | fg.js:198 | Glyphs follow the layer order. |
| `GlyphBatch.LayerGlyphsCover` | fg.js:200-204 | A layer gets a glyph iff its normalised path is not empty. |
| `GlyphBatch.NoPathNoGlyphs` | fg.js:200-204 | Layers whose paths all normalise to nothing give no glyph. |
| `GlyphBatch.FrameErrorConsumesNoCode` | fg.js:198-204 | A file whose `<svg>` frame is in error gets no glyph and consumes no code, provided the normaliser maps an empty path to an empty string. |
| `GlyphBatch.LayerGlyphsStep` | fg.js:201-208 | One more layer adds at most one glyph, with the next code. |
| `GlyphBatch.FileGlyphsAllocated` | fg.js:193-216 | A file's glyphs hold consecutive codes from the current counter, at most one per layer. |
| `GlyphBatch.BatchStep` | fg.js:87 | An unaborted batch appends the next file's glyphs, and the file's throw ends the batch. |
| `GlyphBatch.BatchExtend` | fg.js:87 | A store holding the batch so far, plus one file, holds the batch one file longer. |
| `GlyphBatch.AbortedStays` | fg.js:87 | Once a file has thrown, no later file is processed. |
| `GlyphBatch.BatchAllocated` | fg.js:205-216 | The batch's records hold consecutive codes from the start code, each a well-formed custom glyph. |
| `GlyphBatch.ParseErrorSkipsFile` | fg.js:193-196 | A file that fails to parse adds nothing and consumes no code. |
| `GlyphBatch.MissingSvgEndsBatch` | fg.js:87 | A file without `<svg>` ends the batch. |
| `GlyphBatch.Unmarked` | fg.js:157-160 | Only the name of a kept glyph with an `@` changes; code, index, path, source, selection and width never do. |
| `GlyphBatch.InfosStep` | fg.js:143-173 | One more record adds its info when it is kept, after the earlier ones. |
| `GlyphBatch.InfosNoLonger` | fg.js:143-173 | There is at most one record per glyph. |
| `GlyphBatch.InsertByCodeKeeps` | fg.js:176 | Insertion keeps every record and adds one. |
| `GlyphBatch.InsertByCodeSorted` | fg.js:176 | Insertion into records sorted by code keeps them sorted. |
| `GlyphBatch.InsertByCodeLast` | fg.js:176 | A record with the largest code goes last, keeping the order of equals. |
| `GlyphBatch.SortByCodeProperties` | fg.js:176 | The sort orders by code and is a permutation. |
| `GlyphBatch.SortByCodeSorted` | fg.js:176 | The sort orders by code. |
| `GlyphBatch.SortByCodeKeeps` | fg.js:176 | The sort keeps every record as often as it occurs. |
| `GlyphBatch.SortedStays` | fg.js:176 | Records already in code order are left unchanged. |
| `GlyphBatch.FullWidth` | fg.js:169 | A 1000-wide glyph is recorded `units_per_em` wide. |
| `GlyphBatch.AllocatedInfos` | fg.js:139-173 | For records `createGlyph` made, every one is kept in order, with its code, width `units_per_em`, the layer flag from `@` or index 1, the unmarked name, and the font-space path. |
| `GlyphBatch.AllocatedInfosSorted` | fg.js:176 | The sort leaves such records in place. |
| `GlyphBatch.CollectedAllocated` | fg.js:139-176 | For the records of a valid store, unmarking keeps them allocated, every record is kept, and the sort changes nothing. |
| `GlyphBatch.GlyphStore.constructor` | fg.js:79-86 | An empty store whose counter starts at `0xE800`. |
| `GlyphBatch.GlyphStore.CreateGlyph` | fg.js:180-221 | It throws iff the file has no `<svg>`. It appends exactly the file's glyphs from the current counter, and keeps the counter after the records. |
| `GlyphBatch.GlyphStore.PushLayers` | fg.js:198-218 | The store gains exactly the glyphs of the layers, and the counter stays after the records. |
| `GlyphBatch.GlyphStore.CreateGlyphs` | fg.js:85-87 | The store gains the batch's glyphs, and the loop ends exactly when a file throws. |
| `GlyphBatch.GlyphStore.CollectGlyphsInfo` | fg.js:139-179 | On a valid store, each kept glyph is unmarked in place and the store stays valid, with the counter unchanged. The result is the kept glyphs' records stable-sorted by code; this is every record, in store order. |
| `GlyphBatch.GlyphStore.RecordSelected` | fg.js:143-173 | The `forEach` unmarks each kept glyph in place, leaves the counter alone, and returns the kept glyphs' records in store order. |

## Left out

- The XML parser (xmldom) is not modelled. Its result is the input `Document`: the last error message, if any, and the top-level nodes.
- Text, comments and other non-element nodes are one `NonElement` case.
- Reading the icon files, the listing of the folder (`readdirSync`) and the configuration file are inputs. The CLI argument parsing is not part of this model.
- The path library (svgpath) appears only as function parameters:
  - `tp` is the transform applied to each path;
  - `norm` is the stage-1 normalisation in `createGlyph`;
  - `fs` and `segs` are the stage-2 font-space transform and its segment count.
  The geometry of these transforms is not modelled.
- `parseFloat` is the parameter `pf`, returning a number, possibly NaN. Decimal syntax and IEEE rounding are not modelled: numbers are exact reals.
- `path.join` is the parameter `join`.
- `path.basename` and `path.extname` are modelled for POSIX paths. Windows separators are not handled.
- `toLowerCase` is modelled on ASCII letters only. This is exact for the font name, which keeps only ASCII, but glyph names with other letters are not lower-cased by the model.
- `GlyphBatch.InfoOf`: the width is the exact product `width * units_per_em / 1000`. The `toFixed(1)` rounding to one decimal is not modelled.
- The `uid` field of the records, the `uid()` generator, the `fontWorker` build, `Date.now()` and all console output are not part of this model.
- The `typeof files[file] !== 'string'` check in `filterSvgFiles` is not modelled: listing entries are strings.
- The ordering of the listing is taken as given. So is the absence of duplicates that `Names.SvgFilesAreJoinedEntries` requires.
- A missing `<svg>` element makes the source read `childNodes` of `undefined`. This is the `NoSvgThrows` outcome, which ends the batch. What the uncaught exception then does to the process is not modelled.
- The layer index passed by `map` is taken as given. The second layer's index is 1, as in the source.
- `ColorDiscovery.FindAllFillColors`, `ColorDiscovery.DiscoverColors`, `FlattenWalk.ProcessSvg` and `FlattenWalk.ProcessItem`: both walks skip only the four quiet tags. Elements named after a member of `Object.prototype` (`constructor`, `toString`, ...) are visited, whereas the code as written skips them (see Findings).
- `GlyphBatch.FrameErrorConsumesNoCode`: that a layer with a frame error consumes no code holds only when svgpath serialises an empty path as an empty string. This is stated as an assumption on `norm`, since svgpath is not modelled.

## Findings

| source | as written | input that shows it | evidently intended | confidence | as-written member | corrected member |
|---|---|---|---|---|---|---|
| svg-split.js:7-10 | `quietTags` is a plain object, so `quietTags[item.nodeName]` also finds the members inherited from `Object.prototype`. | An element named `constructor` with `style="fill:#f00;"`: its fill is never read and its subtree is skipped. | Only `desc`, `title`, `metadata` and `defs` are quiet. | not executed | `ColorDiscovery.ConstructorWalksDiffer` | `ColorDiscovery.ConstructorFillRead` |
| fg.js:232-234 | `if (!files)` tests the array that `readdirSync` returns, and an array is never falsy. | An empty icon folder: no error is raised and the font is built with no glyphs. | An empty folder is reported as an error. | not executed | `Names.EmptyFolderNotReported` | `Names.FilterSvgFilesChecked` |
