# noxium core, modelled in Dafny

noxium is a collection of small Rust programs for web development. This project models
their self-contained sequential logic and proves properties of it:

- **`VDom`** (`vdom.dfy`) covers the virtual-DOM reconciler:
  - the node and patch types;
  - the positional tree diff `diff`;
  - the patch applier `apply_patches`, which plays a patch list against a container's child list.
- **`HtmlParser`** (`html_parser.dfy`) covers the hand-written HTML tokenizer and the recursive-descent parser:
  - a `Tokenizer` object with a cursor over the input;
  - a `Parser` object that holds one token of lookahead.
- **`Modder`** (`modder.dfy`) covers the owned DOM-tree editing API (`DomElement`).
- **`TreeShake`** (`treeshake.dfy`) covers the dependency-graph node and the worklist reachability closure used for tree shaking.
- **`Ssg`** (`ssg.dfy`) covers the line pagination of the static site generator.
- **`Api`** (`api.dfy`) covers the in-memory item database of the REST API.
- **`Sessions`** (`sessions.dfy`) covers the user registry and per-client session of the session service.
- **`Cicd`** (`cicd.dfy`) covers the command-line action parser of the CI/CD runner.
- **`Blockchain`** (`blockchain.dfy`) covers block creation and hash-chain validation in the blockchain monitor.
- **`Cdn`** (`cdn.dfy`) covers the fixed-window per-IP rate limiter and the compress-or-pass-through choice of the CDN.
- Shared helpers:
  - `Wrappers` defines `Option` and `Result`.
  - `Decimal` defines the decimal rendering of a natural number.
  - `Maps` enumerates the values of a map.

Code that updates state in place is modelled as classes and methods:
- the tokenizer and the parser;
- `DomElement`;
- the dependency node;
- the database;
- the user registry and the session;
- the rate limiter.

These loops become `while` loops with invariants, and each such method is proved against a specification function:
- the patch applier and its attribute and handler update loops;
- the tokenizer's scanners;
- the tree shaker;
- the paginator;
- the chain validator;
- the collection of a map's values.

The diff's loops over attributes and handlers are map comprehensions (`VDom.AttributesDiff`, `VDom.HandlersDiff`). Its loops over child lists are recursion (`VDom.ChildrenDiff`, `VDom.PairwiseDiff`). The `retain` in `remove_child_by_tag` is the recursive function `Modder.Without`.

Code that only computes a value is modelled as functions:
- the diff;
- the argument parser;
- block construction;
- the rate-limit step.

Clock readings, the md5 digest, UUID generation and the gzip encoder are parameters:
- `now`, `timestamp`;
- `digest`;
- `key`/`itemId`;
- `gzip`.

## Model

| member | source | states |
|---|---|---|
| VDom.Diff | src/vdom.rs:86-196 | the patches for one position: a variant, tag or component-name mismatch gives `[Replace(new)]`; same-tag elements give their own patches and then the child patches; texts give `Replace` only when different; fragments give the child patches; same-named components give the state patch |
| VDom.OwnPatches | src/vdom.rs:95-131 | the attribute batch, when non-empty, followed by the handler batch, when non-empty |
| VDom.ChildrenDiff | src/vdom.rs:133-147 | the diffs of the common prefix of child pairs in index order, then one `Remove` per extra old child or one `Add` per extra new child |
| VDom.PairwiseDiff | src/vdom.rs:133-137 | the diffs of the first k child pairs, concatenated in index order |
| VDom.PairDiff | src/vdom.rs:134-136 | the diff of the child pair at one index |
| VDom.StatePatches | src/vdom.rs:172-191 | one `UpdateState` carrying the map `{"state": new}` when the new state is a string and the old state is not that same string; otherwise none |
| VDom.AttributesDiff | src/vdom.rs:95-112 | the batch maps a key to `Some(new value)` exactly when it is new or changed, and to `None` exactly when it is only in the old map |
| VDom.HandlersDiff | src/vdom.rs:114-131 | every handler of the new node whose identity differs from the old one is in the batch with the new handler; a handler only in the old node maps to the no-op handler |
| VDom.DiffTexts | src/vdom.rs:150-154 | two texts diff to `[]` exactly when equal, and otherwise to exactly `[Replace(new)]` |
| VDom.DiffReplaces | src/vdom.rs:89-193 | differing variants, element tags or component names give exactly `[Replace(new)]`, with no patch for any child |
| VDom.DiffElements | src/vdom.rs:90-148 | for same-tag elements, at most one attribute batch (present iff some attribute changed) and at most one handler batch come first; every child patch follows them |
| VDom.ChildrenDiffTail | src/vdom.rs:133-147 | the child patches are the pairwise diffs of the common prefix, then exactly as many `Remove`s as old children beyond the new count, or `Add(new[i])` for each extra new child in increasing i |
| VDom.PairwiseDiffOrdered | src/vdom.rs:133-137 | the patches of child pair j come after those of every earlier pair and before those of every later pair |
| VDom.PairwiseDiffMonotone | src/vdom.rs:133-137 | the patches of the first j child pairs are a prefix of those of the first k, for j <= k |
| VDom.DiffSelf | src/vdom.rs:86-196 | a node diffed against itself yields no patch |
| VDom.PairwiseDiffSelf | src/vdom.rs:155-160 | a child list diffed pairwise against itself yields no patch |
| VDom.DiffStatePayloads | src/vdom.rs:172-191 | every state patch the diff produces carries a string-keyed map, never a string |
| VDom.PairwisePayloads | src/vdom.rs:133-137 | the same holds for the patches of any prefix of child pairs |
| VDom.UpdatedAttributes | src/vdom.rs:240-245 | `Some(v)` keys are set to v, `None` keys are removed, and every other key is unchanged |
| VDom.UpdatedHandlers | src/vdom.rs:250-252 | handler updates insert or overwrite and never delete; every other handler is unchanged |
| VDom.ApplyPatch | src/vdom.rs:234-261 | `Replace(n)` makes the list `[n]`; `Add(n)` appends n; `Remove` drops the last child (a no-op on `[]`); attribute and handler updates touch only the last child, and only when it is an element, keeping every attribute and handler outside the batch; a state patch whose payload is not a string changes nothing |
| VDom.Applied | src/vdom.rs:226-264 | a text or component root is unchanged; an element keeps its tag, attributes and handlers; a fragment stays a fragment |
| VDom.ApplyAttributeUpdates | src/vdom.rs:238-247 | the insert/remove loop over the attribute batch yields `UpdatedAttributes` |
| VDom.ApplyHandlerUpdates | src/vdom.rs:248-254 | the insert loop over the handler batch yields `UpdatedHandlers` |
| VDom.ApplyOne | src/vdom.rs:234-262 | applying one patch in place to the child list yields `ApplyPatch` |
| VDom.ApplyPatches | src/vdom.rs:226-264 | the loop over the patches yields `Applied(root, patches)`, given that no update patch meets an empty child list |
| VDom.DiffStatePatchInert | src/vdom.rs:255-261 | a state patch produced by the diff leaves the child list unchanged, because the applier only accepts a string payload |
| VDom.PatchesActOnRootList | src/vdom.rs:233-237 | diffing `[a,b]` against `[a,c,d]` gives `[Replace(c), Add(d)]`, and applying it to `[a,b]` gives `[c,d]`, not `[a,c,d]` |
| HtmlParser.ScanWhile | src/wwwroot/parser.rs:74-88 | the scan stops within the input, at a character that fails the test or at the end |
| HtmlParser.ScanWhileRun | src/wwwroot/parser.rs:74-88 | every character the scan passes over satisfies the test, so the run is the longest one |
| HtmlParser.ScanUntil | src/wwwroot/parser.rs:90-97 | the scan stops within the input, on the stop character or at the end |
| HtmlParser.ScanUntilRun | src/wwwroot/parser.rs:90-97 | no character the scan passes over is the stop character, so it stops at the first occurrence |
| HtmlParser.ScanAttributes | src/wwwroot/parser.rs:44-63 | on success the scan ends just past a `>`; otherwise the input ended first and the error is `UnexpectedEndOfInput` |
| HtmlParser.AttributeEnd | src/wwwroot/parser.rs:51-59 | one attribute scan consumes at least one character and stays within the input |
| HtmlParser.NextTokenSpec | src/wwwroot/parser.rs:29-72 | the cursor never moves back and moves forward whenever a token is produced; no token carries an attribute |
| HtmlParser.TokenAt | src/wwwroot/parser.rs:31-71 | the token starting after the white space: end of input gives none; otherwise the cursor moves forward and no attribute token appears |
| HtmlParser.TagSpec | src/wwwroot/parser.rs:33-67 | after a `<` there is always a token, and it is never an attribute |
| HtmlParser.ParseNodeSpec | src/wwwroot/parser.rs:147-179 | the cursor never moves back; if it has not moved, no lookahead is left; the lookahead never holds an attribute |
| HtmlParser.ParseChildrenSpec | src/wwwroot/parser.rs:152-168 | the cursor never moves back; if it has not moved, the lookahead is unchanged or used up; no attribute lookahead appears |
| HtmlParser.Tokenizer.constructor | src/wwwroot/parser.rs:23-27 | the cursor starts at the beginning of the input |
| HtmlParser.Tokenizer.Advance | src/wwwroot/parser.rs:54-58 | consumes one character if one is left |
| HtmlParser.Tokenizer.ConsumeWhile | src/wwwroot/parser.rs:74-88 | returns exactly the consumed run and leaves the cursor at `ScanWhile` |
| HtmlParser.Tokenizer.ConsumeUntil | src/wwwroot/parser.rs:90-97 | leaves the cursor at `ScanUntil`, with the stop character not consumed |
| HtmlParser.Tokenizer.ConsumeWhitespace | src/wwwroot/parser.rs:99-101 | skips the longest run of white space |
| HtmlParser.Tokenizer.ConsumeAttributes | src/wwwroot/parser.rs:44-63 | reports success and the final cursor exactly as `ScanAttributes` does |
| HtmlParser.Tokenizer.ReadToken | src/wwwroot/parser.rs:31-71 | the token and the new cursor are `TokenAt` of the old cursor |
| HtmlParser.Tokenizer.ReadTag | src/wwwroot/parser.rs:33-67 | the token and the new cursor are `TagSpec` of the cursor just past the `<` |
| HtmlParser.Tokenizer.NextToken | src/wwwroot/parser.rs:29-72 | the token and the new cursor are `NextTokenSpec` of the old cursor |
| HtmlParser.Parser.constructor | src/wwwroot/parser.rs:136-140 | a fresh tokenizer at the start of the input and no current token |
| HtmlParser.ParseFrom | src/wwwroot/parser.rs:142-145 | reads the first token from the cursor, then parses one node from it |
| HtmlParser.Parser.Parse | src/wwwroot/parser.rs:142-145 | result, lookahead and cursor are `ParseFrom` of the starting cursor |
| HtmlParser.Parser.ParseNode | src/wwwroot/parser.rs:147-179 | result, lookahead and cursor are `ParseNodeSpec` of the old lookahead and cursor |
| HtmlParser.NoTokenIffBlank | src/wwwroot/parser.rs:30-31 | no token is produced exactly when only white space remains |
| HtmlParser.TextTokenShape | src/wwwroot/parser.rs:67-69 | a text token is non-empty, holds no `<` and does not start with white space |
| HtmlParser.OpenTagShape | src/wwwroot/parser.rs:41-65 | an opening tag's name is the maximal alphanumeric run after `<` |
| HtmlParser.LoneOpenBracket | src/wwwroot/parser.rs:41-66 | input ending right after `<` gives `UnexpectedEndOfInput` |
| HtmlParser.CloseTagToken | src/wwwroot/parser.rs:35-40 | `</name` gives `TagClose(name)` and stops on the `>` without consuming it |
| HtmlParser.BracketStartsText | src/wwwroot/parser.rs:67-69 | at a `>`, the next token is a text starting with `>` |
| HtmlParser.CloseTagLeavesBracket | src/wwwroot/parser.rs:35-69 | after `</name>` the token following the closing tag is a text beginning with `>` |
| HtmlParser.ScanWhileStopsAt | src/wwwroot/parser.rs:74-88 | a run of passing characters ended by a failing one is scanned exactly to that character |
| HtmlParser.AnyCloseTagEndsElement | src/wwwroot/parser.rs:154-157 | inside an element a closing tag of any name ends the child list |
| HtmlParser.LastTextWins | src/wwwroot/parser.rs:162-165 | each text token overwrites the element's text, so the last one wins |
| HtmlParser.UnclosedElementIsOk | src/wwwroot/parser.rs:152-169 | an element whose tokens run out, or hit a tokenizer error, before a closing tag still parses to `Ok` |
| HtmlParser.TopLevelCases | src/wwwroot/parser.rs:171-177 | a top-level text becomes a node with an empty tag; a top-level closing tag or end of input is `UnexpectedEndOfInput` |
| HtmlParser.ElementAlwaysParses | src/wwwroot/parser.rs:149-170 | an element always parses to `Ok`, whatever follows it |
| HtmlParser.ChildrenAlwaysParse | src/wwwroot/parser.rs:152-168 | the child loop always ends in `Ok` |
| HtmlParser.DocumentParses | src/wwwroot/parser.rs:142-179 | a document parses exactly when its first token is an opening tag or a text |
| Modder.FirstIndex | src/modder.rs:63-70 | the index of the first child with the tag, or `None` exactly when no direct child has it |
| Modder.Without | src/modder.rs:39-41 | keeps exactly the children without the tag, and never grows the list |
| Modder.TextUpdated | src/modder.rs:95-105 | a `"text"` element gets exactly one empty `"text"` child; any other element keeps its tag, attributes and child count |
| Modder.TextUpdatedAll | src/modder.rs:101-103 | the update is applied to every child, in place |
| Modder.RenderElement | src/modder.rs:44-60 | the HTML is `Rendered` for an attribute order that lists every key of every element of the subtree once: `<tag`, the attributes, `>`, each child's HTML in order, `</tag>` |
| Modder.RenderAttributes | src/modder.rs:47-49 | ` key="value"` for every attribute, each key once, in the map's order |
| Modder.RenderChildren | src/modder.rs:53-55 | the children's renderings one after the other, in child order |
| Modder.RenderedOpens | src/modder.rs:46 | a rendering opens with `<tag` |
| Modder.RenderedCloses | src/modder.rs:58 | a rendering ends with `</tag>` |
| Modder.RenderedHoldsAttributes | src/modder.rs:47-49 | a rendering contains ` key="value"` for every attribute, whatever the order |
| Modder.AttributesTextOccurs | src/modder.rs:47-49 | every listed attribute is written out |
| Modder.LeafRendering | src/modder.rs:44-60 | a leaf without attributes renders as `<tag></tag>` |
| Modder.DomElement.constructor | src/modder.rs:15-21 | the given tag, no attributes and no children |
| Modder.DomElement.SetAttribute | src/modder.rs:24-26 | `attributes[key] == value`; every other key, the tag and the children are unchanged |
| Modder.DomElement.RemoveAttribute | src/modder.rs:29-31 | deletes only `key`; the tag and the children are unchanged |
| Modder.DomElement.AddChild | src/modder.rs:34-36 | appends the child at the end and keeps the existing children |
| Modder.DomElement.RemoveChildByTag | src/modder.rs:39-41 | the children become `Without(old children, tag)` |
| Modder.DomElement.Render | src/modder.rs:44-60 | the receiver's value rendered as `RenderElement` does |
| Modder.DomElement.FindChildByTag | src/modder.rs:63-70 | returns the first direct child with the tag, or `None` when there is none |
| Modder.DomElement.ReplaceChildByTag | src/modder.rs:73-80 | replaces only the first matching direct child; a no-op when none matches; the child count never changes |
| Modder.DomElement.CountElementsByTag | src/modder.rs:83-92 | the number of matching elements strictly below the receiver |
| Modder.DomElement.UpdateTextContent | src/modder.rs:95-105 | the element becomes `TextUpdated` of the old one; the new text is never stored |
| Modder.DomElement.SetStyle | src/modder.rs:108-110 | the same as setting the attribute `"style"` |
| Modder.DomElement.CloneElement | src/modder.rs:113-115 | an equal copy of the receiver |
| Modder.DomElement.AddEventListener | src/modder.rs:118-120 | the same as setting the attribute `"on" + event` |
| Modder.WithoutAppend | src/modder.rs:39-41 | removal by tag distributes over concatenation |
| Modder.WithoutIdempotent | src/modder.rs:39-41 | removing by tag twice is the same as removing once |
| Modder.WithoutNoMatch | src/modder.rs:39-41 | with no matching child, removal changes nothing |
| Modder.CountBelow | src/modder.rs:83-92 | the number of elements with the tag strictly below the element |
| Modder.CountIn | src/modder.rs:83-92 | the number of elements with the tag among a child list and all their descendants |
| Modder.CountInAppend | src/modder.rs:83-92 | the count over concatenated child lists is the sum of the counts |
| Modder.CountAfterAddChild | src/modder.rs:34-36 | after adding a child, the count grows by the child's own match plus the count below it |
| Modder.CountBelowSize | src/modder.rs:83-92 | the count of matches strictly below the element is smaller than the size of its subtree |
| Modder.CountInSize | src/modder.rs:83-92 | the count over a child list is at most the number of elements in it |
| Modder.LeafCountsNothing | src/modder.rs:83-92 | an element without children counts 0, even for its own tag |
| Modder.TextUpdatedIdempotent | src/modder.rs:95-105 | updating the text content twice is the same as once |
| Modder.TextUpdatedAllIdempotent | src/modder.rs:101-103 | the same holds for a child list |
| Modder.TextElementSize | src/modder.rs:96-99 | an updated `"text"` element has exactly two elements in its subtree |
| TreeShake.GraphNode.Snapshot | src/bundler/treeshake.rs:5-9 | the node's current id and dependency set as a value |
| TreeShake.GraphNode.constructor | src/bundler/treeshake.rs:13-18 | the given id and no dependencies |
| TreeShake.GraphNode.AddDependency | src/bundler/treeshake.rs:21-23 | adds the dependency to the set, is a no-op when it is already present, and leaves the id unchanged |
| TreeShake.Universe | src/bundler/treeshake.rs:27-44 | every entry point and every dependency named in the graph is in the universe |
| TreeShake.TreeShaker | src/bundler/treeshake.rs:27-44 | every entry point is in the result; the result is closed under dependencies; every id in it is reachable from an entry point |
| TreeShake.Visit | src/bundler/treeshake.rs:31-40 | one worklist step keeps the loop invariant and decreases the termination measure |
| TreeShake.PushUnvisited | src/bundler/treeshake.rs:34-38 | every dependency not yet reachable is pushed, each with a witness path |
| TreeShake.StartProgress | src/bundler/treeshake.rs:28-29 | the initial worklist of entry points satisfies the loop invariant |
| TreeShake.FinishProgress | src/bundler/treeshake.rs:31-43 | an empty worklist under the invariant gives the three postconditions |
| TreeShake.PopVisited | src/bundler/treeshake.rs:31-32 | popping an already-reachable id keeps the invariant |
| TreeShake.PopFresh | src/bundler/treeshake.rs:31-39 | inserting a new id and pushing its dependencies keeps the invariant |
| TreeShake.ClosedHoldsPath | src/bundler/treeshake.rs:33-39 | a dependency-closed set that holds a path's start holds its end |
| TreeShake.ClosedHoldsReachable | src/bundler/treeshake.rs:27-44 | a closed set holding the entry points holds every reachable id, so the result is exactly the reachable set |
| TreeShake.EntriesReachable | src/bundler/treeshake.rs:29 | every entry point is reachable |
| TreeShake.UnknownIdsAreDeadEnds | src/bundler/treeshake.rs:33 | an id with no node can only end a path |
| Ssg.NewlineAt | src/ssg.rs:125 | the first `\n`, or the end of the string |
| Ssg.Lines | src/ssg.rs:125 | there are no lines exactly when the content is empty |
| Ssg.LinesHaveNoNewline | src/ssg.rs:125 | no line contains `\n` |
| Ssg.LinesFirst | src/ssg.rs:125 | content without `\r` that holds a `\n` starts with the whole text before that `\n` as its first line |
| Ssg.JoinCons | src/ssg.rs:131 | joining a line in front of a non-empty list puts one `\n` between |
| Ssg.LinesJoin | src/ssg.rs:125 | for content without `\r`, joining the lines with `\n` gives the content back, less a final `\n` |
| Ssg.JoinInjective | src/ssg.rs:125 | two non-empty lists of `\n`-free lines that join to the same text are equal, so the lines are the only such split |
| Ssg.LinesUnique | src/ssg.rs:125 | for non-empty content without `\r`, any non-empty list of `\n`-free pieces that joins back to the content, less a final `\n`, is `Lines` of it |
| Ssg.NewlineAtJoin | src/ssg.rs:125 | the first `\n` of `x + "\n" + y` is the one after x when x has none |
| Ssg.Join | src/ssg.rs:131 | the lines with one `\n` between each two |
| Ssg.Chunks | src/ssg.rs:129-133 | the lines grouped front to back into runs of k, the last run possibly shorter |
| Ssg.Pages | src/ssg.rs:129-133 | each run of k lines joined into the text of one page; no pages when k is 0 |
| Ssg.JoinAll | src/ssg.rs:131 | each page is its group of lines joined with `\n` |
| Ssg.PaginateContent | src/ssg.rs:123-137 | no lines give no pages; otherwise the pages are the line groups of `Chunks`, each joined with `\n` (`Pages`) |
| Ssg.NextPage | src/ssg.rs:130-133 | the pages from line `start` on are the page of lines `start..end` followed by the pages from `end` on |
| Ssg.ChunkSizes | src/ssg.rs:129-133 | every page holds between 1 and k lines, and every page but the last holds exactly k |
| Ssg.ChunksFlatten | src/ssg.rs:129-136 | the pages' line groups laid end to end give back the lines |
| Ssg.ChunkCount | src/ssg.rs:129-136 | the page count is the line count divided by k, rounded up |
| Ssg.TrailingNewlineExample | src/ssg.rs:125 | a final `\n` adds no empty last line |
| Ssg.CrLfBlankLineExample | src/ssg.rs:125 | a `\r\n` ending loses its `\r` and a blank middle line is kept |
| Ssg.LoneCarriageReturnExample | src/ssg.rs:125 | a `\r` not followed by `\n` stays in the line |
| Ssg.PaginationExample | src/ssg.rs:129-136 | three lines at two per page give `["a\nb", "c"]` |
| Maps.CollectValues | src/api/api.rs:31 | one value per key of the map, in some enumeration of the keys |
| Api.Database.constructor | src/api/api.rs:21-27 | one item named "Initial Item", stored under a key drawn separately from its id |
| Api.Database.GetItems | src/api/api.rs:29-32 | exactly one stored item per key |
| Api.Database.GetItem | src/api/api.rs:34-37 | the item stored under the id, or `None` exactly when the key is absent |
| Api.Database.AddItem | src/api/api.rs:39-42 | stores the item under its own id, overwriting any entry there; every other key is unchanged; "key equals id" is preserved |
| Api.Database.UpdateItem | src/api/api.rs:44-52 | `Err("Item not found")` with no change exactly when the id is absent; otherwise only that item's name changes |
| Api.Database.DeleteItem | src/api/api.rs:54-61 | `Err("Item not found")` with no change exactly when the id is absent; otherwise removes exactly that key |
| Api.InitialItemFiling | src/api/api.rs:22-23 | the initial item is filed under its own id only when the two UUIDs coincide |
| Sessions.AppState.constructor | src/sessions.rs:143-145 | no user is registered at start-up |
| Sessions.Session.constructor | src/sessions.rs:151 | a new cookie session holds no user |
| Sessions.RegisterUser | src/sessions.rs:47-64 | a taken username is a Conflict and no change; otherwise exactly one entry is added, keyed by the username, with the email and `lastLogin == 0` |
| Sessions.Login | src/sessions.rs:67-81 | an unknown username is Unauthorized and no change; otherwise only that user's `lastLogin` becomes `now`, and the session holds the updated user |
| Sessions.GetSessionInfo | src/sessions.rs:84-90 | the session's user, or "No user logged in" |
| Sessions.UpdateUser | src/sessions.rs:93-113 | without a session user the result is Unauthorized; otherwise the email is replaced only if one is given, and the stored entry is overwritten only while the username is registered |
| Sessions.Logout | src/sessions.rs:116-119 | the session is emptied |
| Sessions.DeleteUser | src/sessions.rs:122-132 | removes exactly the named user; NotFound exactly when it was absent |
| Sessions.ListUsers | src/sessions.rs:135-139 | exactly one stored user per username |
| Decimal.DigitChar | src/monitor/blockchain_monitor.rs:24 | the digit character of a value below 10 |
| Decimal.Show | src/monitor/blockchain_monitor.rs:24 | a non-empty string of digits, with a leading `0` only for zero |
| Decimal.ValueShow | src/monitor/blockchain_monitor.rs:24 | reading the decimal rendering back gives the number |
| Decimal.ShowInjective | src/monitor/blockchain_monitor.rs:24 | different numbers render differently |
| Cicd.ParseU64 | src/cicd.rs:22-23 | a value only for an optional `+` followed by a non-empty run of digits whose value is below 2^64; that value is the number written |
| Cicd.SignedDigits | src/cicd.rs:22-23 | a `+` before digits parses like the digits alone; `++` and a leading `-` never parse |
| Cicd.FromArgs | src/cicd.rs:14-28 | fewer than two arguments is exactly the usage error; any `Ok` carries the command `args[1]`; the only errors are the usage and the delay-format messages |
| Cicd.ScheduleShape | src/cicd.rs:21-24 | a `Schedule` comes exactly from four arguments with `--schedule` and a parsable delay; the same shape with a bad delay is exactly the delay-format error |
| Cicd.RunShape | src/cicd.rs:25-27 | every other shape of two or more arguments gives `Run(args[1])`, ignoring extra arguments |
| Cicd.ScheduleRoundTrip | src/cicd.rs:21-24 | a rendered delay below 2^64 schedules that delay; a larger one is the delay-format error |
| Cicd.SignExamples | src/cicd.rs:22 | `+42` parses to 42, while `-42` and `+` do not parse |
| Blockchain.HashInput | src/monitor/blockchain_monitor.rs:24 | the hashed text: index and timestamp in decimal, then the data and the previous hash, with no separators |
| Blockchain.ChainValid | src/monitor/blockchain_monitor.rs:35-50 | every block after the first carries its predecessor's hash and a hash that matches its own fields |
| Blockchain.NewBlock | src/monitor/blockchain_monitor.rs:19-32 | keeps the given fields, and its hash is the digest that validation recomputes |
| Blockchain.ValidateBlockchain | src/monitor/blockchain_monitor.rs:35-50 | the early-return loop returns exactly `ChainValid` |
| Blockchain.ShortChainsValid | src/monitor/blockchain_monitor.rs:35-36 | chains of zero or one block are valid |
| Blockchain.FirstBlockUnchecked | src/monitor/blockchain_monitor.rs:36-49 | block 0's own hash and fields never matter, only its hash as the next block's predecessor |
| Blockchain.PrefixValid | src/monitor/blockchain_monitor.rs:36-49 | every prefix of a valid chain is valid |
| Blockchain.AppendNewBlock | src/monitor/blockchain_monitor.rs:19-49 | appending a new block built on the last hash keeps a valid chain valid |
| Blockchain.BrokenLinkInvalid | src/monitor/blockchain_monitor.rs:40-47 | one bad predecessor hash or one bad hash at i >= 1 makes the chain invalid |
| Cdn.Step | src/cdn.rs:155-169 | only the IP's entry is read or written; a new IP starts at `(0, now)`; refusal happens exactly when the count exceeds the maximum within 60 s, and leaves the entry as it was; after 60 s the entry resets to `(1, now)`; otherwise the count grows by 1 |
| Cdn.RateLimiter.constructor | src/cdn.rs:214 | no IP has an entry |
| Cdn.RateLimiter.RateLimit | src/cdn.rs:155-169 | the answer and the new table are `Step` of the old table |
| Cdn.Replay | src/cdn.rs:155-169 | requests from one IP that all fall inside its current window keep the window start, and each is allowed at most once |
| Cdn.ReplayBound | src/cdn.rs:157-168 | within one window, the requests allowed after a count c number at most max + 1 - c |
| Cdn.WindowBound | src/cdn.rs:157-168 | a previously unseen IP gets at most max + 1 requests allowed within one 60 s window |
| Cdn.Compressible | src/cdn.rs:146 | the MIME type starts with `text/` or is exactly `application/javascript` |
| Cdn.CompressIfNeeded | src/cdn.rs:145-153 | `text/*` and `application/javascript` are gzipped; everything else is returned unchanged |
| Cdn.BinaryPassesThrough | src/cdn.rs:145-153 | `image/png` and `application/json` pass through unchanged, and `text/html` is gzipped |

## Left out

- The node constructors of `vdom.rs` (`new_element`, `new_text`, `new_fragment`, `new_component`) are the datatype constructors of `VNode`. The node is a value, so reference counting and shared mutable nodes are not modelled: `ApplyPatches` returns the new root instead of mutating it through a shared handle.
- Event-handler closures are identities compared by equality, which stands for the pointer comparison of the original. The handler the diff inserts for a removed handler is `NoopHandler`.
- `Display for VNode` is not modelled.
- Modder.RenderElement: attribute order follows hash-map iteration, so the rendering is stated for whichever order the map yields (the ghost result `order`), not for one fixed order.
- VDom diff/apply round trip: no such property is claimed, because the code does not support it. The applier interprets every patch against the root's own child list, whatever position the diff meant (`VDom.PatchesActOnRootList`).
- VDom component state: the diff boxes a map while the applier only accepts a string, so no state patch from the diff takes effect (`VDom.DiffStatePatchInert`). Component lifecycle hooks and `render` are never called by the reconciler and are not modelled.
- VDom.ApplyPatches: an update patch on an empty child list makes the source panic (`last_mut().unwrap()`). The model excludes this with the precondition `Applicable`.
- HtmlParser: `char::is_alphanumeric` is modelled as ASCII letters and digits. Unicode letters outside ASCII are treated as non-alphanumeric.
- HtmlParser: `char::is_whitespace` is modelled with the Unicode White_Space list.
- HtmlParser: attribute names and values are scanned and discarded, as in the source; they are not kept in the model either.
- HtmlParser: `Node::new`, `add_child` and `set_text` are written inline as datatype updates.
- HtmlParser: `Token::Attribute` exists in `parser.rs`, but `next_token` never produces it, and a closing tag `</name` leaves its `>` unconsumed. The model follows the code (`HtmlParser.NextTokenSpec`, `HtmlParser.CloseTagLeavesBracket`).
- Modder: the JSON (de)serialisation and the file reading in `main` are left out.
- TreeShake.TreeShaker: the order in which a node's dependency set is walked is chosen nondeterministically, as hash-set iteration order is unspecified. The result set does not depend on it.
- Ssg.PaginateContent: with `items_per_page == 0` and non-empty content the source loops forever. That case is a precondition rather than a modelled non-termination.
- Ssg: the markdown, metadata, template and file-walking parts of `ssg.rs` are not modelled.
- Maps.CollectValues: the enumeration order of a hash map is unspecified, so only "one value per key in some enumeration" is stated.
- Api: UUIDs are natural numbers supplied by the caller, including the two fresh UUIDs of `Database::new`. The read-write lock and the HTTP routes are left out.
- Sessions: the HTTP layer, the cookie session store and the mutex are left out. Each reply becomes a `Response` value holding the status and the JSON body.
- Sessions.Login: the login time is the parameter `now` rather than a clock reading.
- Sessions.Login: the `User` body of the request contributes only its username, as in the source.
- Cicd: `execute_command` and the rest of `main` are left out, since they spawn processes and sleep.
- Blockchain.NewBlock: the md5 hex digest is the parameter `digest`, and the timestamp is a parameter instead of a clock reading.
- Blockchain.NewBlock: the `u64` index and `u128` timestamp are unbounded naturals.
- Blockchain: the TCP server, its threads and the mutex are not modelled.
- Cdn.Step: the `u32` request counter is an unbounded natural, so its overflow after 2^32 - 1 allowed requests is not modelled. The two readings of `elapsed()` are one instant `now`, given in nanoseconds.
- Cdn.RateLimiter.RateLimit: a window start later than `now` makes `elapsed().unwrap()` panic in the source. The model excludes this with a precondition.
- Cdn.CompressIfNeeded: the gzip encoder is the parameter `gzip`.
- Cdn: `serve_file`, TLS loading and `authorize` are not modelled.
