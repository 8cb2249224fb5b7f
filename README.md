# telegram-text-entities-filler, modelled in Dafny

The library turns a plain text plus a list of Telegram formatting entities
(bold, italic, underline, strikethrough, code, pre, text link, mention, text
mention, url, hashtag, bot command, cashtag, email, phone number) into
Markdown-style text escaped with the MarkdownV2 reserved characters. Its main
operation, `fillMarkdownEntitiesMarkup`, works in three stages (the module
also exports the three escapers `escapeCommonChars`, `escapeLinkChars` and
`escapeCodeChars`):

1. The entities are grouped by offset. The groups are taken from the highest
   offset to the lowest. Inside a group, the code treats the first-listed
   entity as the outermost one and processes it last; the others are
   processed in reverse input order. The code assumes that a group is listed
   outer-first (no member longer than one listed before it); then the
   innermost (shortest) member comes first.
2. `processEntity` cuts each entity's extract out of the working text. The
   innermost entity of a group escapes its whole extract. Each enclosing
   entity keeps the previous wrapped text as it is and escapes only the
   remainder. The result is wrapped in the entity's tags, italic and
   underline get a carriage return on both sides, and the wrapped text
   replaces the extract. A running `offset` tracks how much longer the
   group's region has become. Every wrapped text is recorded.
3. `escapeNotInEntities` finds every recorded wrapped text in the final
   text. It drops the spans that lie inside a span with different content
   and replaces the others by a split marker. Each fragment between the
   markers that escaping would change is then replaced, at its first
   occurrence, by its escaped form.

The project is organised as follows:

- `utils.dfy` (`Utils`): the string helpers. These are the assumed semantics
  of the repository's `./utils` module and the JavaScript built-ins the code
  calls.
- `escaping.dfy` (`Escaping`): the three escaping functions.
- `entities.dfy` (`Entities`): entities, the escaping dispatch and the
  wrapping.
- `grouping.dfy` (`Grouping`): the grouping and the processing order.
- `compositor.dfy` (`Compositor`): `processEntity`, the loops of
  `fillMarkdownEntitiesMarkup`, and the functions that specify them.
- `residual.dfy` (`Residual`): `escapeNotInEntities`, its three loops and
  their specification.
- `rendering.dfy` (`Rendering`): an independent reference renderer, in
  which each nesting level wraps its inner rendering plus its own escaped
  remainder. It is proved equal to the offset-bookkeeping compositor for
  entities that are listed outer-first, nest only at a shared offset and
  otherwise do not overlap. Entities nested across different offsets are
  not rendered as a nest by the code (`Scenarios.CrossOffsetNest`).
- `scenarios.dfy` (`Scenarios`): worked instances on small texts.

The loops of the source are methods (`Compositor.ProcessGroup`,
`Compositor.ComposeAll`, `Residual.LocateAll`, `Residual.MarkAll`,
`Residual.EscapeAll`). Each is proved equal to a recursive specification
function, and the properties are proved about those functions.

Where the code departs from what it evidently intends, the model follows the code:

- A `mention` gets common escaping. Its first branch in the dispatch
  shadows the later link-escaping branch.
- The url of a text link is put into the close tag unescaped.
- Residual escaping replaces a fragment at its first occurrence anywhere in
  the text, not where the fragment stands (`Scenarios.FragmentFoundInsideMarkup`).
- A ')' in link text comes out as a backslash, a backslash and the ')'. In
  MarkdownV2 that reads as an escaped backslash followed by a bare ')'
  (`Escaping.LinkEscapingOfParenthesis`).
- Entities nested across different offsets (bold over "ab", italic over
  "b") are not nested in the output: the outer extract keeps its original
  length and so counts the inner markup characters
  (`Scenarios.CrossOffsetNest`).

## Model

| member | source | states |
|---|---|---|
| Utils.EscapeCharsRoundTrip | src/index.js:8-30 | escaping with any character set is undone by reading a backslash-escaped character back, whatever backslashes the text already held: no information is lost |
| Utils.EscapeCharsIdentity | src/index.js:8-30 | escaping leaves a text unchanged if and only if none of its characters is in the escaped set |
| Utils.EscapeCharsAppend | src/index.js:8-30 | escaping distributes over concatenation, so escaping a text's tail alone escapes exactly that part |
| Utils.EscapeChars | src/index.js:8-30 | escaping never shortens a text and leaves the empty text empty (the assumed `escapeChars`) |
| Utils.LastIndexOf | src/index.js:100 | the position found is -1 or holds the searched character |
| Utils.LastIndexOfIsLast | src/index.js:100 | no occurrence of the character lies after the position found; -1 means it does not occur |
| Utils.FindFrom | src/index.js:203-204 | the literal search returns the first position at or after the start where the pattern occurs, and None exactly when it occurs nowhere |
| Utils.ReplaceFirst | src/index.js:222-233 | a replacement that finds the pattern changes the length by the replacement's length minus the pattern's; a text without the pattern is returned unchanged |
| Utils.ReplaceFirstAt | src/index.js:222-233 | when the pattern occurs at a position and nowhere before it, the replacement is spliced in exactly there |
| Utils.Split | src/index.js:226 | splitting always yields at least one fragment |
| Utils.SplitFragmentsFree | src/index.js:226 | the text is cut at every separator: no fragment holds the separator anywhere |
| Utils.SplitJoin | src/index.js:226 | splitting loses nothing: the fragments joined with the separator give the text back |
| Utils.Substr | src/index.js:128 | substr returns the exact window when it lies inside the text, and is never longer than the text |
| Utils.RewriteAt | src/index.js:152-157 | a rewrite inside the text replaces exactly the addressed window and keeps the text before it |
| Utils.InsertAt | src/index.js:102 | an insertion inside the text puts the inserted string exactly before the position |
| Escaping.CommonEscaping | src/index.js:8-28 | common escaping is lossless and changes exactly the texts holding one of the 18 markup characters |
| Escaping.EscapeCommonChars | src/index.js:8-28 | common escaping never shortens a text, and returns a text without any of the 18 markup characters unchanged |
| Escaping.EscapeCodeChars | src/index.js:29 | code escaping never shortens a text, and returns a text without '`' and '\\' unchanged |
| Escaping.EscapeLinkChars | src/index.js:30 | link escaping never shortens a text, and returns a text with no character of either set unchanged |
| Escaping.CodeEscapingTouchesOnlyBacktickAndBackslash | src/index.js:29 | code escaping is lossless and changes exactly the texts holding '`' or '\\' |
| Escaping.LinkEscaping | src/index.js:30 | link escaping (')' and '\\' first, then the common set) is undone by reading back both sets in reverse order, and changes exactly the texts holding a character of either set |
| Escaping.EscapeCharsLonger | src/index.js:8-30 | an escaping that changes a text makes it strictly longer |
| Escaping.LinkEscapingOfParenthesis | src/index.js:30 | a ')' in link text comes out as two backslashes and the parenthesis: the first pass's backslash is kept and the parenthesis is escaped again |
| Entities.EscapeMarkdownTextByEntity | src/index.js:32-68 | the escaped text is never shorter than the input, and empty input stays empty |
| Entities.EscapeDispatch | src/index.js:32-68 | the formatting kinds, mention (its link branch is shadowed) and the entity kinds url, hashtag, bot_command, cashtag, email and phone_number get common escaping; code and pre get code escaping; text_link and text_mention get link escaping; a type name the converter does not recognise is returned as it is |
| Entities.WrapTextWithMarkdownEntity | src/index.js:70-108 | the wrapped text is never shorter than the input |
| Entities.WrapShape | src/index.js:70-108 | pre is fenced with the language line only when a non-empty language is given, and ignores the trailing-break rule; the other tagged kinds wrap the text in their tags, with the close tag put before a final line break; the untagged kinds return the text unchanged |
| Entities.WrapTagTable | src/index.js:79-98 | the exact open and close tags of every kind: bold, italic, underline, strikethrough, code, a text link with its url ("undefined" when missing), a mention or text mention linking to the text after its first character, and none for url, hashtag, bot_command, cashtag, email, phone_number and an unrecognised type name |
| Entities.Tags | src/index.js:79-98 | every tag pair chosen by the code has a non-empty open tag and a non-empty close tag |
| Entities.Markup | src/index.js:160-168 | kinds other than italic and underline record the wrapped text as it is |
| Entities.MarkupGuarded | src/index.js:165-168 | italic and underline markup is the wrapped text with a carriage return on both sides |
| Grouping.WithOffset | src/index.js:111 | a bucket holds exactly the input entities at that offset |
| Grouping.WithOffsetFirst | src/index.js:111-113 | a bucket keeps input order: its first member, `entitiesList[0]`, is the first-listed entity at that offset |
| Grouping.WithoutOffset | src/index.js:111 | what is left holds only entities at other offsets, and shrinks when the offset is present |
| Grouping.MaxOffset | src/index.js:111-114 | the maximum offset is one that is present and no entity's offset is larger |
| Grouping.Groups | src/index.js:111-114 | every group is non-empty and holds only input entities |
| Grouping.Reverse | src/index.js:124 | the reversal has the same length and holds the elements in mirrored positions |
| Grouping.Chain | src/index.js:124 | a group's processing order has the group's length and ends with the group's first-listed member |
| Grouping.GroupsAreBuckets | src/index.js:111 | every group is the bucket of all input entities at its offset, in input order |
| Grouping.GroupsDescend | src/index.js:111-114 | the groups come in strictly decreasing offset order |
| Grouping.GroupsCover | src/index.js:111-114 | every offset present in the input has its group |
| Grouping.GroupsPartition | src/index.js:111-114 | the groups together are a permutation of the input entities |
| Grouping.ChainOrder | src/index.js:186-189 | in a group's processing order the first-listed member comes last and the others come in reverse input order |
| Grouping.ChainMultiset | src/index.js:186-189 | a group's processing order is a permutation of the group |
| Grouping.EveryEntityProcessedOnce | src/index.js:111-124 | the processing orders of all groups, concatenated, are a permutation of the input: every entity is processed exactly once |
| Grouping.ChainOfOuterFirstGroup | src/index.js:123-124 | a group listed outer-first (no member longer than an earlier one, equal lengths allowed) is processed with lengths never decreasing, from the shortest member to the longest |
| Grouping.ChainNested | src/index.js:123-124 | on outer-first input every group is processed innermost first and ends with its first-listed member |
| Compositor.ProcessEntity | src/index.js:126-184 | the running offset never decreases and the text never gets shorter |
| Compositor.EscapeEntityText | src/index.js:130-158 | the escaped extract is never shorter than the extract |
| Compositor.ProcessEntityKeepsPrefix | src/index.js:173-178 | processEntity leaves the text in front of the entity's offset unchanged |
| Compositor.ProcessEntityGuarded | src/index.js:165-171 | the wrapped text of an italic or underline entity starts and ends with a carriage return |
| Compositor.ProcessEntityInBounds | src/index.js:126-184 | when the extract lies inside the text it is replaced by the wrapped text, and the new offset is the wrapped text's growth over the entity's length |
| Compositor.InnermostWrapped | src/index.js:128-137 | the innermost entity of a group has its whole extract escaped by its kind, then wrapped |
| Compositor.EnclosingWrapped | src/index.js:139-163 | an enclosing entity whose extract starts with the previous wrapped text keeps that text as it is and escapes only the remainder |
| Compositor.EnclosedEscape | src/index.js:139-158 | after a previous wrapped text, the escaped extract is that text followed by the escaped remainder |
| Compositor.RewriteTail | src/index.js:152-157 | rewriting everything after a prefix gives the prefix followed by the replacement |
| Compositor.ProcessChain | src/index.js:186-189 | processing a group's members in turn pushes one record per member and never shortens the text |
| Compositor.Compose | src/index.js:110-190 | grouping then processing every group never shortens the text; its records are one per entity (Compositor.OneRecordPerEntity) and, for input listed outer-first and nested only at a shared offset, its text is the reference rendering (Rendering.NestedMarkup) |
| Compositor.ComposeGroups | src/index.js:118-190 | processing the groups in turn never shortens the text |
| Compositor.FillMarkup | src/index.js:110-193 | the converted text is never shorter than the input |
| Compositor.StepInnermost | src/index.js:126-184 | the innermost entity's step, with offset 0, replaces its extract in place by the markup of its escaped text |
| Compositor.ChainRecords | src/index.js:171-189 | processing a group pushes exactly one record per member, in processing order, every italic or underline record guarded |
| Compositor.ComposeRecords | src/index.js:118-190 | the groups push their records one group after the other, in processing order |
| Compositor.OneRecordPerEntity | src/index.js:110-191 | there is one record per input entity, as a permutation of the input, and every italic or underline record is guarded |
| Compositor.ChainKeepsPrefix | src/index.js:186-189 | a group whose members start at or after a position leaves the text before it unchanged |
| Compositor.ComposeKeepsPrefix | src/index.js:118-190 | groups at offsets at or after a position leave the text before it unchanged |
| Compositor.ComposeLeavesLowerText | src/index.js:111-190 | because groups are taken from the highest offset down, each group starts from a text whose part in front of the previous group is still the input text |
| Compositor.FillWithoutEntities | src/index.js:110-193 | without entities, a text free of the split marker comes out common-escaped as a whole |
| Compositor.SingleGroup | src/index.js:111-124 | one entity forms one group that is processed on its own |
| Compositor.LoneEntity | src/index.js:126-189 | a group of one entity replaces its extract by the markup of its escaped text and records that markup |
| Compositor.FillWholeTextEntity | src/index.js:110-193 | an entity spanning the whole text yields exactly that entity's markup of its escaped text; residual escaping leaves it alone |
| Compositor.ProcessGroup | src/index.js:118-190 | one iteration of the outer loop (the other members in reverse listing order, then the first-listed member) yields the text and records of the group's specification |
| Compositor.ComposeAll | src/index.js:118-190 | the loop over the groups yields the text and the records of the specification |
| Compositor.FillMarkdownEntitiesMarkup | src/index.js:110-193 | the result is the residual escaping of the composited text and records |
| Residual.LocateSpans | src/index.js:202-212 | at most one span is located per record |
| Residual.LocateSpansFound | src/index.js:202-212 | every located span lies inside the text, holds its string, and is the first occurrence of that string |
| Residual.LocateSpansComplete | src/index.js:202-212 | every record whose wrapped text occurs in the text yields the span of its first occurrence |
| Residual.KeepOutermostMembers | src/index.js:216-220 | a span survives the filter if and only if no located span with different content contains it |
| Residual.KeepOutermost | src/index.js:216-220 | every kept span is a located span that no located span with different content contains |
| Residual.MarkSpans | src/index.js:221-224 | marking with spans none of whose strings occurs in the text is the identity; the marking of located spans is stated by Residual.MarkSpansInPlace |
| Residual.MarkSpansInPlace | src/index.js:221-224 | spans that are their strings' first occurrences, listed from the highest position down without overlap, are each replaced in place: the marker takes exactly the last span's region, and the text below every span is kept |
| Residual.EscapeFragments | src/index.js:228-233 | escaping the fragments never shortens the text |
| Residual.ResidualEscape | src/index.js:195-236 | residual escaping never shortens the text |
| Residual.UnchangedFragmentsKeepText | src/index.js:228-233 | fragments that escaping leaves unchanged never alter the text |
| Residual.ResidualWithoutRecords | src/index.js:195-236 | with no records, a text free of the split marker is common-escaped as a whole |
| Residual.WholeTextRecord | src/index.js:195-236 | a text that is exactly one record's wrapped text comes back unchanged |
| Residual.LeadingRecord | src/index.js:195-236 | a text starting with a record's wrapped text keeps that part; its rest is the one fragment, escaped at its first occurrence anywhere in the text |
| Residual.LeadingRecordInPlace | src/index.js:195-236 | when the rest is first found where it stands, the result is the wrapped text followed by the common-escaped rest |
| Residual.MarkerSplit | src/index.js:226 | a text that starts with the marker and has no other marker splits into the empty fragment and the rest |
| Residual.LocateAll | src/index.js:202-212 | the first loop collects the spans of the specification |
| Residual.MarkAll | src/index.js:222-224 | the second loop equals Residual.MarkSpans: each kept span's string is replaced, at its first occurrence in the text marked so far, by the marker |
| Residual.EscapeAll | src/index.js:228-233 | the third loop, which skips empty and unchanged fragments, escapes the fragments as the specification does |
| Residual.EscapeNotInEntities | src/index.js:195-236 | the result is the residual escaping of the text and records |
| Rendering.ChainTail | src/index.js:139-184 | the enclosing members of a group, processed after the inner ones left their markup at the group's offset, produce the reference rendering of the nest between the untouched text before it and the text after the outermost extract |
| Rendering.ChainRenders | src/index.js:119-189 | a group nested at one offset and inside the text replaces its outermost extract by the reference nest rendering and leaves the surrounding text unchanged |
| Rendering.RenderChainAppend | src/index.js:119-189 | text after a nest's segment passes through its rendering |
| Rendering.RenderPrefix | src/index.js:118-190 | the rendering of laid-out groups depends only on the text they cover |
| Rendering.ComposeRenders | src/index.js:118-190 | processing non-overlapping, internally nested groups in turn gives their reference rendering |
| Rendering.NestedMarkup | src/index.js:110-191 | for entities listed outer-first (equal lengths allowed) that nest only at a shared offset and otherwise do not overlap, the composited text equals the reference rendering of every group in place |
| Scenarios.PlainUnescaped | src/index.js:8-28 | common escaping leaves letters and spaces alone |
| Scenarios.HelloFill | src/index.js:110-193 | a bold "Hello" in "Hello world" becomes "**Hello** world" |
| Scenarios.BoldAroundItalic | src/index.js:110-191 | bold around italic at the text's start renders as "**", the guarded italic, the rest of the bold text, "**", then the untouched tail |
| Scenarios.FragmentFoundInsideMarkup | src/index.js:228-233 | in ".." with the first dot bold, the second dot is first found inside the bold markup "**\\.**", so that escaped dot is escaped again and the second dot stays bare |
| Scenarios.CrossOffsetNest | src/index.js:126-189 | with bold over "ab" and italic over "b", the italic is wrapped first and the bold extract, still two characters, takes "a" and the italic's opening carriage return: the bold closes inside the italic markup, giving "**a\r**" followed by "*b*\r" |

## Left out

- The lodash calls are modelled by what they compute. `_.groupBy` is keyed by offset. Its integer keys are enumerated in ascending order, then reversed, so groups are taken from the highest offset down.
- The repository's `./utils` module (`escapeChars`, `rewriteTextAtPosition`, `insertTextAtPosition`) is not part of this model. The definitions in `utils.dfy` state the semantics assumed for it: one left-to-right escaping pass, clipped rewriting and clipped insertion.
- `escapeStr` and the regular-expression match are modelled as literal first-occurrence search. Escaping every regular-expression metacharacter makes the pattern match its text literally.
- Replacement patterns such as `$&` in the replacement text of `String.prototype.replace` are not modelled. The replacement is taken literally.
- The split marker `[splitKeyword]` occurring in the input text is computed as the code does (`Utils.Split`, `Residual.MarkSpans` and `Utils.ReplaceFirst` treat it literally), but no residual-escaping property is claimed for a text holding it.
- Offsets and lengths are character indices in a `seq<char>`. UTF-16 code units and surrogate pairs are not modelled.
- Input whose entities reach past the end of the text is modelled with the clipping of `substr` and of the rewriting helper. No property is claimed for it.
- Rendering.NestedMarkup: requires entities at different offsets not to overlap, because on such input the code does not produce a nest: the enclosing entity's extract keeps its original length and so counts the inner entity's markup characters, and the outer close tag lands inside the inner markup (`Scenarios.CrossOffsetNest` exhibits it). The model computes such input as the code does; no rendering property is claimed for it.
- Rendering.NestedMarkup: states the text before residual escaping. Residual escaping after it is covered by the Residual lemmas, which follow the code's first-occurrence search rather than a position-exact splice.
- Residual.MarkSpans: the in-place marking is proved for spans listed from the highest position down without overlapping (Residual.MarkSpansInPlace); for spans in another order, each step is stated only as a first-occurrence replacement (Residual.MarkSpansStep).
- Residual.ResidualEscape: fragment escaping is proved for a leading record followed by one fragment (Residual.LeadingRecord, Residual.LeadingRecordInPlace) and for the text without records; no exact result is stated for other layouts, and Residual.EscapeNotInEntities, proved equal to it, inherits the gap.
- Compositor.ProcessEntity: computes `accumOffset` as the growth by escaping plus the growth by wrapping. This equals the code's sum, which in the enclosing branch adds the escaped remainder's growth: the clipped rewrite makes the two equal. Its contract states only that the offset never decreases; the exact delta is in Compositor.ProcessEntityInBounds.
