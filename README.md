# AI Nutrition Assistant: a verified model of its core logic

This project is a Dafny model of the parts of the AI Nutrition Assistant that carry logic rather than plumbing:

- **Meal-plan parser** (`MealParser`, `MealPatterns`): the parsing body of `handleSubmit` in `app/components/MealGenerator.tsx`. It turns the text of a model response into a list of meals. The list comes from markdown-table rows or from bullet and numbered lines under Breakfast/Lunch/Dinner headers. When neither finds a meal, a fixed three-meal plan is used. Each meal then gets a description and an even share of the aggregate macros that the nutrition pattern extracts. Every regular expression the parser uses is written out as a string function with JavaScript's matching rules: leftmost start, greedy `\s*`/`\d+`, lazy `.*?`, and `.` never crossing a line terminator.
- **Chat store** (`ChatStorage`): the browser chat history of `app/utils/chatStorage.ts`, as a class whose `stored` field is the list under the storage key.
- **Prompt builders** (`AiService`, `MainPrompt`): `AIService._format_messages` in `services/ai_service.py` and the prompt loop of `generate_response` in `main.py`.
- **Session route** (`AuthMe`, `SizeTokens`): the picture-URL rewrite, the `Cookie`-header reduce and the 401 decision of `app/api/auth/me/route.ts`.
- **Profile picture** (`UserProfile`): the picture-URL rewrite of `app/components/UserProfile.tsx`.
- **Image check** (`ImageService`): `ImageService.validate_image` in `services/image_service.py`.
- **Fitness readings** (`GoogleFit`): the step-count path and the latest-heart-rate `reduce` of `app/services/googleFitService.ts`.

Shared string operations (`Text`) give JavaScript's `trim`, `split`, `join`, `includes` and ASCII case mapping. `Wrappers` holds `Option`.

Loops in the source are methods with loop invariants, proved equal to a fold defined from the end. The fold functions are `TableRun`, `LineRun`, `Body`, `KnownBody` and `CookieMap`. The properties are proved as lemmas about those folds.

In four places the model follows the code where it differs from what the component appears to intend (MealGenerator.tsx:246-249, :131-149, :184-186, :270-273):

- The line strategy does not deduplicate items; only the table strategy does (`MealParser.LineItemsNotDeduplicated`).
- The table strategy can return a meal with an empty name. Rows before the first header row fill the initial meal, which has no name, and the first header row pushes it when it has items (`MealParser.NamelessMealPushed`). So "every meal has a non-empty name" does not hold either.
- The table strategy can return a last meal with no items, when the last header row named a meal but gave no items (`MealParser.TableResultShape`). So "every meal has one to three items" does not hold for the final list.
- The macros are shared out from the figures in force when the submission started, not from the figures matched in this response (see Findings).

## Model

| member | source | states |
|---|---|---|
| Text.Trim | app/components/MealGenerator.tsx:115 | `trim` gives the slice left after dropping white space from both ends: every dropped character is white space and neither end of the result is; it is empty iff the input is all white space |
| Text.TrimIdempotent | app/components/MealGenerator.tsx:223 | trimming an already trimmed line changes nothing, so the line strategy's second `trim` is a no-op |
| Text.Split | app/components/MealGenerator.tsx:115 | `split` on one character gives at least one piece, and no piece holds the separator |
| Text.SplitConcat | app/components/MealGenerator.tsx:115 | splitting `a`, a separator, then `b` gives the pieces of `a` followed by those of `b` |
| Text.SplitNoSeparator | app/api/auth/me/route.ts:23 | text without the separator splits into itself alone |
| Text.SplitFirst | app/api/auth/me/route.ts:23 | the first piece is the text before the first separator; the other pieces split the rest |
| Text.SplitHead | app/api/auth/me/route.ts:23 | the first piece is a prefix that ends at the end of the text or at a separator, and the rest is the split of what follows |
| Text.JoinSplit | app/api/auth/me/route.ts:22 | joining the pieces of a split with the separator gives back the text |
| Text.SplitPieces | app/components/MealGenerator.tsx:162 | splitting on `<br>` and single separator characters gives at least one piece, the first a prefix of the input; no piece holds a separator character or `<br>`; pieces hold only characters of the input |
| Text.PieceSeparatorsShape | app/components/MealGenerator.tsx:162 | there is one separator fewer than pieces, each `<br>` or one separator character |
| Text.SplitPiecesRoundTrip | app/components/MealGenerator.tsx:162 | putting the separators back between the pieces gives back the text |
| Text.ContainsSlice | app/components/MealGenerator.tsx:164 | whatever a string lacks, its slices lack |
| Text.ToLower | app/components/MealGenerator.tsx:230 | `toLowerCase` maps each character by the ASCII case map and keeps the length; no upper-case ASCII letter remains |
| Text.ToUpper | services/ai_service.py:56 | `upper` maps each character by the ASCII case map and keeps the length; no lower-case ASCII letter remains |
| Text.ToLowerIdempotent | app/components/MealGenerator.tsx:230 | lower-casing twice is lower-casing once |
| MealPatterns.HasTableRowIff | app/components/MealGenerator.tsx:127-128 | the table strategy is chosen iff two pipe characters stand on the same line |
| MealPatterns.PipeRowFromCorrect | app/components/MealGenerator.tsx:127-128 | the left-to-right scan finds a pipe-to-pipe match iff a pair of pipes lies on one line |
| MealPatterns.FieldAt | app/components/MealGenerator.tsx:117 | a field matches at `i` iff its label stands there in any ASCII case, followed by a digit and, for grams, by `g` after the digit run; its value is the number the whole digit run spells, and it stays on one line |
| MealPatterns.FindField | app/components/MealGenerator.tsx:117 | the lazy `.*?` takes the first field match at or after the index on the same line; none means no field matches anywhere on the rest of that line |
| MealPatterns.NutritionAtSound | app/components/MealGenerator.tsx:117 | a match starting at `p` is four fields in order on one line, each the first of its kind after the previous one, and its figures are their values |
| MealPatterns.MatchNutritionSound | app/components/MealGenerator.tsx:117-125 | figures are taken only from Calories, Protein, Carbs and Fat fields in this order on one line, at the leftmost start where they occur, with the values those fields spell |
| MealPatterns.NutritionAtComplete | app/components/MealGenerator.tsx:117 | whenever four fields stand in order on one line from `a`, the match starting at `a` succeeds |
| MealPatterns.MatchNutritionComplete | app/components/MealGenerator.tsx:117-125 | whenever Calories, Protein, Carbs and Fat fields stand in order on one line anywhere in the text, the figures are matched |
| MealPatterns.FindFieldReaches | app/components/MealGenerator.tsx:117 | a field further along the same line is found, at it or before it |
| MealPatterns.CellCloseFrom | app/components/MealGenerator.tsx:145 | the lazy bold text stops at the first place on the line where `**`, white space and a pipe follow; none means no such place on the rest of the line |
| MealPatterns.BoldCellOpen | app/components/MealGenerator.tsx:145 | a bold cell opens at `p` iff a pipe stands there followed by white space and `**`; the bold text starts after that `**` |
| MealPatterns.OpensAtUnique | app/components/MealGenerator.tsx:145 | a bold cell opens at a pipe in one place at most |
| MealPatterns.HeaderFoundAt | app/components/MealGenerator.tsx:145 | when a bold cell opens at the pipe at `q` and its bold text can close on the line, the match starting at `q` with the shortest bold text is JavaScript's |
| MealPatterns.HeaderNotAt | app/components/MealGenerator.tsx:145 | otherwise no header match has its pipe at `q` |
| MealPatterns.HeaderNameFromCorrect | app/components/MealGenerator.tsx:145 | the scan from `q` finds a header iff the header pattern matches from `q` on, and then returns the bold text of the leftmost, shortest match |
| MealPatterns.HeaderNameIff | app/components/MealGenerator.tsx:145-151 | a table line is a header row iff pipe, white space, `**`, text on one line, `**`, white space and pipe occur in it; the name is the bold text of JavaScript's match |
| MealPatterns.PlainCellEnd | app/components/MealGenerator.tsx:160 | the item text ends at the first place on the line followed by white space and a pipe; none means no such place on the rest of the line |
| MealPatterns.CellAfterBoldAtStart | app/components/MealGenerator.tsx:160 | with the bold text stopped at `k0`, the next cell's text is the shortest one the lazy group can take, and there is none iff no cell follows |
| MealPatterns.CellAfterBoldStep | app/components/MealGenerator.tsx:160 | past a character that ends no line, the bold text may stop at the same places |
| MealPatterns.CellAfterBoldHere | app/components/MealGenerator.tsx:160 | when a whole cell follows the bold text stopped at `k0`, that stop and the cell's first end are JavaScript's choice |
| MealPatterns.CellAfterBoldNone | app/components/MealGenerator.tsx:160 | at a line end with no cell after it, the bold text cannot stop anywhere further |
| MealPatterns.CellAfterBoldShift | app/components/MealGenerator.tsx:160 | inside the line, with no cell after a stop at `k0`, the possible stops from `k0` are those from `k0 + 1` |
| MealPatterns.ItemCellAfterBoldCorrect | app/components/MealGenerator.tsx:160 | the search for the end of the bold text finds a stop iff one admits a following cell, and then the shortest bold text with the shortest item text |
| MealPatterns.ItemCellFromCorrect | app/components/MealGenerator.tsx:160 | the scan from `q` finds an item cell iff the item pattern matches from `q` on, and then returns the item text of JavaScript's match |
| MealPatterns.HeaderItemCellIff | app/components/MealGenerator.tsx:160-161 | a header row has an item cell iff, after the bold cell, white space, text on one line, white space and a pipe follow; the items are the text of JavaScript's match |
| MealPatterns.StarsFrom | app/components/MealGenerator.tsx:226 | the lazy `**…**` closes at the first `**` on the line; none means no `**` on the rest of the line |
| MealPatterns.BoldFromCorrect | app/components/MealGenerator.tsx:226 | the scan from `q` finds a bold match iff `**`, text on one line and `**` occur from `q` on, and returns the text and the whole match of the leftmost, shortest one |
| MealPatterns.MealWordPrefix | app/components/MealGenerator.tsx:226 | the line starts with a meal word, ignoring case, iff there is a result; it is the first of Breakfast, Lunch, Dinner, Snack, Dessert that matches, in the line's own case |
| MealPatterns.MealHeaderIff | app/components/MealGenerator.tsx:226-227 | a line is a header iff it holds `**…**` on one line or starts with a meal word; the name is the text of the leftmost bold match, the whole match when that text is empty, else the meal word |
| MealPatterns.StripBullet | app/components/MealGenerator.tsx:236 | a leading `•` or `-` and the white space after it are removed and the rest kept as a suffix; a line without a bullet is unchanged |
| MealPatterns.StripOrdinal | app/components/MealGenerator.tsx:237 | all leading digits, then a `.` or `)` if one follows, then white space are removed and the rest kept as a suffix; a line not starting with a digit is unchanged |
| MealPatterns.RemovePipes | app/components/MealGenerator.tsx:238 | no pipe is left and every other character is kept as often as it occurs; text without a pipe is unchanged |
| MealPatterns.RemovePipesConcat | app/components/MealGenerator.tsx:238 | pipes are removed piece by piece, so the kept characters stay in order |
| MealPatterns.CleanItem | app/components/MealGenerator.tsx:235-239 | the cleaned item holds no pipe and has no white space at either end; a line with no bullet, no ordinal and no pipe is only trimmed |
| MealPatterns.CleanItemStrips | app/components/MealGenerator.tsx:235-239 | the cleaned item is the suffix of the line left once the bullet and then the ordinal are stripped, with its pipes removed and trimmed |
| MealParser.Dedupe | app/components/MealGenerator.tsx:166 | `[...new Set(xs)]` has no repeats and the same members as `xs` |
| MealParser.DedupeExtends | app/components/MealGenerator.tsx:166 | deduplicating more input only appends to the deduplicated list |
| MealParser.Take3 | app/components/MealGenerator.tsx:249 | `slice(0, 3)` keeps a list of three or fewer whole, and the first three of a longer one |
| MealParser.Merge | app/components/MealGenerator.tsx:166 | the merge is the first three of the deduplicated concatenation: no repeats, at most three; old items stay in front; a full list never changes; below three it holds every candidate |
| MealParser.Lines | app/components/MealGenerator.tsx:115 | the lines are exactly the non-blank trimmed pieces of the text cut at `\n`; each is non-empty, trimmed and free of `\n` |
| MealParser.OneLine | app/components/MealGenerator.tsx:115 | a text without newline gives itself trimmed, or nothing when blank |
| MealParser.LinesConcat | app/components/MealGenerator.tsx:115 | the lines of two texts joined by a newline are those of the first, then those of the second |
| MealParser.TrimmedNonEmpty | app/components/MealGenerator.tsx:163-164 | the result holds exactly the non-empty trims of the pieces; each is made only of input characters |
| MealParser.TrimmedNonEmptyConcat | app/components/MealGenerator.tsx:163-164 | the trimmed pieces of a concatenation are those of each part, in order |
| MealParser.HeaderCellItems | app/components/MealGenerator.tsx:162-164 | the items are exactly the non-empty, non-noise trims of the cell's pieces; each is clean: trimmed, no comma or pipe |
| MealParser.DropNoise | app/components/MealGenerator.tsx:164 | exactly the non-empty items without `---`, `Meal` or `Food Type` are kept |
| MealParser.DropNoiseConcat | app/components/MealGenerator.tsx:164 | the filter keeps order: filtering a concatenation filters each part in turn |
| MealParser.RowParts | app/components/MealGenerator.tsx:169-171 | the cells kept are exactly the trimmed pieces between pipes that are not empty, a lone `•` or noise; none holds a pipe |
| MealParser.KeepParts | app/components/MealGenerator.tsx:171 | exactly the cells that are not empty, a lone `•` or noise are kept |
| MealParser.KeepPartsConcat | app/components/MealGenerator.tsx:171 | the filter keeps order: filtering a concatenation filters each part in turn |
| MealParser.SubItems | app/components/MealGenerator.tsx:174-176 | the sub-items are exactly the non-empty trims of the cell cut at `<br>`, `,`, `•`; those of a cell without a pipe are clean |
| MealParser.AddPart | app/components/MealGenerator.tsx:173-180 | one `forEach` turn merges the cell's sub-items into the items, sets the description to their join and changes nothing else; old items stay in front |
| MealParser.AddParts | app/components/MealGenerator.tsx:173-180 | a continuation row keeps the meal's name, keeps at most three distinct clean items, and leaves a full meal unchanged |
| MealParser.AddCells | app/components/MealGenerator.tsx:173-180 | the `forEach` loop computes the fold `AddParts` |
| MealParser.TableStep | app/components/MealGenerator.tsx:142-182 | a skipped row changes nothing; a header row pushes the open meal iff it has items and opens a new one named by the header capture, with no description, zero macros, and as items the merge of its item cell's items when that cell is non-empty (none otherwise); another row only adds its cells to the open meal; the invariant holds: every pushed meal has one to three distinct clean items |
| MealParser.TableRun | app/components/MealGenerator.tsx:142-182 | the table loop keeps that invariant over any lines |
| MealParser.TableRunKeepsMeals | app/components/MealGenerator.tsx:142-182 | meals already pushed are never changed or dropped by later lines |
| MealParser.TableRunNoHeader | app/components/MealGenerator.tsx:145-181 | lines without a header row push nothing and keep the open meal's name |
| MealParser.TableResultShape | app/components/MealGenerator.tsx:140-186 | table meals have at most three distinct clean items; every meal but the last has one; a last meal without items has a non-blank name; the pushed meals come first, and the open meal is added last iff its trimmed name is non-blank |
| MealParser.TableRunConcat | app/components/MealGenerator.tsx:142 | running the table loop over two runs of lines in turn is running it over their concatenation |
| MealParser.HeaderPushesFirstMeal | app/components/MealGenerator.tsx:146-149 | a continuation row that yields items, then a header row, leaves exactly the first row's meal pushed |
| MealParser.NamelessMealPushed | app/components/MealGenerator.tsx:131-149 | when the first row is a continuation row that yields items and the second a header row, the table's first meal is that row's meal, with an empty name |
| MealParser.TableNoHeaderNoMeals | app/components/MealGenerator.tsx:140-186 | a table without a header row gives no meals |
| MealParser.TableStrategy | app/components/MealGenerator.tsx:131-186 | the table loop returns `TableResult` of the lines |
| MealParser.FindSlot | app/components/MealGenerator.tsx:229-233 | `findIndex` gives the first slot whose name equals or occurs in the header, ignoring case, or -1 when none does |
| MealParser.LineSubItems | app/components/MealGenerator.tsx:242-244 | the sub-items are exactly the non-empty trims of the item cut at `<br>`, `,`, `•`; each is clean and holds no `•` |
| MealParser.FillSlot | app/components/MealGenerator.tsx:246-249 | the current slot's items become the first three of its items followed by the line's sub-items, old items in front; the other slots and the index are unchanged; the slot invariant holds |
| MealParser.LineStep | app/components/MealGenerator.tsx:222-251 | a blank line changes nothing; a header sets the current slot to `FindSlot` of its name; an item line keeps the index and changes nothing without a slot or with a full one; the slot invariant holds |
| MealParser.LineRun | app/components/MealGenerator.tsx:222-252 | the line loop keeps the slot invariant over any lines |
| MealParser.NonEmptyMeals | app/components/MealGenerator.tsx:254 | the filter keeps exactly the slots holding an item |
| MealParser.FilterSlots | app/components/MealGenerator.tsx:254 | the filtered slots stay in Breakfast, Lunch, Dinner order |
| MealParser.LineResultShape | app/components/MealGenerator.tsx:190-254 | line meals are at most three named slots, in slot order, each with one to three clean items without `•` |
| MealParser.ItemsWithoutSlotDropped | app/components/MealGenerator.tsx:233-234 | with no current slot, item lines change nothing |
| MealParser.NoHeaderNoMeals | app/components/MealGenerator.tsx:220-254 | text without a header line gives the line strategy no meals |
| MealParser.UnmatchedHeaderDropsItems | app/components/MealGenerator.tsx:229-234 | after a header naming no slot, item lines are dropped until the next header |
| MealParser.RunConcat | app/components/MealGenerator.tsx:222 | running the loop over `a + b` is running it over `a`, then over `b` |
| MealParser.LineItemsNotDeduplicated | app/components/MealGenerator.tsx:246-249 | while they fit, an item line's pieces are appended as they are, repeats included |
| MealParser.LineStrategy | app/components/MealGenerator.tsx:187-255 | the loop over the three slots in an array returns `LineResult` of the lines |
| MealParser.RoundDiv | app/components/MealGenerator.tsx:270-273 | `Math.round(a / n)` is the nearest integer to `a / n`, halves rounded up |
| MealParser.ParsedBounded | app/components/MealGenerator.tsx:114-265 | the meal list is never empty, and no meal holds more than three items |
| MealParser.MealPlanFinished | app/components/MealGenerator.tsx:267-274 | post-processing keeps names, items and count; it sets each description to the joined items and each macro to the rounded even share |
| MealParser.StrategyChoice | app/components/MealGenerator.tsx:127-128 | the table strategy runs iff some line holds two pipe characters; otherwise the line strategy runs |
| MealParser.FallbackIsDefault | app/components/MealGenerator.tsx:259-265 | when no strategy finds a meal, the result is the three default meals, finished like any other |
| MealParser.ParseMealPlan | app/components/MealGenerator.tsx:111-274 | parsing and post-processing give `MealPlanOf` the text, a finished plan |
| MealParser.StaleFiguresOnFirstSubmission | app/components/MealGenerator.tsx:270-273 | with the figures of a fresh component every meal gets 0 calories; with the figures just matched every meal gets at least 1 |
| MealParser.MealGenerator.constructor | app/components/MealGenerator.tsx:28-33 | the nutrition state starts at zeros |
| MealParser.MealGenerator.HandleSubmit | app/components/MealGenerator.tsx:53-125 | a submission returns the finished plan built with the figures in force before it, and leaves the matched figures, or zeros, for the next one |
| MealParser.MealGenerator.HandleSubmitIntended | app/components/MealGenerator.tsx:117-125 | the corrected submission shares out the figures matched in this response |
| ChatStorage.FindIndex | app/utils/chatStorage.ts:47 | `findIndex` gives the first chat with the id, or -1 iff there is none |
| ChatStorage.Find | app/utils/chatStorage.ts:40 | `find` gives a chat with the id, or nothing iff there is none |
| ChatStorage.FindIsFirst | app/utils/chatStorage.ts:38-41 | `find` and `findIndex` agree on the first chat with the id |
| ChatStorage.WithMessage | app/utils/chatStorage.ts:51-61 | the message is appended to that chat's messages and its `updatedAt` set; nothing else changes |
| ChatStorage.WithMealPlan | app/utils/chatStorage.ts:109-118 | the plan is attached to that chat and its `updatedAt` set; nothing else changes |
| ChatStorage.Recent | app/utils/chatStorage.ts:87-88 | `slice(0, 10)` keeps the first ten, or all when there are fewer |
| ChatStorage.Upserted | app/utils/chatStorage.ts:67-90 | an existing chat is replaced in place, keeping its messages and creation time; a new chat goes to the front with no messages; at most ten are kept |
| ChatStorage.Deleted | app/utils/chatStorage.ts:96 | exactly the chats with other ids remain; an absent id changes nothing |
| ChatStorage.DeletedConcat | app/utils/chatStorage.ts:96 | deleting keeps the order of the remaining chats |
| ChatStorage.UpsertedKeepsUnique | app/utils/chatStorage.ts:71-85 | `saveChat` keeps chat ids unique |
| ChatStorage.DeletedKeepsUnique | app/utils/chatStorage.ts:96 | `deleteChat` keeps chat ids unique |
| ChatStorage.ChatStore.constructor | app/utils/chatStorage.ts:34-35 | an unwritten key reads as no chats |
| ChatStorage.ChatStore.GetChats | app/utils/chatStorage.ts:32-36 | outside a browser there are no chats; inside, the stored list |
| ChatStorage.ChatStore.GetChat | app/utils/chatStorage.ts:38-41 | the first chat with the id, or nothing iff there is none |
| ChatStorage.ChatStore.GetMealPlanFromChat | app/utils/chatStorage.ts:124-127 | the plan of the first chat with the id, nothing when there is no such chat |
| ChatStorage.ChatStore.AddMessageToChat | app/utils/chatStorage.ts:43-65 | with no browser or an unknown id nothing is written; otherwise the message is appended to the first chat with the id and that chat returned; ids stay unique, the ten-chat bound holds |
| ChatStorage.ChatStore.SaveChat | app/utils/chatStorage.ts:67-91 | stores and returns `Upserted`: at most ten chats, ids unique; with no browser, returns nothing and writes nothing |
| ChatStorage.ChatStore.DeleteChat | app/utils/chatStorage.ts:93-99 | stores and returns `Deleted`; ids stay unique; the list never grows |
| ChatStorage.ChatStore.SaveMealPlanToChat | app/utils/chatStorage.ts:101-122 | with no browser or an unknown id nothing is written; otherwise the plan is attached and the chat returned |
| AiService.FormatMessages | services/ai_service.py:52-60 | the loop builds `Body` of the messages followed by the cue `ASSISTANT: ` |
| AiService.BodyConcat | services/ai_service.py:55-58 | the prompt of a concatenation is the concatenation of the prompts, so message order is kept |
| AiService.BodyOne | services/ai_service.py:56-58 | a message of any role contributes `ROLE: content` and a blank line |
| AiService.FormatConcat | services/ai_service.py:52-60 | formatting distributes over concatenated message lists |
| AiService.PromptEndsWithCue | services/ai_service.py:59 | the prompt ends with the cue, and an empty list gives the cue alone |
| MainPrompt.BuildPrompt | main.py:93-104 | the loop builds `KnownBody` of the messages followed by the cue |
| MainPrompt.PrefixIsUpperRole | main.py:97-102 | each of the three fixed prefixes is the upper-cased role and `: ` |
| MainPrompt.KnownOnly | main.py:97-102 | exactly the messages with a known role are kept |
| MainPrompt.KnownOnlyConcat | main.py:97-102 | the filter keeps order: filtering a concatenation filters each part in turn |
| MainPrompt.KnownOnlyOfKnown | main.py:97-102 | a list of known messages is kept whole |
| MainPrompt.KnownBodySnoc | main.py:94-102 | a message at the end adds its entry at the end |
| MainPrompt.UnknownRolesSkipped | main.py:97-102 | messages of any other role add nothing: the prompt is that of the known messages alone |
| MainPrompt.KnownBodyConcat | main.py:94-102 | the prompt of a concatenation is the concatenation of the prompts |
| MainPrompt.BuiltPromptEndsWithCue | main.py:104 | the prompt ends with the cue, and an empty list gives the cue alone |
| MainPrompt.BuildersAgreeOnKnownRoles | main.py:93-104 | when every role is system, user or assistant, this builder and `_format_messages` write the same prompt |
| SizeTokens.TokenLen | app/components/UserProfile.tsx:67 | a size token starts exactly where `=s` and a digit do; it spans `=s`, the whole digit run, and `-c` exactly when `-c` follows |
| SizeTokens.NoTokenUnchanged | app/components/UserProfile.tsx:67 | text without a size token is left unchanged by the replacement |
| SizeTokens.PrefixUntouched | app/api/auth/me/route.ts:13 | a prefix without `=` passes through the replacement unchanged |
| SizeTokens.Size96IsToken | app/api/auth/me/route.ts:14 | `=s96-c` is itself exactly one whole size token |
| SizeTokens.ReplacedIsFixed | app/components/UserProfile.tsx:67 | replacing every size token by `=s96-c` twice is the same as once |
| UserProfile.ProfilePictureUrl | app/components/UserProfile.tsx:64-70 | an empty or non-Google URL is returned as given; a Google URL has every size token replaced by `=s96-c` |
| UserProfile.UntokenedUrlUnchanged | app/components/UserProfile.tsx:66-67 | a URL without a size token comes back unchanged |
| UserProfile.ProfilePictureUrlIdempotent | app/components/UserProfile.tsx:64-70 | rewriting a rewritten URL changes nothing more |
| AuthMe.UpgradeScheme | app/api/auth/me/route.ts:8-10 | an `http://` URL becomes `https://` with the rest kept; other URLs are kept |
| AuthMe.RoutePictureUrl | app/api/auth/me/route.ts:5-18 | nothing iff the URL is missing or empty; a Google URL loses every size token and ends with `=s96-c`; others are only upgraded |
| AuthMe.HttpUpgraded | app/api/auth/me/route.ts:8-15 | an `http://` picture URL is always served as `https://`, Google-hosted or not |
| AuthMe.OtherUrlsKept | app/api/auth/me/route.ts:8-17 | a URL neither `http://` nor Google-hosted is returned as given |
| AuthMe.HostKept | app/api/auth/me/route.ts:12 | appending text to a Google URL keeps it Google-hosted |
| AuthMe.RoutePictureUrlNotIdempotent | app/api/auth/me/route.ts:12-14 | removing tokens in one pass can splice a new token together, so applying the rewrite twice differs from once |
| AuthMe.CookieEntry | app/api/auth/me/route.ts:23-24 | the name is the trimmed entry before its first `=`, the value what follows up to the next `=`; both are non-empty and free of `=`; there is none iff the first `=` is missing, at the start, or followed by `=` or the end |
| AuthMe.FirstTwoPieces | app/api/auth/me/route.ts:23 | the first two pieces cut at `=` lie before and after the first `=`; both are non-empty iff the text has a first `=` that is neither at the start nor followed by `=` or the end |
| AuthMe.CookieMapIsLastValue | app/api/auth/me/route.ts:22-28 | the record never has `__proto__`; for any other name it holds exactly the value of the last valid entry with that name |
| AuthMe.CookieValuesClean | app/api/auth/me/route.ts:22-28 | every stored name and value is non-empty, and values hold no `=` or `;` |
| AuthMe.ParseCookies | app/api/auth/me/route.ts:21-28 | the reduce loop builds `CookieMap` of the `;`-separated entries |
| AuthMe.Get | app/api/auth/me/route.ts:20-32 | the route decides on the cookies parsed from the header, an absent header read as empty |
| AuthMe.NotAuthenticatedIffNoToken | app/api/auth/me/route.ts:30-42 | 401 iff no entry gives `google_access_token` a value; otherwise the last such value is the token used |
| ImageService.ValidateImage | services/image_service.py:20-36 | valid iff the extension is allowed, the size is within 5 MB and the image decodes; the first failing check picks the message |
| ImageService.UpperCaseExtensionsAllowed | services/image_service.py:23 | `.JPG`, `.JPEG` and `.PNG` are accepted, since the name is lower-cased first |
| ImageService.SizeBoundary | services/image_service.py:26-28 | exactly 5 MB passes; one byte more fails with the size message |
| ImageService.MissingSizeSkipsCheck | services/image_service.py:27 | a file without a size attribute is judged as if small enough |
| GoogleFit.First | app/services/googleFitService.ts:42 | `?.[0]` is the first element, or nothing for a missing or empty list |
| GoogleFit.Steps | app/services/googleFitService.ts:42 | the step count is the value at the path, or 0 when any link is missing |
| GoogleFit.LaterIrreflexive | app/services/googleFitService.ts:58 | string `>` is irreflexive |
| GoogleFit.LaterAsymmetric | app/services/googleFitService.ts:58 | string `>` is asymmetric |
| GoogleFit.LaterTotal | app/services/googleFitService.ts:58 | of two different strings one is greater |
| GoogleFit.LaterTransitive | app/services/googleFitService.ts:58 | string `>` is transitive |
| GoogleFit.Pick | app/services/googleFitService.ts:55-59 | the reducer keeps its choice unless both points have a time and the new one is later |
| GoogleFit.ReduceFromMember | app/services/googleFitService.ts:55-59 | the reduce returns its start or one of the points it visits |
| GoogleFit.LatestIsMember | app/services/googleFitService.ts:55-59 | the chosen point is one of the points |
| GoogleFit.TimelessFirstChosen | app/services/googleFitService.ts:56-57 | a first point without a time is chosen whatever follows |
| GoogleFit.ReduceKeepsEarliestLatest | app/services/googleFitService.ts:55-59 | the reduce keeps the earliest of the points with the greatest time seen so far |
| GoogleFit.LatestIsEarliestGreatest | app/services/googleFitService.ts:55-59 | when the first point has a time, the choice is the earliest point with the greatest time |
| GoogleFit.HeartRate | app/services/googleFitService.ts:53-62 | no reading for an empty list; otherwise the first `fpVal` of the chosen point, nothing when it is missing or 0 |

## Left out

- The user interface, the form state, the `fetch` to the local model service and its error `alert`, logging, and `onMealGenerated`/`onClose`: they carry no parsing logic. The response body is a parameter.
- `handleSubmit`'s call to `saveMealPlanToChat` after parsing: the store operation itself is modelled as `ChatStorage.ChatStore.SaveMealPlanToChat`, but the two are not connected.
- Text.ToLower, Text.ToUpper: only ASCII letters change case; JavaScript's and Python's full Unicode case mapping and the `/i` flag's case folding are not modelled. For the file-extension test this is exact, because the only non-ASCII character that lower-cases to an ASCII letter (the Kelvin sign) cannot matter once the extension must match exactly.
- Strings are sequences of Unicode scalar values, while JavaScript strings are UTF-16 units. String comparison and `.` on astral characters differ in order and length accounting.
- MealPatterns.DigitsValue: `parseInt` beyond the range of exact doubles is not modelled; digits read as an unbounded integer.
- GoogleFit.HeartRate: `fpVal` is a real, not a double, so NaN (falsy, like 0) is not modelled.
- GoogleFit.Pick: the `!latest` branch is left out, because the reduce starts from `points[0]` and a point object is never falsy.
- `Date.now()` and `crypto.randomUUID()` are parameters. The JSON round trip through `localStorage` is the identity, and there is a single browser tab.
- `ImageService.image_to_base64` and the outer `except` of `validate_image` (a file object without a `name`): they handle I/O failures. Whether the image library opens and verifies the bytes is a boolean of the upload.
- The Google OAuth and Fitness API calls, the 401 response's `Set-Cookie` header, and the `catch` branches: network behaviour outside the logic.

## Findings

| source | as written | input that shows it | evidently intended | confidence | as-written member | corrected member |
|---|---|---|---|---|---|---|
| app/components/MealGenerator.tsx:270-273 | the macros are divided from `nutritionInfo` as captured by the render that created `handleSubmit`, so the figures matched at lines 117-125 are not used until a later submission | a first submission whose response contains `Calories: 1800 Protein: 120g Carbs: 200g Fat: 60g` gives every meal 0 calories | each meal gets the rounded share of the figures matched in this response | medium, not executed | MealParser.StaleFiguresOnFirstSubmission | MealParser.MealGenerator.HandleSubmitIntended |
