# novel-prompt-builder services, modelled in Dafny

This project models the three stateless services of novel-prompt-builder. A
"memory" maps an entity name to a `{type, desc}` record. The services are:

- **matcher** (`backend/services/search.py`): `find_matches` lists the memory
  keys that occur in a text. They are ordered by the offset of their first
  occurrence. Ties keep memory order, because Python's sort is stable.
- **merger** (`backend/services/merge.py`):
  - `analyze` sorts every incoming entry into `new`, `update` or `skip`, and
    counts each list.
  - `apply_merge` copies the current memory. It then adds the selected new
    keys and overwrites the selected updates. It reports
    added/updated/skipped counts.
  - `validate_import_data` reports the first malformed entry.
- **prompt assembler** (`backend/services/prompt.py`):
  - `build_augmented_prompt` joins up to three tagged sections with newlines:
    `[MEMORY CONTEXT]`, `[STORY INPUT]` and `[INSTRUCTION]`.
  - `build_extraction_prompt` fills the extraction template with the list of
    types and the story.

Files:

- `strings.dfy` (module `Strings`) holds the Python primitives the services
  use:
  - substring search (`k in text`, `text.index(k)`);
  - `str.strip()` over the characters `str.isspace()` accepts;
  - `str.join`;
  - the position of an element in a sequence, used to state iteration order.
- `models.dfy` (module `Models`) holds the record and the memory. A Python
  dict iterates in insertion order, and that order is observable here. It
  decides ties in `find_matches`, the order of `analyze`'s lists and which
  failure `validate_import_data` reports. So a `Memory` carries its key order
  (`order`) beside its map (`entries`), and `Valid()` ties the two together.
- `search.dfy`, `merge.dfy` and `prompt.dfy` hold one module per service.

How the model is built:

- Each loop of the source is a method with a loop. Each method is proved
  against a specification:
  - `Analyze`, `ApplyMerge` and `BuildAugmentedPrompt` are proved equal to
    the specification functions `Classified`, `MergedAfter` with `Picked`,
    and `AugmentedPrompt` with `MatchedContext`.
  - `CopyOf` is proved equal to its input.
  - `KeysInText` is characterised by which keys it keeps and by their order
    (`FirstSeenOrder`).
  - `SortByFirstIndex` and `InsertionPoint` are characterised by order,
    permutation and stability.
  - `ValidateImportData` is characterised by the first failing entry.
- The properties the services promise are lemmas about those functions.
- The pure helpers that stand for Python builtins (`str.join`, `str.strip`,
  `str.isspace`) and for the source's expressions (`CategoryOf`,
  `EntryError`, the prompt sections) have no contract of their own. Their
  rows in the table name the lemmas that state their properties.
- `build_extraction_prompt` is a single f-string, so it is a function.
- The record field `type` is called `kind`, because `type` is a Dafny
  keyword.

## Model

| member | source | states |
|---|---|---|
| Strings.Contains | backend/services/search.py:26 | `key in text` holds exactly when `key` occurs somewhere in `text` |
| Strings.Index | backend/services/search.py:30 | `text.index(k)` is an offset where `k` starts, and `k` starts at no smaller offset |
| Strings.Find | backend/services/search.py:26-30 | the search returns -1 exactly when `k` starts nowhere at or after `start`; otherwise it returns the least such offset |
| Strings.TrimStartSpec | backend/services/merge.py:138 | left-stripping keeps a suffix that starts with a non-space, and drops only whitespace |
| Strings.TrimEndSpec | backend/services/merge.py:138 | right-stripping keeps a prefix that ends with a non-space, and drops only whitespace |
| Strings.StripSpec | backend/services/prompt.py:53-55 | `s.strip()` is the piece of `s` between its leading and its trailing whitespace: everything cut off before and after it is whitespace, and the piece neither starts nor ends with whitespace; it is empty exactly when `s` is blank |
| Strings.StripCutIsSpace | backend/services/prompt.py:53-55 | everything `s.strip()` cuts off, before and after the piece it keeps, is whitespace |
| Strings.StripEmptyIffBlank | backend/services/merge.py:138 | `not key.strip()` holds exactly when every character of the key is whitespace |
| Strings.StripIdempotent | backend/services/prompt.py:55 | stripping an already stripped string changes nothing |
| Strings.StrippedIsClean | backend/services/prompt.py:60 | a non-blank string stays non-blank after stripping, and stripping it again changes nothing |
| Strings.JoinCons | backend/services/prompt.py:62 | joining a part in front of further parts puts the separator after it |
| Strings.JoinContainsParts | backend/services/prompt.py:62 | every part occurs in `sep.join(parts)` |
| Strings.Join | backend/services/prompt.py:62 | `sep.join(parts)`: `""` for no parts, the part itself for one, and otherwise parts separated by `sep`; its properties are stated by `JoinCons` and `JoinContainsParts` |
| Strings.IsSpace | backend/services/merge.py:138 | the characters `str.isspace()` accepts; used by `TrimStartSpec`, `TrimEndSpec` and `StripSpec` |
| Strings.TrimStart | backend/services/merge.py:138 | `s.lstrip()`; never longer than `s`; its contents are stated by `TrimStartSpec` |
| Strings.TrimEnd | backend/services/merge.py:138 | `s.rstrip()`; never longer than `s`; its contents are stated by `TrimEndSpec` |
| Strings.Strip | backend/services/merge.py:138 | `s.strip()`; its contents are stated by `StripSpec`, `StripEmptyIffBlank` and `StripIdempotent` |
| Strings.FirstSeenOrderDistinct | backend/services/search.py:24-27 | keys listed in increasing position of an ordering never repeat |
| Models.LenIsOrderLength | backend/services/merge.py:115 | `len(d)` equals the number of keys the dict iterates over |
| Search.KeysInText | backend/services/search.py:21-27 | the loop keeps exactly the memory keys that occur in the text; they stay in memory order, so none repeats, and there are no more of them than memory keys |
| Search.InsertionPoint | backend/services/search.py:30 | the insertion point follows every element that starts no later than the new key, and precedes the first element that starts later |
| Search.InsertKeepsElements | backend/services/search.py:30 | inserting adds the key, keeps every other element and repeats nothing |
| Search.InsertRanked | backend/services/search.py:30 | inserting between the elements a key follows and those it precedes keeps the stable order |
| Search.InsertionPointSplits | backend/services/search.py:30 | everything before the insertion point stably precedes the new key, and the key stably precedes everything from that point on |
| Search.RankedIsStableSorted | backend/services/search.py:30 | the stable order means sorted by first offset, with ties in their original order |
| Search.SortByFirstIndex | backend/services/search.py:30 | `matches.sort(key=text.index)` returns a permutation of its input, sorted by first offset, with equal offsets in input order |
| Search.TiesAcrossOrders | backend/services/search.py:24-30 | ties that keep the order of the collected list also keep memory order, since the list was collected in memory order |
| Search.FindMatches | backend/services/search.py:7-32 | empty text or memory gives `[]`; otherwise the result is exactly the memory keys that occur in the text, each once, at most `len(memory)` of them; they are non-decreasing by first offset, and ties keep memory order |
| Merge.ClassifiedStep | backend/services/merge.py:35-62 | visiting one more incoming key appends its item to the list of its own category and to no other list |
| Merge.Classified | backend/services/merge.py:31-62 | one of `analyze`'s three lists after visiting the given incoming keys; stated by `ClassifiedMembers`, `ClassifiedInOrder`, `ClassifiedCounts` and `ClassifiedStep` |
| Merge.ClassifiedMembers | backend/services/merge.py:31-62 | a list holds one item for each incoming key of its category and none for other keys; each item is built from that key's incoming entry |
| Merge.CategoryOf | backend/services/merge.py:35-62 | the category one incoming entry falls in; stated by `CategoryOfCases` |
| Merge.CategoryOfCases | backend/services/merge.py:35-62 | `new` iff the key is absent from `current`; `update` iff present with a different entry; `skip` iff present with the same entry |
| Merge.ItemFor | backend/services/merge.py:37-62 | the list element built for one incoming entry; its fields are stated by `ItemsCarryEntries` |
| Merge.Analyze | backend/services/merge.py:9-70 | the three lists are those one pass over `incoming` produces, and each summary count is the length of its list |
| Merge.AnalyzePartitions | backend/services/merge.py:35-62 | a key is in `new` iff absent from `current`, in `update` iff present with a different type or desc, in `skip` iff present and identical; the lists are pairwise disjoint and cover the incoming keys; keys found only in `current` appear in none |
| Merge.ClassifiedCounts | backend/services/merge.py:31-62 | the three list lengths add up to the number of keys visited |
| Merge.AnalyzeCountsTotal | backend/services/merge.py:64-68 | the three summary counts add up to `len(incoming)` |
| Merge.ClassifiedInOrder | backend/services/merge.py:31 | each list's keys are incoming keys, in incoming iteration order |
| Merge.ItemsCarryEntries | backend/services/merge.py:37-62 | every item carries the incoming type and desc; update items also carry the current values as `old_type`/`old_desc`, and other items carry none |
| Merge.Picked | backend/services/merge.py:106-113 | the incoming keys `apply_merge` adds (or overwrites), in incoming order; its length is `added_count` (or `updated_count`); stated by `PickedMembers` and `PickedBound` |
| Merge.PickedMembers | backend/services/merge.py:106-113 | the keys added (or overwritten) are exactly the incoming keys that are selected and absent from (or present in) `current`; none repeats |
| Merge.PickedBound | backend/services/merge.py:115-116 | added + updated never exceeds the number of incoming keys, so `skipped` is never negative |
| Merge.CopyOf | backend/services/merge.py:92-97 | the copy has the same keys, in the same order, with the same entries |
| Merge.MergedAfterOrder | backend/services/merge.py:102-109 | after each step, the key order is `current`'s order followed by the added keys in incoming order |
| Merge.MergedAfterValid | backend/services/merge.py:102-113 | after each step, the merged dict lists every key exactly once |
| Merge.MergedAfterStepValid | backend/services/merge.py:106-113 | one insertion of a fresh key, or one overwrite of a present key, keeps the dict well formed |
| Merge.AppendKeepsValid | backend/services/merge.py:108 | assigning a key the dict lacks appends it to the iteration order |
| Merge.UpdateKeepsValid | backend/services/merge.py:112 | assigning a key the dict has keeps the iteration order |
| Merge.MergedAfterEntries | backend/services/merge.py:110-113 | a key of `current` carries its incoming entry once it has been visited and selected for update, and its current entry otherwise |
| Merge.MergedAfterInserted | backend/services/merge.py:106-108 | every key not in `current` carries its incoming entry |
| Merge.MergedAfter | backend/services/merge.py:92-113 | the `merged` dict after the first `n` loop steps; stated by `MergedSpec`, `MergedAfterOrder`, `MergedAfterValid`, `MergedAfterEntries` and `MergedAfterInserted` |
| Merge.MergedSpec | backend/services/merge.py:92-113 | the merged keys are `current`'s plus the selected absent incoming keys; a current key takes the incoming entry iff it is incoming and selected for update; added keys carry their incoming entry |
| Merge.ApplyMerge | backend/services/merge.py:73-124 | the merged dict is the one the loop specifies; `added`/`updated` count the picked keys; `added + updated + skipped == len(incoming)` and `skipped >= 0` |
| Merge.AcceptAllMatchesSummary | backend/services/merge.py:102-113 | selecting exactly `analyze`'s `new` and `update` keys makes `added`/`updated` equal to the `new`/`update` counts |
| Merge.ValidateImportData | backend/services/merge.py:127-150 | `(True, None)` iff every entry passes; otherwise `False` with the message of the first failing entry in iteration order |
| Merge.FailureIsReported | backend/services/merge.py:138-148 | a failing entry makes the data invalid, and its message is the one reported |
| Merge.EmptyIsValid | backend/services/merge.py:137-150 | an empty mapping has no failing entry |
| Merge.WhitespaceFieldsPass | backend/services/merge.py:144-148 | a whitespace-only type or desc passes, because only the key is stripped |
| Merge.EntryError | backend/services/merge.py:138-148 | the per-entry checks in source order; which entries fail which check is stated by `EntryErrorCases` |
| Merge.EntryErrorCases | backend/services/merge.py:138-148 | an entry fails the key check iff its key is blank; the `type` check iff the key is not blank and `type` is empty; the `desc` check iff the key is not blank, `type` is non-empty and `desc` is empty; it passes iff none of these holds |
| Merge.Message | backend/services/merge.py:139-148 | the message returned for each failure; its shape is stated by `MessageShape` and `MessageNamesKeyAndField` |
| Merge.MessageNamesKeyAndField | backend/services/merge.py:145-148 | a missing-field message names the entry's key and the missing field |
| Merge.MessageShape | backend/services/merge.py:145-148 | a missing-field message is the fixed head, the key, and the tail naming the field |
| Prompt.MatchedContext | backend/services/prompt.py:38-45 | `matched_entries` after visiting the given matched keys; stated by `MatchedContextKeys`, `MatchedContextOrder` and `MatchedContextStep` |
| Prompt.MatchedContextStep | backend/services/prompt.py:39-45 | visiting one more matched key stores its memory entry; a new key goes last, and a repeated key keeps its place |
| Prompt.MatchedContextKeys | backend/services/prompt.py:38-45 | the context holds exactly the matched keys that are in memory, each once, with its memory entry; matched keys missing from memory are skipped |
| Prompt.MatchedContextOrder | backend/services/prompt.py:39-45 | the context's keys are in the order they first appear among the matched keys |
| Strings.FirstSeenOrderStep | backend/services/prompt.py:39-45 | visiting one more key keeps the first-appearance order of the keys seen so far |
| Strings.FirstSeenOrderAppend | backend/services/prompt.py:39-45 | a key seen for the first time takes the last place in first-appearance order |
| Prompt.InstructionText | backend/services/prompt.py:59-60 | the instruction line; stated by `InstructionTextSpec` |
| Prompt.InstructionTextSpec | backend/services/prompt.py:60 | the instruction line is never blank and has no surrounding whitespace; it is the stripped instruction iff one is given and not blank, and `DEFAULT_INSTRUCTION` otherwise |
| Prompt.DefaultInstructionIsClean | backend/services/prompt.py:8-11 | `DEFAULT_INSTRUCTION` is not blank, and stripping leaves it unchanged |
| Prompt.BuildAugmentedPrompt | backend/services/prompt.py:16-62 | joining the collected parts with newlines gives the context section, then the story section, then the instruction section |
| Prompt.JoinParts | backend/services/prompt.py:34-62 | joining the parts of the optional sections and the instruction with a separator lays the sections end to end; each optional section ends with an empty part |
| Prompt.JoinSection | backend/services/prompt.py:48-50 | a header, a body and an empty part, followed by more parts, join to header, separator, body and two separators |
| Prompt.NoMatchNoContext | backend/services/prompt.py:37-47 | with no matched key in memory, the context is empty |
| Prompt.PromptMemoryPresent | backend/services/prompt.py:47-50 | a matched key that is in memory makes the prompt open with the full memory section |
| Prompt.PromptMemoryAbsent | backend/services/prompt.py:37-50 | with no matched key in memory, the prompt does not begin with `[MEMORY CONTEXT]` |
| Prompt.ContextSection | backend/services/prompt.py:47-50 | the memory section, or nothing; stated by `PromptMemorySection` and `NoMatchNoContext` |
| Prompt.StorySection | backend/services/prompt.py:53-56 | the story section, or nothing; stated by `StorySectionCases` |
| Prompt.AugmentedPrompt | backend/services/prompt.py:34-62 | the prompt as its sections end to end; `BuildAugmentedPrompt` is proved equal to it, and `PromptMemorySection`, `PromptTail` and `PromptWithoutContext` state its properties |
| Prompt.OpeningChar | backend/services/prompt.py:53-60 | the story and instruction sections open differently from the memory header |
| Prompt.PromptMemorySection | backend/services/prompt.py:37-50 | the prompt begins with `[MEMORY CONTEXT]` (and with that header line) iff some matched key is in memory, and then it carries the serialised context |
| Prompt.PromptTail | backend/services/prompt.py:53-62 | the prompt always ends with `[INSTRUCTION]` and the instruction line; for a non-blank story, the story section comes right before it |
| Prompt.StorySectionCases | backend/services/prompt.py:53-56 | the story section is empty for a blank story, and otherwise holds the stripped story |
| Prompt.NoContextPrompt | backend/services/prompt.py:37-62 | with no matched key in memory, the prompt is the story section followed by the instruction section |
| Prompt.PromptWithoutContext | backend/services/prompt.py:37-62 | with no matched key in memory, the prompt is the instruction section alone for a blank story; otherwise it is the story section then the instruction section |
| Prompt.Fill | backend/services/prompt.py:81-144 | the filled template opens with the sentence naming the types and ends with `Story:` and the story verbatim |
| Prompt.FillRules | backend/services/prompt.py:91-134 | the types list also completes the rule on `"type"` and the rule `Extract ALL relevant ... mentioned in the story` |
| Prompt.ExtractionPrompt | backend/services/prompt.py:65-146 | the prompt names the types in its opening sentence and in both rules, and ends with `\n\nStory:\n` followed by the untrimmed story |
| Prompt.ExtractionDefaults | backend/services/prompt.py:76-81 | with no types given, the prompt asks for `character, location, item, event` |
| Prompt.DefaultTypesList | backend/services/prompt.py:13 | the default types joined with `", "` read `character, location, item, event` |
| Prompt.TypesList | backend/services/prompt.py:76-79 | the `types_list` spliced into the template; stated by `DefaultTypesList` and `TypesListNames` |
| Prompt.TypesListNames | backend/services/prompt.py:76-79 | every requested type, or every default type when none is requested, is named in the types list |
| Prompt.DefaultInstruction | backend/services/prompt.py:8-11 | `DEFAULT_INSTRUCTION`, verbatim; stated by `DefaultInstructionIsClean` |
| Prompt.DefaultExtractTypes | backend/services/prompt.py:13 | `DEFAULT_EXTRACT_TYPES`; stated by `DefaultTypesList` |
| Prompt.ExtractTemplate | backend/services/prompt.py:81-144 | the fixed lines of the extraction f-string, verbatim; its spliced parts are stated by `Fill` and `FillRules` |

## Left out

- The HTTP layer `backend/main.py` is not part of this model: routing, static files, error mapping and server start-up are I/O. The request and response declarations of `backend/models.py` contribute only the shape of `MemoryEntry`.
- `json.dumps(matched_entries, indent=2, ensure_ascii=False)` is a library call. It is the parameter `dumps` of `AugmentedPrompt` and `BuildAugmentedPrompt`, and its output is not specified.
- The `isinstance(value, dict)` / `.get("type", "")` duck typing is left out. A memory entry is always a `MemoryEntry`, and a missing field is the empty string, which is how `.get(..., "")` and `validate_import_data` treat it. The same goes for the object-valued entries that `build_augmented_prompt` converts to dicts.
- `validate_import_data` also has a non-dict argument check ("Invalid format. Expected an object with keys."), a non-string key check and a non-object entry check ("Each entry must be an object."). Typing rules these inputs out, so those messages are not modelled. The checks kept run in the source's order: key, then `type`, then `desc`.
- The inputs are Dafny values, so "the inputs are not mutated" holds by construction and is not stated as a property.
- Search.SortByFirstIndex: `list.sort` (Timsort, in place) is modelled as a stable insertion sort that returns a new sequence. Only the builtin's contract is modelled: sorted, permutation and stable.
- Search.FindMatches: on a non-empty memory with the key `""`, `"" in ""` is true in Python, but the early return for an empty text still gives `[]`. The model follows the code here. Two keys can share a first offset (`"Bo"` and `"Bob"` in `"Bob"`). The stable sort then keeps memory order, and the model states that.
- Prompt.ExtractionPrompt: the natural-language body of the template is kept verbatim as lines in `ExtractTemplate`, but only its parameterised parts are specified: the opening sentence, the two rules naming the types, and the ending `Story:` line with the story.
- Prompt.InstructionTextSpec: `DEFAULT_INSTRUCTION` is kept verbatim. It is specified only as non-blank and stripped.
- `str.isspace()` is modelled by the fixed set of Unicode whitespace characters in `Strings.IsSpace`. There is no Unicode database.
