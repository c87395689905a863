# Annotation pipeline of the digital navigator, in Dafny

This project models the text and offset algorithms of the navigator's
keyword-annotation pipeline, with proofs about them. An annotation ("datum") is a text and a list of
`(start, end, class)` entities. A stored datum also carries a map from
keyword to status: EXTRACTED, ADDED, CONFIRMED or REJECTED. The modelled parts are:

- reconciliation of stored and freshly extracted annotations
  (`jsonl_common.py`): keyword normalisation, re-anchoring a datum on a new
  text, the status-aware union and the per-character priority sweep of the
  merge, recording user deletions as REJECTED, and filtering them out;
- the segmentation and punctuation rewriting of the tokenizer
  (`cunning_tokenizer.py`): sentence extraction with offsets, bucketing of
  sorted entities into sentences, and the semicolon/comma/slash splitters
  that insert flagged spaces;
- entity preprocessing (`entities_processor.py`): empty-entity filtering,
  length-preserving token casting, entity splitting, class voting, the
  offset remap across inserted spaces and the sentence rebuild;
- BIO decoding of model predictions and the annotated view (`jsonl.py`);
- the small decision and parse functions: the update decision, the document
  needle parser and result assembly, the label list, the duplicate graph,
  mapping and clusters, and the regex passes of the text normaliser.

Python exceptions are values of `Outcomes.Result` (`Err(KeyError)`,
`Err(IndexError)`, ...). Python dictionaries whose insertion order matters
are association lists (`Dicts`). `re.split` with a capturing group and
`re.sub` are explicit scanners over a small pattern language (`Regex`).
Python slicing, `lower`, `strip`, `rstrip` and `count` are in `PyStr`. The modules and files are:

| module | file | source |
|---|---|---|
| Outcomes | outcomes.dfy | exceptions as results |
| PyStr | pystr.dfy | Python string operations |
| Regex | regex.dfy | `re.split`, `re.sub` |
| Spans | spans.dfy | entities, datums, stable sort by start |
| Dicts | dicts.dfy | insertion-ordered dictionaries, `max(d, key=d.get)` |
| JsonlCommon, JsonlMerge, JsonlRejected | jsonl_common.dfy, merge.dfy, rejected.dfy | `dt_nav/processes/ner/jsonl_common.py` |
| TokenizerSplit, TokenizerSegment, TokenizerBuckets | tokenizer_split.dfy, tokenizer_segment.dfy, tokenizer_buckets.dfy | `dt_nav/nlp/preprocess/cunning_tokenizer.py` |
| EntitiesProcessor, EntitiesOffsets | entities_processor.dfy, entities_offsets.dfy | `dt_nav/nlp/preprocess/entities_processor.py` |
| Jsonl | jsonl.dfy | `dt_nav/utils/jsonl.py` |
| ProcessDocuments | process_documents.dfy | `dt_nav/processes/ner/process_documents.py` |
| DocumentsCommon | documents_common.dfy | `dt_nav/processes/documents/common/documents_common.py` |
| ModelCommon | model_common.dfy | `dt_nav/processes/ner/model_common.py` |
| Dupes | dupes.dfy | `dt_nav/nlp/dupes/dupes.py` |
| Normalizer | normalizer.dfy | `dt_nav/nlp/preprocess/normalizer.py` |

## Model

| member | source | states |
|---|---|---|
| Outcomes.EachSpec | dt_nav/nlp/preprocess/entities_processor.py:50-52 | A per-item loop over a batch succeeds exactly when every item does, and then it holds each item's own result in order; when it fails, it fails as some item does. |
| PyStr.StripSlice | dt_nav/processes/ner/jsonl_common.py:28 | `strip()` returns a slice of the string between a whitespace prefix and a whitespace suffix, and the result neither starts nor ends with whitespace. |
| PyStr.RStrip | dt_nav/nlp/preprocess/entities_processor.py:259 | `rstrip()` is a prefix of the string, the rest is whitespace, and the prefix does not end with whitespace. |
| PyStr.LowerStripIdempotent | dt_nav/processes/ner/jsonl_common.py:28 | Lower-casing and then stripping a string that is already lower-cased and stripped gives the same string. |
| PyStr.StripIdempotent | dt_nav/nlp/preprocess/normalizer.py:82 | Stripping a stripped string changes nothing. |
| PyStr.Slice | dt_nav/processes/ner/jsonl_common.py:67 | `s[i:j]` never fails, and for bounds in order inside the string it is the ordinary slice. |
| PyStr.SliceResolved | dt_nav/processes/ner/jsonl_common.py:129 | A non-empty Python slice is the ordinary slice between its resolved bounds: a negative bound counts from the end, and bounds are clamped to the string. |
| PyStr.OmitAppend | dt_nav/nlp/preprocess/normalizer.py:72-79 | Deleting a set of characters commutes with concatenation. This is the measure under which `fix_text` changes only blanks. |
| Regex.SplitConcat | dt_nav/nlp/preprocess/cunning_tokenizer.py:67 | The pieces of `re.split` with a capturing group, joined back together, give the split text. |
| Regex.SplitSingle | dt_nav/nlp/preprocess/cunning_tokenizer.py:26-28 | `re.split` returns a single piece exactly when the pattern matches nowhere in the text. |
| Regex.SubKeepsLacking | dt_nav/nlp/preprocess/normalizer.py:73-75 | If neither the text nor the replacement contains a character, the result of `re.sub` does not contain it either. |
| Regex.SubNoPair | dt_nav/nlp/preprocess/normalizer.py:76-78 | `re.sub` creates no adjacent pair `a b` when the replacement has none and no two adjacent emitted pieces join into one. |
| Regex.SubOmitPattern | dt_nav/nlp/preprocess/normalizer.py:74-78 | When the pattern matches only characters of a set and the replacement is made of them, every character outside the set survives `re.sub` in order. |
| Spans.SortByStart | dt_nav/processes/ner/jsonl_common.py:81 | `sorted(entities, key=lambda e: e[0])` returns a list ordered by start that is a permutation of the input. Among entities with the same start, it keeps the input order (stability). |
| Spans.SortByStartMembers | dt_nav/processes/ner/jsonl_common.py:248 | Sorting by start neither adds nor loses an entity. |
| Spans.SortSeparated | dt_nav/processes/ner/jsonl_common.py:173 | Non-empty entities that pairwise share no character are laid out left to right once sorted: each one ends at or before the start of the next. |
| Dicts.Assign | dt_nav/processes/ner/jsonl_common.py:69-70 | `d[k] = v` keeps the keys distinct. It keeps the position of an existing key and appends a new key last. Afterwards `k` reads `v`, every other key reads as before, and the keys are the old ones plus `k`. |
| Dicts.Get | dt_nav/processes/ner/jsonl_common.py:68 | `d.get(k, default)` gives the stored value of a present key, and the default for an absent one. |
| Dicts.ArgMax | dt_nav/processes/ner/jsonl_common.py:73 | `max(d, key=d.get)` returns the first key in insertion order that has the largest value. |
| JsonlCommon.FixKw | dt_nav/processes/ner/jsonl_common.py:17-28 | The keyword is a slice of the lower-cased text with only whitespace cut from both ends, and it neither starts nor ends with whitespace. |
| JsonlCommon.FixKwIdempotent | dt_nav/processes/ner/jsonl_common.py:17-28 | Normalising a keyword twice is normalising it once. |
| JsonlCommon.FirstOccurrence | dt_nav/processes/ner/jsonl_common.py:66-70 | The first entity with a given keyword is absent exactly when no entity has that keyword. When it is present, it is an entity of the list with that keyword. |
| JsonlCommon.CountClassesFirstClass | dt_nav/processes/ner/jsonl_common.py:66-70 | Every vote stays at 1 because `classes.get(c, 1)` is never incremented. A keyword's class table exists exactly when the keyword occurs, and it starts with the class of the keyword's first occurrence. |
| JsonlCommon.ChosenClassIsFirst | dt_nav/processes/ner/jsonl_common.py:66-73 | The class table has a row for each keyword of the datum. For every row, `max` chooses the class of that keyword's first occurrence in source order. |
| JsonlCommon.Reanchor | dt_nav/processes/ner/jsonl_common.py:74-76 | Each located start becomes one entity whose end is the start plus the keyword's length and whose class is the chosen class. |
| JsonlCommon.ReanchorAllSpec | dt_nav/processes/ner/jsonl_common.py:72-76 | An entity is produced by the re-anchoring loop exactly when it is a located occurrence of some row's keyword. |
| JsonlCommon.UpdateByText | dt_nav/processes/ner/jsonl_common.py:37-82 | The result has the target text and entities sorted by start. Its status keys are exactly the source's keywords, and each status is copied from the source or defaults to EXTRACTED. Its entities are exactly the occurrences found in the lower-cased target text, each of keyword length and carrying the class of the keyword's first occurrence. |
| JsonlMerge.Appended | dt_nav/processes/ner/jsonl_common.py:128-143 | The union appends exactly the source entities whose keyword status is neither EXTRACTED nor missing and that are not already target entities. |
| JsonlMerge.MergedStatus | dt_nav/processes/ner/jsonl_common.py:125-142 | The merged status has the target's keywords plus the keywords of source entities that also occur identically in the target. Such a keyword becomes CONFIRMED when its source status is ADDED or CONFIRMED and REJECTED when it is REJECTED. Every other keyword keeps the target's status. |
| JsonlMerge.UnionStatusClosed | dt_nav/processes/ner/jsonl_common.py:128-142 | The same facts for the union loop run from any intermediate status map. |
| JsonlMerge.EmptySourceUnion | dt_nav/processes/ner/jsonl_common.py:124-143 | A source with no entities leaves the target's entities and status as they were. |
| JsonlMerge.Priority | dt_nav/processes/ner/jsonl_common.py:85-90 | Priorities lie between 1 and 4, and 4 belongs to CONFIRMED alone. |
| JsonlMerge.Covering | dt_nav/processes/ner/jsonl_common.py:145-153 | `entities_by_index[j]` holds exactly the entities that cover `j`, in list order. |
| JsonlMerge.Alive | dt_nav/processes/ner/jsonl_common.py:159 | The competitors at an index are exactly the covering entities not yet discarded, in the same order. |
| JsonlMerge.Priorities | dt_nav/processes/ner/jsonl_common.py:161-166 | The sort keys exist exactly when every competitor's keyword is in the status map, which is a hard lookup. When they exist, there is one key per competitor, in order. |
| JsonlMerge.ArgMaxFirstBest | dt_nav/processes/ner/jsonl_common.py:161-168 | The first maximum of the keys is what a stable sort by descending priority puts first: the earliest competitor of highest priority. |
| JsonlMerge.WinnerOf | dt_nav/processes/ner/jsonl_common.py:160-168 | A lone competitor wins without a lookup. Otherwise the lookup fails, with KeyError only, exactly when some competitor's keyword has no status; when it succeeds, the winner is the earliest competitor of highest priority. |
| JsonlMerge.Step | dt_nav/processes/ner/jsonl_common.py:157-170 | One iteration as written. An uncovered index changes nothing. IndexError occurs exactly when every covering entity is already discarded. Otherwise the winner is added to the kept set and the other competitors are discarded, but nothing leaves the kept set. |
| JsonlMerge.StepKept | dt_nav/processes/ner/jsonl_common.py:157-170 | A successful iteration keeps every earlier kept entity and every discarded one. After a covered index, some kept entity covers that index. |
| JsonlMerge.Sweep | dt_nav/processes/ner/jsonl_common.py:154-170 | The sweep fails only with IndexError or KeyError. It keeps kept entities and discarded ones, and every index it passes is covered by a kept entity. |
| JsonlMerge.CoveredInRange | dt_nav/processes/ner/jsonl_common.py:154 | Every covered index lies between the smallest start and the largest end, so sweeping that range visits the sorted covered indices in order. |
| JsonlMerge.KeptEntities | dt_nav/processes/ner/jsonl_common.py:171-175 | The returned entities are non-empty entities of the union, and every character that a union entity covers is covered by one of them. |
| JsonlMerge.MergeEntities | dt_nav/processes/ner/jsonl_common.py:93-175 | The merge as written fails with AssertionError exactly when the texts differ. On success it keeps the target text and the merged status, and its entities are sorted and non-empty. Each entity is a target entity or a non-skipped source entity, and every character the union covers is still covered. |
| JsonlMerge.MergeWithStatus | dt_nav/processes/ner/jsonl_common.py:178-200 | Because the source is re-anchored first when the texts differ, the text assertion never fails. The result has the target's text, sorted entities and the merged status. Every returned entity is non-empty and comes from the target or the re-anchored source. Every character covered by an entity of either is covered by a returned entity. |
| JsonlMerge.SweepKeyError | dt_nav/processes/ner/jsonl_common.py:143-165 | When a source entity appended by the union has no status entry and competes at some index, the merge fails with KeyError. |
| JsonlMerge.KeyErrorAbc | dt_nav/processes/ner/jsonl_common.py:128-165 | The text "abc" with "ab" EXTRACTED in the target and "bc" ADDED in the source is such an input. |
| JsonlMerge.MergeSweepOk | dt_nav/processes/ner/jsonl_common.py:171-175 | A successful sweep makes the merge return the kept entities, sorted by start, with the merged status. |
| JsonlMerge.SweepOverlap | dt_nav/processes/ner/jsonl_common.py:157-170 | As written, the merge can succeed with two overlapping entities in its result. |
| JsonlMerge.SweepIndexError | dt_nav/processes/ner/jsonl_common.py:157-168 | As written, the merge can fail with IndexError at an index whose only covering entity was discarded earlier. |
| JsonlMerge.AbcOverlap | dt_nav/processes/ner/jsonl_common.py:157-170 | On "abc" with two extracted (target) entities, "ab" EXTRACTED and "bc" CONFIRMED, merged with an empty stored datum, the result keeps both overlapping spans. |
| JsonlMerge.AbcIndexError | dt_nav/processes/ner/jsonl_common.py:157-168 | On "abc" with two extracted (target) entities, "ab" CONFIRMED and "bc" EXTRACTED, merged with an empty stored datum, the merge fails with IndexError. |
| JsonlMerge.StepResolved | dt_nav/processes/ner/jsonl_common.py:157-170 | The repaired iteration skips an index whose covering entities are all discarded, and it also removes the losers from the kept set. Its only failure is the KeyError of the lookup. |
| JsonlMerge.ResolveKept | dt_nav/processes/ner/jsonl_common.py:168-170 | Resolving an index keeps the kept entities valid and never both kept and discarded. |
| JsonlMerge.ResolveUnique | dt_nav/processes/ner/jsonl_common.py:157-170 | After an index is resolved, at most one entity covering it is still kept. |
| JsonlMerge.SweepResolved | dt_nav/processes/ner/jsonl_common.py:157-170 | The repaired sweep fails only with KeyError, and it leaves every index it has passed resolved. |
| JsonlMerge.ResolvedApart | dt_nav/processes/ner/jsonl_common.py:157-170 | After a complete repaired sweep, no two kept entities share a character. |
| JsonlMerge.ResolvedEntities | dt_nav/processes/ner/jsonl_common.py:171-175 | The sorted result of a repaired sweep is laid out left to right and consists of non-empty entities of the union. |
| JsonlMerge.MergeEntitiesResolved | dt_nav/processes/ner/jsonl_common.py:93-175 | The repaired merge fails with AssertionError exactly when the texts differ, and otherwise only with KeyError. On success it keeps the text and the merged status, and its entities are sorted, pairwise non-overlapping and non-empty, each from the target or a non-skipped source entity. |
| JsonlMerge.MergeWithStatusResolved | dt_nav/processes/ner/jsonl_common.py:178-200 | The repaired top-level merge fails only with KeyError, and it returns the target text with non-overlapping entities. |
| JsonlRejected.KeysInOrder | dt_nav/processes/ner/jsonl_common.py:225-232 | The keys of `group_list_by` are exactly the entities' keywords, each once, in first-occurrence order. |
| JsonlRejected.WithKey | dt_nav/processes/ner/jsonl_common.py:225-243 | A group holds exactly the entities with that keyword, in order. |
| JsonlRejected.Rejections | dt_nav/processes/ner/jsonl_common.py:228-244 | The loop fails with KeyError exactly when some keyword has no source status. Otherwise it adds exactly the source entities whose keyword the user removed, and marks exactly those keywords REJECTED. A keyword counts as removed when its status is not ADDED and no target entity has it. |
| JsonlRejected.AddRejected | dt_nav/processes/ner/jsonl_common.py:203-249 | It fails with AssertionError exactly when the texts differ, and with KeyError exactly when some source keyword has no source status. On success it keeps the text and sorts the entities. Its entities are the target's plus the source occurrences of removed keywords. Its status is the target's, with exactly the removed keywords set to REJECTED. |
| JsonlRejected.RejectionsFail | dt_nav/processes/ner/jsonl_common.py:232-233 | The hard status lookup fails exactly when some source entity's keyword is missing from the source status. |
| JsonlRejected.KeepLive | dt_nav/processes/ner/jsonl_common.py:265-270 | The kept entities are exactly those whose keyword status is not REJECTED, in order. A keyword without a status is a KeyError. |
| JsonlRejected.LiveStatus | dt_nav/processes/ner/jsonl_common.py:271-275 | The status map loses exactly its REJECTED entries, and the remaining values are unchanged. |
| JsonlRejected.FilterRejected | dt_nav/processes/ner/jsonl_common.py:252-276 | It fails with KeyError exactly when an entity's keyword has no status. Otherwise it drops exactly the REJECTED entities and status entries, keeps the text, and keeps a sorted list sorted. |
| JsonlRejected.FilterRejectedIdempotent | dt_nav/processes/ner/jsonl_common.py:252-276 | Filtering twice is filtering once. |
| JsonlRejected.AddThenFilter | dt_nav/processes/ner/jsonl_common.py:203-276 | Filtering the result of `add_rejected_entities_from_source` leaves only target entities: everything it added carries a REJECTED keyword. |
| TokenizerSplit.EnglishTokenChars | dt_nav/nlp/preprocess/cunning_tokenizer.py:22-23 | A token is English exactly when none of its characters lies in а-я or А-Я. Because ё and Ё lie outside both ranges, they do not count. |
| TokenizerSplit.SplitOnChars | dt_nav/nlp/preprocess/cunning_tokenizer.py:25-67 | A one-character-class split produces two or more pieces exactly when the token contains a character of the class. |
| TokenizerSplit.SplitBySlash | dt_nav/nlp/preprocess/cunning_tokenizer.py:25-42 | The slash split returns None when there is no '/'. A returned split joins back to the token, has at least two pieces, has no numeric piece, and its English pieces, counting the '/' delimiters, are at least half of the non-separator pieces. A refusal on a token containing '/' has a numeric piece or too few English pieces. |
| TokenizerSplit.SplitByComma | dt_nav/nlp/preprocess/cunning_tokenizer.py:44-64 | The comma split returns None without a comma and always splits with more than 6 commas. Otherwise it splits exactly when the English-share test or the word-count test holds. A split joins back to the token. |
| TokenizerSplit.SplitBySemi | dt_nav/nlp/preprocess/cunning_tokenizer.py:66-67 | The split always joins back to the token, and it has two or more pieces exactly when the token contains ';' or a newline. |
| TokenizerSplit.Rewrite | dt_nav/nlp/preprocess/cunning_tokenizer.py:196-212 | Rewriting one word keeps its non-inserted text. A whitespace word is copied unchanged. Every inserted piece is a single space. |
| TokenizerSplit.Pass | dt_nav/nlp/preprocess/cunning_tokenizer.py:195-214 | One splitter pass keeps the text obtained by deleting the inserted pieces, and keeps every inserted piece a single space. |
| TokenizerSplit.FixPunctuationWithData | dt_nav/nlp/preprocess/cunning_tokenizer.py:192-215 | After the semicolon, comma and slash passes, in that order, deleting the flagged pieces gives back the input text exactly, and every flagged piece is one space. |
| TokenizerSplit.JoinedLength | dt_nav/nlp/preprocess/cunning_tokenizer.py:217-218 | The joined text is longer than the kept text by exactly the number of inserted pieces. |
| TokenizerSplit.FixPunctuation | dt_nav/nlp/preprocess/cunning_tokenizer.py:217-218 | `fix_punctuation` returns the text lengthened by one character per inserted space. |
| TokenizerSegment.SentencesByDotLaid | dt_nav/nlp/preprocess/cunning_tokenizer.py:132-138 | The kept pieces of the split on `.[ \n]`, `\n{3,}` and `!?` lie in the text at their offsets, in order and disjoint, and none consists only of whitespace and periods. |
| TokenizerSegment.TrimTail | dt_nav/nlp/preprocess/cunning_tokenizer.py:83-84 | Trimming keeps a prefix of the lines, the last kept line is not blank, and every dropped line is blank. |
| TokenizerSegment.EnumsByPunctLaid | dt_nav/nlp/preprocess/cunning_tokenizer.py:77-106 | The segments of a located sentence lie inside it, at their offsets, in order and disjoint. |
| TokenizerSegment.EnumsByPunctColon | dt_nav/nlp/preprocess/cunning_tokenizer.py:95-103 | A line matching `^[А-Я].*:\s*$` begins a segment: no segment strictly contains the offset where the line starts. |
| TokenizerSegment.ByLength | dt_nav/nlp/preprocess/cunning_tokenizer.py:108-127 | A segment whose non-blank lines average more than 55 characters becomes its non-blank lines, and any other segment stays whole. The mean is compared as `sum > 55 * count`. |
| TokenizerSegment.ByLengthLaid | dt_nav/nlp/preprocess/cunning_tokenizer.py:120-124 | The lines cut from a located segment lie inside it at their offsets, in order and disjoint. |
| TokenizerSegment.NonEmptySents | dt_nav/nlp/preprocess/cunning_tokenizer.py:148 | The final filter keeps exactly the non-empty segments, in order. |
| TokenizerSegment.ExtractSentences | dt_nav/nlp/preprocess/cunning_tokenizer.py:129-150 | Every sentence `(o, s)` is non-empty and equal to `text[o:o+len(s)]`. The sentences come in increasing order and are pairwise disjoint, and a text made only of whitespace and periods gives none. |
| TokenizerSegment.ExtractSentencesCovers | dt_nav/nlp/preprocess/cunning_tokenizer.py:129-150 | Only whitespace and periods are dropped: every other character of the text lies inside one of the returned sentences. |
| TokenizerSegment.ExtractSentencesEmpty | dt_nav/nlp/preprocess/cunning_tokenizer.py:129-150 | The result is empty exactly when the text consists only of whitespace and periods. |
| TokenizerSegment.SentencesByDotCovers | dt_nav/nlp/preprocess/cunning_tokenizer.py:132-138 | Every character other than whitespace and `.` lies in one of the pieces the first loop keeps. |
| TokenizerSegment.EnumsByPunctCovers | dt_nav/nlp/preprocess/cunning_tokenizer.py:77-106 | Every character of a located sentence other than whitespace and `.` lies in one of its `_extract_enums_by_punct` segments, because only trailing blank lines are dropped. |
| TokenizerSegment.ByLengthCovers | dt_nav/nlp/preprocess/cunning_tokenizer.py:108-127 | Every character of a located segment other than whitespace and `.` lies in one of the segments `_extract_enums_by_line_length` makes of it, because only blank lines are dropped. |
| TokenizerSegment.WalkExact | dt_nav/nlp/preprocess/cunning_tokenizer.py:134-138 | The loop keeps exactly one entry per accepted piece, in order, and the accepted piece at index i sits at the offset equal to the total length of the pieces before it. |
| TokenizerSegment.FixSentences | dt_nav/nlp/preprocess/cunning_tokenizer.py:188-190 | `fix_sentences` is empty exactly when the text has no sentence. |
| TokenizerBuckets.AddEntitiesToSentences | dt_nav/nlp/preprocess/cunning_tokenizer.py:152-186 | The only failure is IndexError. With no sentences the result is empty. Otherwise the buckets' entity lists, concatenated, are the input entities in order, and every entity lies in its bucket's sentence window. With `add_empty`, the buckets list every sentence exactly once, in order. |
| TokenizerBuckets.AddEntitiesFails | dt_nav/nlp/preprocess/cunning_tokenizer.py:167-173 | A failure implies some entity starts at or past the end of the last sentence. For sentences sorted by end, such an entity always causes the failure. |
| TokenizerBuckets.AddEntitiesFirstFit | dt_nav/nlp/preprocess/cunning_tokenizer.py:167-175 | For entities sorted by start, each entity lands in the first sentence whose end exceeds its start. |
| TokenizerBuckets.AddEntitiesFromSents | dt_nav/nlp/preprocess/cunning_tokenizer.py:173-182 | Every bucket's sentence is one of the input sentences. |
| TokenizerBuckets.AddEmptyOnlyAddsEmpty | dt_nav/nlp/preprocess/cunning_tokenizer.py:158-186 | Dropping the empty buckets from the `add_empty` result gives the plain result, failures included. |
| EntitiesProcessor.FilterEmpty | dt_nav/nlp/preprocess/entities_processor.py:50-52 | It keeps exactly the entities with start < end. |
| EntitiesProcessor.FilterEmptyAppend | dt_nav/nlp/preprocess/entities_processor.py:52 | The filter distributes over concatenation, so it keeps the original order. |
| EntitiesProcessor.FilterEmptyIdempotent | dt_nav/nlp/preprocess/entities_processor.py:50-52 | Filtering twice is filtering once. |
| EntitiesProcessor.FilterEmptyDoc | dt_nav/nlp/preprocess/entities_processor.py:50-52 | The text is untouched, and the entities are exactly the non-empty ones. |
| EntitiesProcessor.CastKey | dt_nav/nlp/preprocess/entities_processor.py:7 | A cast value is as long as its key and non-empty. Only the Cyrillic keys can match, because the token is lower-cased before the lookup. |
| EntitiesProcessor.LJust | dt_nav/nlp/preprocess/entities_processor.py:73-74 | `ljust(n)` keeps the string as a prefix and pads it with spaces to length `n`, or leaves a longer string whole. |
| EntitiesProcessor.CastOne | dt_nav/nlp/preprocess/entities_processor.py:68-76 | Casting one entity keeps the text's length and every character outside its span, and writes the padded cast value over the span. |
| EntitiesProcessor.CastOneIdempotent | dt_nav/nlp/preprocess/entities_processor.py:68-76 | Casting the same entity twice is casting it once. |
| EntitiesProcessor.CastLeavesNoKey | dt_nav/nlp/preprocess/entities_processor.py:69-72 | After the cast, the entity's token no longer has a cast value. |
| EntitiesProcessor.CastTokens | dt_nav/nlp/preprocess/entities_processor.py:64-79 | The text keeps its length and every character outside the entity spans, and the entities are unchanged. |
| EntitiesProcessor.ConvertSplit | dt_nav/nlp/preprocess/entities_processor.py:81-88 | There is exactly one entity per piece that is neither a separator nor empty, in the order of the pieces. The piece at index i gives `[start + len("".join(split[:i])), that + len(split[i]))` with the given class. Every entity is non-empty. |
| EntitiesProcessor.ConvertSplitLaid | dt_nav/nlp/preprocess/entities_processor.py:81-88 | When the pieces spell out `text[start:hi]`, every converted entity covers a piece of the text inside `[start, hi)` that is neither a separator nor empty. The entities come in order and do not overlap. |
| EntitiesProcessor.OneSplitInside | dt_nav/nlp/preprocess/entities_processor.py:90-107 | Every entity produced from a located entity lies inside it and in the text. |
| EntitiesProcessor.ProcessOneSplitWithin | dt_nav/nlp/preprocess/entities_processor.py:90-108 | Splitting located entities yields located entities, each inside one of the originals. |
| EntitiesProcessor.SplitTokens | dt_nav/nlp/preprocess/entities_processor.py:110-119 | `preprocess_split_tokens` never changes the text, and it turns located entities into located entities inside the originals. |
| EntitiesProcessor.VotesKeys | dt_nav/nlp/preprocess/entities_processor.py:208-215 | The class table of a token has one distinct key per class met with the token. |
| EntitiesProcessor.VotesCount | dt_nav/nlp/preprocess/entities_processor.py:212-215 | Each class's count is its number of occurrences. |
| EntitiesProcessor.VotesOrder | dt_nav/nlp/preprocess/entities_processor.py:212-215 | The classes stand in the order of their first appearance. |
| EntitiesProcessor.TopClassSpec | dt_nav/nlp/preprocess/entities_processor.py:219 | The chosen class occurs with the token and no class occurs more often. Any other class that occurs as often first appears later. |
| EntitiesProcessor.TokensFreqRelabels | dt_nav/nlp/preprocess/entities_processor.py:198-228 | `process_tokens_freq` never fails and keeps every text and span. Each entity gets the class met most often with its normalised token across the whole batch, and the earliest such class on a tie. |
| EntitiesOffsets.MarksKept | dt_nav/nlp/preprocess/entities_processor.py:232-241 | Deleting the inserted characters gives the same result as deleting the inserted pieces. |
| EntitiesOffsets.Mapping | dt_nav/nlp/preprocess/entities_processor.py:233-241 | `dumb_mapping` has one key per original character, and each key maps to a non-inserted position of the new text. |
| EntitiesOffsets.MappingIncreasing | dt_nav/nlp/preprocess/entities_processor.py:233-241 | The map is strictly increasing. |
| EntitiesOffsets.MappingChar | dt_nav/nlp/preprocess/entities_processor.py:233-241 | Original position `i` maps to a position of the new text that holds the `i`-th original character. |
| EntitiesOffsets.SpanCarried | dt_nav/nlp/preprocess/entities_processor.py:233-247 | With the end of the text mapped to the end of the new text, the new text between the images of `s` and `e` is the old text between `s` and `e` once the inserted spaces are deleted. |
| EntitiesOffsets.MapEntities | dt_nav/nlp/preprocess/entities_processor.py:243-245 | The remap fails with KeyError exactly when some start or end is not a key. Otherwise each entity becomes `(m[start], m[end], t)`, in order. |
| EntitiesOffsets.PunctuateEndFails | dt_nav/nlp/preprocess/entities_processor.py:233-245 | As written, an entity whose end equals the text's length makes the pass fail with KeyError. |
| EntitiesOffsets.PunctuateWholeTextFails | dt_nav/nlp/preprocess/entities_processor.py:233-245 | On "ab" with an entity covering the whole text, the pass as written fails. |
| EntitiesOffsets.Punctuate | dt_nav/nlp/preprocess/entities_processor.py:230-247 | The corrected pass maps the end of the text to the end of the new text. It fails exactly when some entity bound lies outside the text. On success the text is `fix_punctuation(text)`, and every entity is carried across the inserted spaces onto the same characters. |
| EntitiesOffsets.AsWrittenAgrees | dt_nav/nlp/preprocess/entities_processor.py:230-247 | Whenever the pass as written succeeds, the corrected pass gives the same result. |
| EntitiesOffsets.PunctuateAsWritten | dt_nav/nlp/preprocess/entities_processor.py:231-245 | As written, the pass on one datum succeeds exactly when every entity bound lies in `[0, len(text))`, and it fails otherwise with KeyError. On success the text is `fix_punctuation(text)` and the entity count is unchanged. |
| EntitiesOffsets.PreprocessPunctuationAsWritten | dt_nav/nlp/preprocess/entities_processor.py:230-247 | As written, the batch succeeds exactly when every datum's entity bounds lie in `[0, len(text))`. Any failure is KeyError. On success each datum is what the as-written pass gives for it. |
| EntitiesOffsets.PreprocessPunctuation | dt_nav/nlp/preprocess/entities_processor.py:230-247 | The corrected batch succeeds exactly when every datum's entity bounds lie in `[0, len(text)]`. Any failure is KeyError. On success it returns one datum per input, each as the corrected pass gives it. |
| EntitiesOffsets.PreprocessPunctuationAgrees | dt_nav/nlp/preprocess/entities_processor.py:230-247 | Wherever the batch as written succeeds, the corrected batch returns the same data. |
| EntitiesOffsets.BlockShape | dt_nav/nlp/preprocess/entities_processor.py:259-263 | A sentence's block is empty exactly when the sentence is blank. Otherwise it is the right-stripped sentence, then a '.' unless it already ends in punctuation, then one space. |
| EntitiesOffsets.Rebuild | dt_nav/nlp/preprocess/entities_processor.py:257-271 | The rebuild loop can fail only on a bucket without a sentence. |
| EntitiesOffsets.RebuildOk | dt_nav/nlp/preprocess/entities_processor.py:258-259 | The loop fails exactly when some bucket has no sentence. |
| EntitiesOffsets.RebuildCount | dt_nav/nlp/preprocess/entities_processor.py:265-269 | The rebuild lists exactly one entity per bucketed entity. |
| EntitiesOffsets.RebuildPrefix | dt_nav/nlp/preprocess/entities_processor.py:258-271 | The text and entities rebuilt from a prefix of the buckets are prefixes of those rebuilt from all of them. |
| EntitiesOffsets.RebuildKeeps | dt_nav/nlp/preprocess/entities_processor.py:265-271 | An entity inside the right-stripped text of its sentence covers the same characters in the rebuilt text, because of the shift by offset minus the length so far. |
| EntitiesOffsets.SentencesDoc | dt_nav/nlp/preprocess/entities_processor.py:249-274 | `preprocess_sentences` fails only with the IndexError of bucketing or a missing sentence. |
| EntitiesOffsets.PreprocessSentences | dt_nav/nlp/preprocess/entities_processor.py:249-274 | The batch succeeds exactly when every datum does, and then returns one datum per input, each as `preprocess_sentences` gives it. Any failure is an IndexError or AttributeError. |
| EntitiesOffsets.BucketsCover | dt_nav/nlp/preprocess/entities_processor.py:251-256 | When there are sentences, bucketing hands out every entity of the datum in order. |
| EntitiesOffsets.SentencesCount | dt_nav/nlp/preprocess/entities_processor.py:249-274 | With no sentence the datum comes back empty, entities included. Otherwise every entity comes back, in order. |
| EntitiesOffsets.SentencesKeep | dt_nav/nlp/preprocess/entities_processor.py:249-274 | An entity inside the right-stripped text of its sentence keeps its text and class in the rebuilt datum, at its position in the bucket order. |
| EntitiesOffsets.SentencesKeepSame | dt_nav/nlp/preprocess/entities_processor.py:249-274 | That position is the entity's own position in the input list. |
| Jsonl.TagOf | dt_nav/utils/jsonl.py:50-51 | The first key of an empty prediction dictionary does not exist, so the lookup is an IndexError. Otherwise it gives the value of the first key. |
| Jsonl.SplitTag | dt_nav/utils/jsonl.py:65 | `value.split("-")` unpacked into two names fails with ValueError unless the value has exactly one dash. |
| Jsonl.SplitTagParts | dt_nav/utils/jsonl.py:65 | A successful split gives two dash-free parts that join back around the dash. |
| Jsonl.SplitTagJoin | dt_nav/utils/jsonl.py:65 | Two dash-free parts joined by a dash split back into the same two parts. |
| Jsonl.SplitTagRejects | dt_nav/utils/jsonl.py:65 | A value with no dash, or with two or more, is rejected. |
| Jsonl.BeginOpens | dt_nav/utils/jsonl.py:66-74 | A `B-X` tag emits whatever is open and opens `X` on the token's span. |
| Jsonl.InsideExtends | dt_nav/utils/jsonl.py:75-76 | An `I-X` tag extends an open `X` to the end of the token. |
| Jsonl.InsideOpens | dt_nav/utils/jsonl.py:66-74 | An `I-X` tag with nothing open, or with another class open, behaves like `B-X`. |
| Jsonl.OutsideCloses | dt_nav/utils/jsonl.py:60-63 | An `O` tag emits and closes the open entity. |
| Jsonl.DecodeBySentence | dt_nav/utils/jsonl.py:45-80 | Decoding succeeds exactly when every sentence does. Its entities are then each sentence's own, one sentence after another, so no state crosses a sentence, and the text is returned unchanged. |
| Jsonl.RunChain | dt_nav/utils/jsonl.py:48-78 | Over ordered tokens, the BIO loop emits an ordered chain of non-overlapping spans inside the tokens' range. |
| Jsonl.FlatSpans | dt_nav/utils/jsonl.py:56-58 | Without BIO, the emitted spans are exactly the tokens whose tag is not `O`, each with class None. |
| Jsonl.FlatFails | dt_nav/utils/jsonl.py:50-58 | Without BIO, decoding fails exactly when some prediction is empty. |
| Jsonl.DecodeEncoded | dt_nav/utils/jsonl.py:41-80 | Decoding the BIO encoding of well-formed runs gives back exactly those runs as character spans. This is the round trip with the tokenizer's tagging. |
| Jsonl.AnnotateRestores | dt_nav/utils/jsonl.py:83-93 | The annotated view has `2n + 1` pieces. For ordered entities inside the text, joining the plain pieces and the entity texts gives back the text. |
| Jsonl.AnnotatedPieces | dt_nav/utils/jsonl.py:88-92 | Piece `2m + 1` is entity `m`'s text with its class. Piece `2m` is the text between entity `m` and the previous entity, or the start of the text. |
| ProcessDocuments.CheckUpdate | dt_nav/processes/ner/process_documents.py:216-242 | The decision is true exactly when the entities were never extracted, or when the level is at least 1 and the text has changed, or when the level is at least 2. It raises ValueError exactly for a negative level on a processed document. |
| DocumentsCommon.WhereOf | dt_nav/processes/documents/common/documents_common.py:27-45 | A Document needle raises ValueError. An int needle or an all-digit string selects by id. Any other string is split at the colon; a non-string needle raises RecomException. |
| DocumentsCommon.WhereOfText | dt_nav/processes/documents/common/documents_common.py:32-42 | A non-numeric string with no colon raises RecomException, and one with two or more colons raises ValueError. With exactly one colon it selects the type before the colon and the id after it. |
| DocumentsCommon.NeedleRoundTrip | dt_nav/processes/documents/common/documents_common.py:32-42 | A needle written `type:id`, where neither part contains a colon, parses back to exactly that type and id. |
| DocumentsCommon.DecimalInjective | dt_nav/processes/documents/common/documents_common.py:93-103 | Distinct ids print differently, so `str(d.id)` keys do not collide. |
| DocumentsCommon.IndexByHas | dt_nav/processes/documents/common/documents_common.py:93-96 | A dictionary comprehension holds a key exactly when some fetched document has that key. |
| DocumentsCommon.IndexByLast | dt_nav/processes/documents/common/documents_common.py:93-96 | A key maps to the last fetched document that has it. |
| DocumentsCommon.DocumentsByNeedles | dt_nav/processes/documents/common/documents_common.py:74-106 | Building the queries fails when some needle is malformed. Otherwise there is one answer per needle, in order, and a Document needle answers with itself. |
| DocumentsCommon.DocumentsByNeedlesFails | dt_nav/processes/documents/common/documents_common.py:81-83 | The call fails exactly when some needle that is not a Document fails to parse. |
| DocumentsCommon.ResolveOrder | dt_nav/processes/documents/common/documents_common.py:98-105 | A needle that is not a Document answers with the last fetched document whose id string is its text. Failing that, it answers with the last whose `type:id` is its text, and failing both with None. |
| DocumentsCommon.IntNeedleResolves | dt_nav/processes/documents/common/documents_common.py:98-105 | An integer needle answers with the last fetched document with that id, or with None when none was fetched. |
| DocumentsCommon.ZeroPaddedUnresolved | dt_nav/processes/documents/common/documents_common.py:98-105 | A digit string with a leading zero, of length two or more, selects by id but never resolves to a document. |
| ModelCommon.LabelsList | dt_nav/processes/ner/model_common.py:11-31 | Without BIO the labels come back unchanged. With BIO the list has one entry per `O` and two per other label. |
| ModelCommon.LabelsPrefix | dt_nav/processes/ner/model_common.py:24-30 | What the loop has built after `j` labels is a prefix of what it has built after any later label, so the contributions are appended in input order and never rewritten. |
| ModelCommon.LabelAt | dt_nav/processes/ner/model_common.py:26-30 | Label `i` lands right after the contributions of the labels before it. `O` is copied verbatim, and any other label `l` becomes `B-l` immediately followed by `I-l`. |
| Dupes.DupesGraph | dt_nav/nlp/dupes/dupes.py:12-13 | Every input index is a node of the graph. |
| Dupes.PositionsSpec | dt_nav/nlp/dupes/dupes.py:32-35 | The recorded positions of a string are exactly the earlier indices that hold it, increasing. |
| Dupes.IndicesAre | dt_nav/nlp/dupes/dupes.py:10-35 | `indices` maps exactly the strings seen so far, each to its positions in order. |
| Dupes.LinkSpec | dt_nav/nlp/dupes/dupes.py:16-18 | Linking adds exactly the edges from `i` to the old positions, all with the given weight, and keeps every other edge. |
| Dupes.FuzzyLinkSpec | dt_nav/nlp/dupes/dupes.py:21-29 | Fuzzy linking keeps every edge not from `i`. Every edge it adds from `i` has a score of at least `cutoff` and leads to a position of the candidate's string. |
| Dupes.EdgesBelow | dt_nav/nlp/dupes/dupes.py:15-35 | Every edge runs from a later index to an earlier one. |
| Dupes.EdgesSettled | dt_nav/nlp/dupes/dupes.py:12-35 | Later steps leave the edges from an index as that index's step made them. |
| Dupes.RepeatEdges | dt_nav/nlp/dupes/dupes.py:15-18 | A repeated string is linked with weight 1 to exactly the earlier indices holding the identical string, and the fuzzy matcher is not consulted. |
| Dupes.ShortUnlinked | dt_nav/nlp/dupes/dupes.py:19-20 | A first-seen string shorter than `min_length` gets no edge to an earlier string. |
| Dupes.FuzzyEdges | dt_nav/nlp/dupes/dupes.py:19-31 | An edge from a first-seen string comes from a fuzzy candidate scoring at least `cutoff` and leads to an earlier index holding the candidate's string. Its weight is at least `cutoff`. |
| Dupes.FirstAdjacent | dt_nav/nlp/dupes/dupes.py:44-47 | It finds the smallest neighbour at or after a bound, or nothing when there is none. |
| Dupes.CanonicalEntry | dt_nav/nlp/dupes/dupes.py:43-49 | Every mapping entry maps an index to a smaller neighbour, and no neighbour of that index is smaller. |
| Dupes.CanonicalSorted | dt_nav/nlp/dupes/dupes.py:43-49 | The mapping lists its indices in increasing order. |
| Dupes.CanonicalHas | dt_nav/nlp/dupes/dupes.py:44-49 | An index is mapped exactly when it has a neighbour smaller than itself. |
| Dupes.EarlierNeighbour | dt_nav/nlp/dupes/dupes.py:18-44 | A smaller index is a neighbour exactly when the later index's step added an edge to it. |
| Dupes.RepeatMapsToFirst | dt_nav/nlp/dupes/dupes.py:15-50 | A repeated string is mapped to the first occurrence of the same string, whatever the fuzzy matcher answers. |
| Dupes.ShortUnmapped | dt_nav/nlp/dupes/dupes.py:19-50 | A first-seen string shorter than `min_length` is not mapped. |
| Dupes.MembersSpec | dt_nav/nlp/dupes/dupes.py:55-59 | A cluster's members are exactly the keys mapped to its representative. |
| Dupes.CollectEntry | dt_nav/nlp/dupes/dupes.py:55-59 | Each collected cluster holds, in mapping order, the keys mapped to its representative, and it holds at least one. |
| Dupes.CollectHas | dt_nav/nlp/dupes/dupes.py:55-59 | A representative heads a cluster exactly when some entry maps to it. |
| Dupes.ClustersSpec | dt_nav/nlp/dupes/dupes.py:53-62 | The clusters have distinct keys, which are exactly the mapping's values. Each cluster lists the keys mapped to it in mapping order, followed by the representative itself. |
| Normalizer.NewlinesGone | dt_nav/nlp/preprocess/normalizer.py:73 | After the newline pass no newline is left. |
| Normalizer.TabsGone | dt_nav/nlp/preprocess/normalizer.py:75 | After the tab pass no tab is left. |
| Normalizer.SpacesCollapsed | dt_nav/nlp/preprocess/normalizer.py:76 | After collapsing spaces no two spaces are adjacent. |
| Normalizer.DotsGlued | dt_nav/nlp/preprocess/normalizer.py:77 | Deleting the space before each dot keeps single spacing and leaves no space before a dot. |
| Normalizer.DotsSpaced | dt_nav/nlp/preprocess/normalizer.py:78 | Rewriting the dots before a space keeps both properties. |
| Normalizer.FixTextClean | dt_nav/nlp/preprocess/normalizer.py:72-79 | The output of `fix_text` has no newline, no tab, no double space and no space before a dot. Apart from spaces, dots, tabs and newlines, it holds exactly the input's characters, in order. |
| Normalizer.DropFinalMarkSpec | dt_nav/nlp/preprocess/normalizer.py:41 | `[;.–·]$` matches at most once, either at the last character or before a final newline. The substitution removes exactly the matched character, or nothing when there is no match. |
| Normalizer.FilterShape | dt_nav/nlp/preprocess/normalizer.py:46-63 | Every output character is alphanumeric or in the allowed list, and every newline after position 0 is preceded by a dot. |
| Normalizer.FilterEmpty | dt_nav/nlp/preprocess/normalizer.py:43-63 | The output is empty exactly when no character of the cleaned item is allowed. |
| Normalizer.FilterKeeps | dt_nav/nlp/preprocess/normalizer.py:46-63 | Apart from dots, the output is the allowed characters of the item in order, because the only characters the loop adds are dots. |
| Normalizer.StripCharactersSpec | dt_nav/nlp/preprocess/normalizer.py:35-65 | `strip_characters` emits only allowed characters and puts a dot before every newline after position 0. It returns "" exactly when the cleaned item has no allowed character. Apart from dots, it returns the allowed characters of the cleaned item. |
| Normalizer.NormalizeClean | dt_nav/nlp/preprocess/normalizer.py:81-99 | With `fix_text` on and stop words kept, the result is clean whatever the earlier passes produced. |
| Normalizer.NormalizeDefaults | dt_nav/nlp/preprocess/normalizer.py:81-90 | With the default flags, the result is clean, and apart from blanks and dots it is the stripped, lower-cased input. |
| Normalizer.NormalizeStripped | dt_nav/nlp/preprocess/normalizer.py:81-88 | With `strip_characters` the last enabled pass, every character of the result is allowed and every newline after position 0 follows a dot. |

## Left out

- Database, ORM and HTTP code: the `get_documents_by_needles` query is a list of fetched documents passed in as a parameter. The `fields` option only shapes the query and is dropped.
- The model's `extract_entities`, training and model loading: these are calls into a machine-learning library.
- spaCy tokenisation (`tokenize`, `jsonl_datum_to_labels`), Mystem morphology (`preprocess_prefix_tokens`), the override-class file read, and the composition in `EntitiesProcessor.process`. Only the steps named above are modelled.
- `preprocess_cpp`: its `str.replace` rewrites are not among the modelled steps.
- `find_good_substring_indices` is not part of this model: it is the parameter `find` of `JsonlCommon.UpdateByText` and the merge.
- `IdentitySet` is modelled as an insertion-ordered list of indices into the unioned entity list. Two equal entity triples at different positions are therefore distinct, as they are in an identity set.
- The fuzzy set in `dupes_graph` is an oracle parameter `Dupes.Fuzzy`. Its answer is an arbitrary function of the strings added so far and the query string, so no property of fuzzy matching is assumed.
- Graph weights are `real` values. Fuzzy scores are not computed, and `networkx`'s undirected adjacency is modelled as the edge map read in both directions.
- `remove_tags` (BeautifulSoup) and the stop-word pass (nltk) are function parameters of `Normalizer.Normalize`. `is_punct` is inside the stop-word oracle, and `isalnum` is an abstract predicate.
- `str.lower` lowers exactly four ranges: ASCII A-Z (+32), Latin-1 À-Þ except × (+32), Cyrillic А-Я (+32) and Ѐ-Џ, which includes Ё (+80). Every other code point is left unchanged, including Greek, Latin Extended, Armenian and the rest of Cyrillic. It also lowers one code point to one, never to several as Python does for İ.
- `str.isnumeric` accepts only ASCII digits.
- `fit` and `transform` in the normaliser are trivial wrappers.
- EntitiesOffsets.PreprocessPunctuation and EntitiesOffsets.PreprocessSentences: the source rewrites each datum in place, so a failure leaves the data before it already rewritten. The model returns only the error.
- Logging and `verbose` flags have no effect on results and are dropped.
- `dupes_clusters.py` (TF-IDF, DBSCAN) is floating-point library code.
- A sentence triple's third element, when `add_entities_to_sentences` receives triples, is dropped as the source does. The model takes pairs directly.
- The prediction dictionaries of `st_preds_to_jsonl_datum` are ordered item lists. Only their first item is read.
- `fix_text` is not idempotent ("x. ." becomes "x.." and then "x."), so no idempotence is claimed for it.
- Dupes.DupesGraph: only the node count is stated by its own contract. The edges are described by the lemmas RepeatEdges, ShortUnlinked and FuzzyEdges.
- JsonlMerge.MergeEntities: the sweep's KeyError for an appended source keyword missing from the target status is modelled as written (SweepKeyError). No repaired variant is given for it, because the missing entry can also come from the target itself.

## Findings

| source | as written | input that shows it | evidently intended | confidence | as-written member | corrected member |
|---|---|---|---|---|---|---|
| dt_nav/processes/ner/jsonl_common.py:157-170 | An entity kept at an earlier index is never removed when it loses a later index. | Text "abc", two extracted (target) entities (0,2) with "ab" EXTRACTED and (1,3) with "bc" CONFIRMED, merged with an empty stored datum: both overlapping spans are returned. | The winner at each index is the only covering entity in the result, so the entities do not overlap. | not executed | JsonlMerge.AbcOverlap | JsonlMerge.MergeEntitiesResolved |
| dt_nav/processes/ner/jsonl_common.py:168 | `entities_here[0]` is read even when every covering entity was already discarded. | The same text and the same two extracted (target) entities with "ab" CONFIRMED and "bc" EXTRACTED, merged with an empty stored datum: index 2 is covered only by the discarded "bc", and the read raises IndexError. | An index whose covering entities were all discarded is skipped. | not executed | JsonlMerge.AbcIndexError | JsonlMerge.SweepResolved |
| dt_nav/nlp/preprocess/entities_processor.py:233-245 | `dumb_mapping` has keys only below `len(text)`, but an entity's end is looked up in it. | "ab" with the entity (0,2): `dumb_mapping[2]` raises KeyError. | `len(text)` maps to the end of the new text, so that an entity reaching the end of the text is carried. | not executed | EntitiesOffsets.PunctuateWholeTextFails | EntitiesOffsets.Punctuate |
