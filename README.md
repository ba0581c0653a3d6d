# Model of the document processor, tag auditor and visitor counter

Three serverless handlers, modelled on values and proved in Dafny.

- **Document processor** (`document_processor.dfy`). It takes the block graph an OCR service returns for one uploaded document and produces:
  - the full text: the LINE blocks' text joined by spaces;
  - the key/value pairs of the form fields: the relationship text of KEY blocks and of their VALUE targets;
  - the number of distinct pages;
  - the average confidence.

  It then sends the text, after a length guard and truncation, to three text-analysis calls. It stores the combined record under `processed/<last path segment>.json`.
- **Tag auditor** (`tag_audit.dfy`). It checks every resource of an inventory for the five required tag keys and records each failing one with:
  - its ARN;
  - its type, taken from the ARN;
  - its missing tags;
  - its tag map.

  It then builds a report: the summary counts and rate, plus one section per resource type in sorted order. Each section lists at most five resources and ends with "and N more" when there are more. Finally it publishes the report and returns a summary.
- **Visitor counter** (`visitor_counter.dfy`). It dispatches an HTTP request on its method:
  - POST increments the one stored counter;
  - GET reads it;
  - any other method gets 405;
  - a failing store gives 500.

  The counter is the field of a class, `VisitorCounter.VisitorTable`, which the handler updates in place. `VisitorCounter.Dispatch` is the pure specification it is proved against.

`strings.dfy` states the Python `str` behaviour the handlers depend on:
- `join`;
- `split` on one character;
- `strip` with Python's whitespace set;
- code-point ordering;
- `sorted()`.

`common.dfy` holds `Option` and `Result`.

Each loop of the source is a method with a `while` loop and invariants. It is proved equal to a recursive specification function, and the properties are lemmas about that function:
- `ChildWords`, `ValueText`, `LineTexts`, `KeyValuePairs` for the document processor;
- `NonCompliantOf`, `GroupByType`, `TypeOrder`, `GroupsOf` for the tag auditor.

The outside services are inputs to the handlers, not calls the model makes:
- the OCR service's answer is a `Result`;
- the three text-analysis calls are functions from the text sent to a `Result`;
- storing the record, publishing the report and the counter store are an optional error or a failure flag.

Where the code and its documentation disagree, the model follows the code:
- The document processor's record has status `"success"` even when the OCR call fails. The failure only shows as the extraction's `error` field and an analysis that says the text is too short (`DocumentProcessor.OcrFailureRecord`).
- The tag auditor's summary divides by the inventory size without a guard. The report guards the same division. An empty inventory therefore ends the handler with a division-by-zero error (`TagAudit.SummaryOf`, `TagAudit.EmptyInventoryRaises`).
- The visitor counter reads and writes item key `1` in table `VisitorCountTable`, whatever the table-name setting says. It returns 405 for OPTIONS and sets no CORS headers.

## Model

| member | source | states |
|---|---|---|
| Strings.JoinSnoc | theprojectfolder/IDR_pipeline/lambda/document-processor/document_processor.py:100 | joining one more part appends the separator and the part, the shape the loops build full and relationship text in |
| Strings.Split | theprojectfolder/IDR_pipeline/lambda/tag-audit/tag_audit_function.py:69 | `s.split(c)` always has at least one field and no field contains the separator |
| Strings.JoinSplit | theprojectfolder/IDR_pipeline/lambda/tag-audit/tag_audit_function.py:69 | joining the fields of a split with the separator gives back the string |
| Strings.SplitJoin | theprojectfolder/IDR_pipeline/lambda/tag-audit/tag_audit_function.py:69 | splitting a join of separator-free fields gives back exactly those fields |
| Strings.SplitCount | theprojectfolder/IDR_pipeline/lambda/tag-audit/tag_audit_function.py:69-70 | a split has one more field than the string has separators |
| Strings.SplitFirst | theprojectfolder/IDR_pipeline/lambda/tag-audit/tag_audit_function.py:73 | the first field is the prefix up to the first separator, or the whole string when there is none |
| Strings.SplitLast | theprojectfolder/IDR_pipeline/lambda/document-processor/document_processor.py:40 | the last field is a separator-free suffix, preceded by the separator unless it is the whole string, and it is the whole string exactly when there is one field |
| Strings.TrimStart | theprojectfolder/IDR_pipeline/lambda/document-processor/document_processor.py:152 | `lstrip` removes a prefix made only of Python whitespace and leaves a non-whitespace first character |
| Strings.TrimEnd | theprojectfolder/IDR_pipeline/lambda/document-processor/document_processor.py:152 | `rstrip` removes a suffix made only of Python whitespace and leaves a non-whitespace last character |
| Strings.StripSlice | theprojectfolder/IDR_pipeline/lambda/document-processor/document_processor.py:152 | `strip()` is a slice of the input with only whitespace before it and only whitespace after it |
| Strings.StripEnds | theprojectfolder/IDR_pipeline/lambda/document-processor/document_processor.py:152 | a non-empty `strip()` starts and ends with non-whitespace |
| Strings.StripEmptyIff | theprojectfolder/IDR_pipeline/lambda/document-processor/document_processor.py:152 | `strip()` is empty exactly when the input is all whitespace |
| Strings.LexLeTotal | theprojectfolder/IDR_pipeline/lambda/tag-audit/tag_audit_function.py:114 | the code-point ordering of `str` is total |
| Strings.LexLeAntisymmetric | theprojectfolder/IDR_pipeline/lambda/tag-audit/tag_audit_function.py:114 | two strings each at most the other are equal |
| Strings.LexLeTransitive | theprojectfolder/IDR_pipeline/lambda/tag-audit/tag_audit_function.py:114 | the ordering is transitive |
| Strings.Insert | theprojectfolder/IDR_pipeline/lambda/tag-audit/tag_audit_function.py:114 | insertion adds exactly one copy of the element (multiset) |
| Strings.InsertSorted | theprojectfolder/IDR_pipeline/lambda/tag-audit/tag_audit_function.py:114 | insertion into a sorted list keeps it sorted |
| Strings.SortStrings | theprojectfolder/IDR_pipeline/lambda/tag-audit/tag_audit_function.py:114 | `sorted()` returns a permutation of its input (same multiset) |
| Strings.SortStringsSorted | theprojectfolder/IDR_pipeline/lambda/tag-audit/tag_audit_function.py:114 | `sorted()` returns its input in non-decreasing code-point order |
| DocumentProcessor.FirstIndex | theprojectfolder/IDR_pipeline/lambda/document-processor/document_processor.py:123 | the position found holds the id and no earlier block does; no position means no block has the id |
| DocumentProcessor.LookupFirstMatch | theprojectfolder/IDR_pipeline/lambda/document-processor/document_processor.py:123 | `next(...)` is None exactly when no block has the id, otherwise the first block that has it |
| DocumentProcessor.AppendWords | theprojectfolder/IDR_pipeline/lambda/document-processor/document_processor.py:122-125 | the inner loop appends to the text so far the texts of the WORD blocks the ids resolve to, in id order |
| DocumentProcessor.ExtractTextFromRelationship | theprojectfolder/IDR_pipeline/lambda/document-processor/document_processor.py:116-126 | the result is the texts of the WORD blocks the CHILD ids resolve to, relationship by relationship and id by id, joined by single spaces |
| DocumentProcessor.WordsOfAppend | theprojectfolder/IDR_pipeline/lambda/document-processor/document_processor.py:122-125 | the words of consecutive id lists follow each other |
| DocumentProcessor.ChildWordsAppend | theprojectfolder/IDR_pipeline/lambda/document-processor/document_processor.py:120-125 | relationship text keeps relationship order |
| DocumentProcessor.ChildWordsSingle | theprojectfolder/IDR_pipeline/lambda/document-processor/document_processor.py:120-125 | a single relationship contributes its WORD texts when it is CHILD and nothing otherwise |
| DocumentProcessor.UnresolvedIdSkipped | theprojectfolder/IDR_pipeline/lambda/document-processor/document_processor.py:123-125 | an id that resolves to nothing or to a non-WORD block contributes nothing |
| DocumentProcessor.WordsOfMembership | theprojectfolder/IDR_pipeline/lambda/document-processor/document_processor.py:122-125 | a word is in the words of an id list exactly when some id in it adds that word |
| DocumentProcessor.WordAtIff | theprojectfolder/IDR_pipeline/lambda/document-processor/document_processor.py:123-125 | an id adds a word exactly when its first matching block is a WORD with that text |
| DocumentProcessor.ChildWordsMembership | theprojectfolder/IDR_pipeline/lambda/document-processor/document_processor.py:116-126 | a word is in the relationship text exactly when an id of some CHILD relationship adds it |
| DocumentProcessor.ExtractValueText | theprojectfolder/IDR_pipeline/lambda/document-processor/document_processor.py:129-138 | the result is the relationship text of the first block a VALUE id resolves to (scanning relationships, then ids), or None when none resolves; this is the early return |
| DocumentProcessor.ValueTextNone | theprojectfolder/IDR_pipeline/lambda/document-processor/document_processor.py:131-138 | there is no value exactly when no id of any VALUE relationship resolves |
| DocumentProcessor.FirstResolvedNone | theprojectfolder/IDR_pipeline/lambda/document-processor/document_processor.py:134-136 | the scan of one id list finds nothing exactly when no id in it resolves |
| DocumentProcessor.ValueTextFirst | theprojectfolder/IDR_pipeline/lambda/document-processor/document_processor.py:132-137 | the value comes from the first resolving VALUE id even when its text is empty; later ids are never tried |
| DocumentProcessor.FirstResolvedAt | theprojectfolder/IDR_pipeline/lambda/document-processor/document_processor.py:134-137 | the scan of one id list stops at its first resolving id |
| DocumentProcessor.PagesSnoc | theprojectfolder/IDR_pipeline/lambda/document-processor/document_processor.py:102 | one more block adds its page (1 when Page is missing) to the set of pages, and nothing else |
| DocumentProcessor.ExtractTextFromDocument | theprojectfolder/IDR_pipeline/lambda/document-processor/document_processor.py:64-113 | on an OCR failure the fallback record (empty text, no pairs, page count 0, the error, no confidence); otherwise the LINE texts joined by spaces, the key/value map built in block order, the distinct-page count and the average confidence |
| DocumentProcessor.LineTextsAppend | theprojectfolder/IDR_pipeline/lambda/document-processor/document_processor.py:88-90 | full text takes the LINE blocks in input order |
| DocumentProcessor.NoLinesNoText | theprojectfolder/IDR_pipeline/lambda/document-processor/document_processor.py:88-100 | without LINE blocks the full text is empty |
| DocumentProcessor.LineTextsMembership | theprojectfolder/IDR_pipeline/lambda/document-processor/document_processor.py:88-90 | a text is a line of the full text exactly when some LINE block has it |
| DocumentProcessor.KeyValuePairsKeys | theprojectfolder/IDR_pipeline/lambda/document-processor/document_processor.py:92-97 | a key is in the map exactly when some block contributes a pair with that key |
| DocumentProcessor.KeyValuePairsLastWins | theprojectfolder/IDR_pipeline/lambda/document-processor/document_processor.py:97 | the value under a key is that of the last block contributing that key |
| DocumentProcessor.PairOfRequires | theprojectfolder/IDR_pipeline/lambda/document-processor/document_processor.py:92-97 | a pair needs a KEY_VALUE_SET block with entity type KEY, non-empty key text and non-empty value text equal to the value text |
| DocumentProcessor.UnresolvedValueNoPair | theprojectfolder/IDR_pipeline/lambda/document-processor/document_processor.py:92-97 | a key block none of whose VALUE ids resolves adds no pair |
| DocumentProcessor.PageCountBounds | theprojectfolder/IDR_pipeline/lambda/document-processor/document_processor.py:102 | the page count is 0 exactly for no blocks, so at least 1 when there are blocks, and never exceeds the number of blocks |
| DocumentProcessor.MissingPageIsOne | theprojectfolder/IDR_pipeline/lambda/document-processor/document_processor.py:102 | a block without Page puts page 1 among the pages |
| DocumentProcessor.NoConfidenceIsZero | theprojectfolder/IDR_pipeline/lambda/document-processor/document_processor.py:143-144 | when no block has a Confidence the average is 0 |
| DocumentProcessor.ConfidencesMembership | theprojectfolder/IDR_pipeline/lambda/document-processor/document_processor.py:143 | the averaged values are exactly the Confidence values the blocks carry |
| DocumentProcessor.ConfidencesAppend | theprojectfolder/IDR_pipeline/lambda/document-processor/document_processor.py:143 | the confidences of consecutive block lists follow one another, so they keep block order |
| DocumentProcessor.ConfidencesSingle | theprojectfolder/IDR_pipeline/lambda/document-processor/document_processor.py:143 | one block contributes its confidence exactly once when it carries one, and nothing otherwise; with `ConfidencesAppend` this fixes the list, repetitions included |
| DocumentProcessor.SumBounds | theprojectfolder/IDR_pipeline/lambda/document-processor/document_processor.py:144 | helper of `MeanBounds`: a sum of n values within [lo, hi] lies within [n*lo, n*hi] |
| DocumentProcessor.MeanBounds | theprojectfolder/IDR_pipeline/lambda/document-processor/document_processor.py:144 | the mean of values within bounds lies within the same bounds |
| DocumentProcessor.AverageConfidenceBounds | theprojectfolder/IDR_pipeline/lambda/document-processor/document_processor.py:141-144 | when every confidence lies in [0, 100] and some block has one, so does the average |
| DocumentProcessor.AverageConfidenceExample | theprojectfolder/IDR_pipeline/lambda/document-processor/document_processor.py:143-144 | four blocks with confidences 90, 90, none and 60 average to 80: the list is averaged, so the repeated 90 counts twice and the block without a confidence not at all |
| DocumentProcessor.Truncate | theprojectfolder/IDR_pipeline/lambda/document-processor/document_processor.py:156 | the text sent is a prefix of at most 5000 characters, all of the text when it is short enough |
| DocumentProcessor.TopPhrases | theprojectfolder/IDR_pipeline/lambda/document-processor/document_processor.py:198 | at most the first 10 key phrases are kept, in order, all of them when there are at most 10 |
| DocumentProcessor.TooShortIff | theprojectfolder/IDR_pipeline/lambda/document-processor/document_processor.py:152 | the guard holds exactly when the stripped text has fewer than 3 characters; all-whitespace and shorter-than-3 texts are rejected |
| DocumentProcessor.AnalyzeTextTooShort | theprojectfolder/IDR_pipeline/lambda/document-processor/document_processor.py:152-153 | rejected text yields only the "Text too short for analysis" error |
| DocumentProcessor.AnalyzeTextSends | theprojectfolder/IDR_pipeline/lambda/document-processor/document_processor.py:156-202 | accepted text is sent cut to its first 5000 characters; the first failing call ends the analysis with its message, keeping the earlier results and nothing after; when all three succeed there is no error and the key phrases are the first 10 of the answer (all when at most 10) |
| DocumentProcessor.ResultKeyShape | theprojectfolder/IDR_pipeline/lambda/document-processor/document_processor.py:40 | the result key is "processed/", a name free of '/', then ".json"; the name ends the object key and is all of it or what follows its last '/' |
| DocumentProcessor.LambdaHandler | theprojectfolder/IDR_pipeline/lambda/document-processor/document_processor.py:12-61 | an unreadable event or a failed store gives the exception message as a 500 error; otherwise the record (document name, extraction, analysis of the full text, status "success") is saved under the result key |
| DocumentProcessor.OcrFailureRecord | theprojectfolder/IDR_pipeline/lambda/document-processor/document_processor.py:106-113 | after an OCR failure the record still has empty text, no pairs, page count 0, the error, no confidence, and an analysis holding only the too-short error |
| TagAudit.ExistingTags | theprojectfolder/IDR_pipeline/lambda/tag-audit/tag_audit_function.py:35 | a key is in the tag map exactly when some tag has it |
| TagAudit.ExistingTagsLastWins | theprojectfolder/IDR_pipeline/lambda/tag-audit/tag_audit_function.py:35 | with duplicate keys the last tag's value wins |
| TagAudit.MissingTagsIff | theprojectfolder/IDR_pipeline/lambda/tag-audit/tag_audit_function.py:37-40 | a tag is missing exactly when it is required and not among the existing keys |
| TagAudit.MissingTagsAppend | theprojectfolder/IDR_pipeline/lambda/tag-audit/tag_audit_function.py:37-40 | the missing tags keep the order of the required list |
| TagAudit.NothingPresentAllMissing | theprojectfolder/IDR_pipeline/lambda/tag-audit/tag_audit_function.py:37-40 | against no tags every required key is missing, in order |
| TagAudit.UntaggedMissesAll | theprojectfolder/IDR_pipeline/lambda/tag-audit/tag_audit_function.py:35-40 | a resource without Tags misses all five required tags in REQUIRED_TAGS order |
| TagAudit.CompliantIff | theprojectfolder/IDR_pipeline/lambda/tag-audit/tag_audit_function.py:35-42 | a resource is compliant exactly when every required key is the key of one of its tags |
| TagAudit.ExtractResourceTypeFields | theprojectfolder/IDR_pipeline/lambda/tag-audit/tag_audit_function.py:67-76 | for an ARN of colon-free fields: under 3 fields "unknown", 3 to 5 the service field, 6 or more service, a colon and the sixth field up to its first '/' |
| TagAudit.ResourceSegment | theprojectfolder/IDR_pipeline/lambda/tag-audit/tag_audit_function.py:73 | the part kept from the sixth field is free of '/' and is that field up to its first '/' |
| TagAudit.FewColonsUnknown | theprojectfolder/IDR_pipeline/lambda/tag-audit/tag_audit_function.py:69-76 | an ARN with fewer than two colons has type "unknown" |
| TagAudit.FindNonCompliant | theprojectfolder/IDR_pipeline/lambda/tag-audit/tag_audit_function.py:31-48 | the records are those of the non-compliant resources in inventory order, each with ARN, type, missing tags and the tag map |
| TagAudit.NonCompliantAppend | theprojectfolder/IDR_pipeline/lambda/tag-audit/tag_audit_function.py:33-48 | the records of two parts of the inventory follow one another |
| TagAudit.NonCompliantSingle | theprojectfolder/IDR_pipeline/lambda/tag-audit/tag_audit_function.py:42-48 | one resource yields its record exactly when it misses a tag |
| TagAudit.RecordsMissSomething | theprojectfolder/IDR_pipeline/lambda/tag-audit/tag_audit_function.py:37-48 | every record lists at least one missing tag, and exactly the required tags absent from its tag map |
| TagAudit.PartitionCounts | theprojectfolder/IDR_pipeline/lambda/tag-audit/tag_audit_function.py:61 | compliant plus non-compliant resources make the whole inventory |
| TagAudit.TypesMembership | theprojectfolder/IDR_pipeline/lambda/tag-audit/tag_audit_function.py:107-112 | a type is present exactly when some record has it |
| TagAudit.OfTypeAbsent | theprojectfolder/IDR_pipeline/lambda/tag-audit/tag_audit_function.py:107-112 | a type no record has has no records |
| TagAudit.TypeOrderFacts | theprojectfolder/IDR_pipeline/lambda/tag-audit/tag_audit_function.py:107-112 | the dictionary's key order holds each present type, once |
| TagAudit.GroupByTypeFacts | theprojectfolder/IDR_pipeline/lambda/tag-audit/tag_audit_function.py:107-112 | `by_type` maps exactly the present types, each to its records in input order |
| TagAudit.GroupStep | theprojectfolder/IDR_pipeline/lambda/tag-audit/tag_audit_function.py:108-112 | one loop step appends the record to its type's list and a new type to the end of the key order |
| TagAudit.GroupRecords | theprojectfolder/IDR_pipeline/lambda/tag-audit/tag_audit_function.py:107-112 | the grouping loop builds `by_type` and its insertion order |
| TagAudit.GroupsOf | theprojectfolder/IDR_pipeline/lambda/tag-audit/tag_audit_function.py:114-125 | one section per key, in key order, each with its count, first five resources and the remainder count |
| TagAudit.EmitSections | theprojectfolder/IDR_pipeline/lambda/tag-audit/tag_audit_function.py:114-125 | the section loop yields the sections of the keys in the order given |
| TagAudit.GroupsOfTypes | theprojectfolder/IDR_pipeline/lambda/tag-audit/tag_audit_function.py:114-125 | the sections built from a list of types are for exactly the types in that list |
| TagAudit.SortedKeysPresent | theprojectfolder/IDR_pipeline/lambda/tag-audit/tag_audit_function.py:114 | every type the report lists is a key of `by_type` |
| TagAudit.ReportFindings | theprojectfolder/IDR_pipeline/lambda/tag-audit/tag_audit_function.py:100-125 | the findings are the all-compliant branch without failures, otherwise one section per type of `by_type` in sorted order |
| TagAudit.GenerateReport | theprojectfolder/IDR_pipeline/lambda/tag-audit/tag_audit_function.py:78-134 | the report holds the total, the compliant and non-compliant counts, the required tags and the findings of the records; its rate is derived from the counts (0 for an empty inventory) |
| TagAudit.AllCompliantIff | theprojectfolder/IDR_pipeline/lambda/tag-audit/tag_audit_function.py:100-103 | the all-compliant branch is taken exactly when there are no failing resources |
| TagAudit.TwoOccurrences | theprojectfolder/IDR_pipeline/lambda/tag-audit/tag_audit_function.py:114 | helper of `ReportOrderFacts`: a value at two positions of a list occurs twice in it |
| TagAudit.DistinctOnce | theprojectfolder/IDR_pipeline/lambda/tag-audit/tag_audit_function.py:114 | helper of `ReportOrderFacts`: a list without repetitions holds each value at most once |
| TagAudit.DistinctPermutation | theprojectfolder/IDR_pipeline/lambda/tag-audit/tag_audit_function.py:114 | helper of `ReportOrderFacts`: a permutation of a list without repetitions has none, so the sorted types stay distinct |
| TagAudit.ReportOrderFacts | theprojectfolder/IDR_pipeline/lambda/tag-audit/tag_audit_function.py:114 | the report lists each present type once, in strictly increasing order, and no other type |
| TagAudit.ReportGroups | theprojectfolder/IDR_pipeline/lambda/tag-audit/tag_audit_function.py:102-125 | with failures the findings are the sections of the sorted types over `by_type` |
| TagAudit.ReportSectionsOrdered | theprojectfolder/IDR_pipeline/lambda/tag-audit/tag_audit_function.py:114 | the sections come in strictly increasing type order |
| TagAudit.ReportSectionsCover | theprojectfolder/IDR_pipeline/lambda/tag-audit/tag_audit_function.py:107-114 | there is a section for a type exactly when some failing resource has that type |
| TagAudit.ReportSectionContents | theprojectfolder/IDR_pipeline/lambda/tag-audit/tag_audit_function.py:114-125 | each section holds its type's records in input order: a non-zero count, the first five (all of them when there are at most five), and "and N more" with N = count - 5 exactly when the count exceeds 5 |
| TagAudit.GroupSectionShown | theprojectfolder/IDR_pipeline/lambda/tag-audit/tag_audit_function.py:118 | a section shows exactly `resources[:5]`: the first five records, all of them when there are at most five |
| TagAudit.OfTypeHas | theprojectfolder/IDR_pipeline/lambda/tag-audit/tag_audit_function.py:110-112 | every record is among the records of its own type |
| TagAudit.CountOfSnoc | theprojectfolder/IDR_pipeline/lambda/tag-audit/tag_audit_function.py:107-112 | helper of `ReportPartition` (through `CountOfCovers`): adding a record adds one to the count of each key equal to its type |
| TagAudit.OccursOnce | theprojectfolder/IDR_pipeline/lambda/tag-audit/tag_audit_function.py:114 | helper of `ReportPartition` (through `CountOfCovers`): in a list without repetitions a value occurs once or not at all |
| TagAudit.CountOfCovers | theprojectfolder/IDR_pipeline/lambda/tag-audit/tag_audit_function.py:107-112 | when every record's type is one of distinct keys, the keys' counts add up to the number of records |
| TagAudit.CountOfEmpty | theprojectfolder/IDR_pipeline/lambda/tag-audit/tag_audit_function.py:107-112 | helper of `ReportPartition` (through `CountOfCovers`): no records, no counts |
| TagAudit.TotalSizeGroups | theprojectfolder/IDR_pipeline/lambda/tag-audit/tag_audit_function.py:114-115 | the section counts add up to the record counts of their types |
| TagAudit.ReportPartition | theprojectfolder/IDR_pipeline/lambda/tag-audit/tag_audit_function.py:107-115 | each failing resource is counted in exactly one section: the section counts add up to the number of failures |
| TagAudit.ComplianceRateBounds | theprojectfolder/IDR_pipeline/lambda/tag-audit/tag_audit_function.py:82 | with no more failures than resources the rate lies in [0, 100], and is 0 for an empty inventory |
| TagAudit.LambdaHandler | theprojectfolder/IDR_pipeline/lambda/tag-audit/tag_audit_function.py:14-65 | the published report is that of the audit records; a publish failure propagates; otherwise the outcome is the summary of the inventory and its records |
| TagAudit.SummaryMeaning | theprojectfolder/IDR_pipeline/lambda/tag-audit/tag_audit_function.py:57-65 | for a non-empty inventory the summary succeeds with the inventory size, the number of compliant resources, the number of records and a rate in [0, 100] |
| TagAudit.EmptyInventoryRaises | theprojectfolder/IDR_pipeline/lambda/tag-audit/tag_audit_function.py:63 | an empty inventory makes the summary fail with a division by zero, while the report's guarded rate is 0 |
| VisitorCounter.MethodDefaultsToGet | theprojectfolder/cloudresumechallenge/backend/lambda/visitor_counter.py:13 | the method is "GET" when requestContext, http or method is missing, and the given method otherwise |
| VisitorCounter.Dispatch | theprojectfolder/cloudresumechallenge/backend/lambda/visitor_counter.py:15-69 | status 200 exactly when the body carries a count; status is 200, 405 or 500; the counter changes only on a successful POST |
| VisitorCounter.PostIncrements | theprojectfolder/cloudresumechallenge/backend/lambda/visitor_counter.py:17-36 | a successful POST stores the old count plus one (1 when absent) and answers 200 with it |
| VisitorCounter.GetReadsOnly | theprojectfolder/cloudresumechallenge/backend/lambda/visitor_counter.py:45-55 | a successful GET answers 200 with the stored count, 0 when absent, and changes nothing |
| VisitorCounter.OtherMethodsRefused | theprojectfolder/cloudresumechallenge/backend/lambda/visitor_counter.py:64-69 | any other method gets 405 "Method Not Allowed" and the counter is untouched, whatever the store would do |
| VisitorCounter.FailureChangesNothing | theprojectfolder/cloudresumechallenge/backend/lambda/visitor_counter.py:38-62 | a store failure gives 500 with the message of the operation tried and leaves the counter as it was |
| VisitorCounter.PostThenGet | theprojectfolder/cloudresumechallenge/backend/lambda/visitor_counter.py:15-55 | a GET right after a successful POST reads the count the POST answered with |
| VisitorCounter.RunCounts | theprojectfolder/cloudresumechallenge/backend/lambda/visitor_counter.py:15-69 | after any request sequence the count has grown by exactly the number of successful POSTs; it exists once one happened and is unchanged when none did |
| VisitorCounter.RunMonotone | theprojectfolder/cloudresumechallenge/backend/lambda/visitor_counter.py:15-69 | serving more requests never lowers the count |
| VisitorCounter.IncrementsPrefix | theprojectfolder/cloudresumechallenge/backend/lambda/visitor_counter.py:15-43 | a prefix of a request sequence has no more successful POSTs than the whole |
| VisitorCounter.VisitorTable.Handle | theprojectfolder/cloudresumechallenge/backend/lambda/visitor_counter.py:7-69 | the handler updates the stored counter and answers as Dispatch says, from the request's method and the counter before the call |

## Left out

- Rates as numbers. The report's and the summary's compliance rate is the member `Rate()` of `TagAudit.Report` and `TagAudit.Summary`, computed from the counts they hold, not a stored field.
- Rounding. Python's `round(x, 2)` is not modelled, nor is the `:.1f` formatting of the compliance rate. Confidences, entity scores, phrase scores and sentiment scores are exact reals, passed through as the service returns them.
- DocumentProcessor.AverageConfidence: the average is stated without rounding to two decimals. It is weaker than the source's value only in that respect.
- Timestamps: `processed_at`, the report date, the SNS subject date and the counter's `timestamp` attribute. Clocks are outside the model.
- Logging. `print` output has no effect on results.
- The report's literal text is not modelled. That covers its wording, separators, the `Existing Tags:` JSON line (printed only when the map is non-empty) and the action items. The model states the report's content: the counts, the rate, the branch taken and the sections.
- JSON encoding of bodies and records. Bodies are datatypes.
- Pagination of the tagging inventory, the SNS topic, the S3 bucket names and the environment variables. External configuration and I/O are left out; the whole inventory is an input.
- Malformed service answers or events that raise `KeyError` or `AttributeError`: a missing `Text`, `Id`, `BlockType`, `Type`, `Ids`, `ResourceARN`, or a tag's `Key` or `Value`, or a non-dict value where a dict is read. The model's types make these fields present. An upload event that cannot be read is modelled as a failed `objectKey`.
- The analysis of a `None` text. The handler always passes a string.
- Event fields present with a null value. `Option` stands for a field that is absent, so a request whose `method` is present but null, which the source dispatches as neither POST nor GET and answers with 405, is not an input the model can express; the same holds for a null `requestContext` or `http`, on which the source raises.
- Decimal numbers from the counter store and `int()` on them. The counter is an integer.
- Concurrent requests to the counter. Requests are served one after another, and a failed update is atomic.
