# Glossary pipeline model

A Dafny model of the glossary builder in `com.transparent.glossary`. The builder turns a tree of XML content files (B4X card lists and similar) into one glossary per language. The glossary lists words and phrases, bucketed by letter. The model follows the pipeline in program order:

- **Reading.** File filters (`PatternFileFilter`, `XmlContentFileFilter`) decide which files a processor entry reads. `GlossaryInputDataReader` turns every record node of an accepted file into a `SortObject`:
  - language codes are trimmed and upper-cased;
  - sort and include fields are trimmed and stripped of CDATA markers, tags and entities;
  - under a name query, the unit label, part of speech and sound paths come from one of three extraction strategies: standard, MARSOC or internal.
- **Processing.** `GlossaryProcessor` walks the folder tree. `SINGLE` processor entries filter each file's entries at once. `ALL` entries collect a folder's entries, tag them with their file's absolute path and filter them together. Each file has two names: the path as listed under the input root (relative when the root is) and its absolute path. The file filters and the tag use the absolute path; the extraction strategies use the listed one. The two post-processing filters are:
  - `SortObjectsL1L2FileMergeFilter`, which merges entries from an L1 file into those of the matching L2 file;
  - `SortObjectsL1L2DuplicateFilter`, which keeps the last entry per NFD key.

  After the walk, phrases are marked and stop words are removed from the sort keys.
- **Sorting.** Entries are sorted with `GlossaryComparator` on the collator of a `CollatorData` profile.
- **Writing.** `GlossaryOutputWriter` buckets the sorted entries by the upper-cased first code point of their primary sort field. The key is aligned with the profile's letter groups and alphabet; everything outside the alphabet goes to a catch-all bucket, and all Mandarin entries share one bucket. Each entry becomes a word or phrase of its letter.

Java's mutable collections become immutable values: a filter returns the new list instead of changing its argument. A Java exception (`RuntimeException`, a null dereference, a failing `assert` that would have been a null dereference) becomes an `Err` of `Results.Result`, which names the failure.

The model takes the libraries the code calls as parameters, the function fields of `Foreign.Env` and `Foreign.XPathView`:

- regex full-match and group extraction;
- locale casing;
- `replaceAll` with a stop-word regex;
- NFD normalisation;
- collator construction and comparison;
- XPath evaluation.

The model assumes nothing about these except where a lemma says so in its `requires`. For example, `Foreign.CollatorIsTotalPreorder` is assumed by the sorting lemmas.

The regular expressions the code writes out itself are modelled exactly, as scanners with grammar lemmas:

- the unit-path pattern;
- the B4X file-name pattern;
- the lookbehind suffix cut;
- the lesson-name prefix;
- the three markup patterns of `stripXhtml`.

The modules are:

| module | what it models |
|---|---|
| `Results` | the result type and the first failure of a sequence |
| `Text` | `String.trim`, `contains`, `split` and `compareTo` |
| `Xhtml` | `stripXhtml` |
| `Entries` | `SortObject` |
| `Extraction` | the three extraction strategies |
| `Reader` | `GlossaryInputDataReader` |
| `FileFilters` | the two file filters |
| `Collation` | `CollatorData` |
| `Comparator` | `GlossaryComparator` |
| `Sorting` | `Collections.sort`: TimSort's procedure for short lists (leading run, binary insertion) |
| `MergeFilter` | the merge filter |
| `DuplicateFilter` | the duplicate filter |
| `ProcessorEntry` | `GlossaryProcessorEntry` |
| `Processor` | `GlossaryProcessor` |
| `Output` | `GlossaryOutputWriter` |

Behaviour of the source that the model exhibits rather than hides:

- **Empty sort fields break antisymmetry.** When either entry has no sort fields, the comparison answers the direction's sign in both argument orders: the entry compares as "after" the other when ascending and "before" it when descending (`Comparator.EmptyFieldsBreakAntisymmetry`). The sort's result then depends on the sort procedure itself, which is why `Sorting` follows TimSort step by step.
- **The first entry is never checked.** A comparison fails only when its first argument has no usable collator. TimSort never passes the list's first element as the first argument, so a list whose only unsortable entry is the first one sorts without error (`Processor.SortEntries`).
- **Different pairs collide.** The duplicate key joins the L1 and L2 texts without a separator, so ("ab", "c") and ("a", "bc") count as duplicates (`DuplicateFilter.UnseparatedKeysCollide`).
- **Stale alphabet.** The profile setters do not clear the parsed-list caches (`Collation.StaleAlphabetAfterSetter`).
- **Lost entries.** A catch-all label equal to an ordinary letter's label shares that letter's map slot, so entries are lost (`Output.LabelClashLosesEntries`). The conservation property `Output.BucketsPartitionEntries` is therefore proved under `Output.ClashFree`.

Paths in the table below are relative to the repository root.

## Model

| member | source | states |
|---|---|---|
| Text.TrimIsInfix | src/main/java/com/transparent/glossary/io/GlossaryInputDataReader.java:233 | `trim` cuts only trimmable characters (code ≤ U+0020) from the two ends; the result is an infix with visible end characters |
| Text.TrimIdempotent | src/main/java/com/transparent/glossary/io/GlossaryInputDataReader.java:233-234 | trimming a trimmed field changes nothing |
| Text.TrimEmptyIff | src/main/java/com/transparent/glossary/processor/GlossaryProcessor.java:340-341 | `trim().length() == 0` holds exactly when every character is trimmable |
| Text.ContainsIff | src/main/java/com/transparent/glossary/processor/GlossaryProcessor.java:287 | `contains` holds exactly when the marker occurs at some position |
| Text.SplitProperties | src/main/java/com/transparent/glossary/sort/CollatorData.java:180-186 | the pieces of `split(" \|\t")` hold no blank and together hold every other character in order; trailing empty pieces are dropped; the result is empty exactly for a non-empty all-blank input |
| Text.SplitWithoutSeparator | src/main/java/com/transparent/glossary/sort/CollatorData.java:184-186 | an alphabet string without blanks is one letter |
| Text.FieldsJoinRoundTrip | src/main/java/com/transparent/glossary/sort/CollatorData.java:189 | the pieces between separators, joined with the separator, give the input back |
| Text.LexLessTotal | src/main/java/com/transparent/glossary/io/GlossaryOutputWriter.java:406 | `compareTo` orders any two different strings one way or the other |
| Text.LexLessAsymmetric | src/main/java/com/transparent/glossary/io/GlossaryOutputWriter.java:406 | no two strings are each below the other |
| Text.LexLessTransitive | src/main/java/com/transparent/glossary/io/GlossaryOutputWriter.java:406 | `compareTo` order is transitive |
| Text.FindFromIsLeftmost | src/main/java/com/transparent/glossary/io/StandardExtractionStrategy.java:58-62 | `Matcher.find` reports the leftmost matching position; with no report, no position matches |
| Xhtml.StripCdataOpen | src/main/java/com/transparent/glossary/io/GlossaryInputDataReader.java:296 | `\A<!\[CDATA\[` is removed only at the very start |
| Xhtml.StripCdataClose | src/main/java/com/transparent/glossary/io/GlossaryInputDataReader.java:298 | `\]\]>\Z` is removed at the end, or before one final line terminator (or CRLF); a text without ']' is unchanged |
| Xhtml.BodyLengthIff | src/main/java/com/transparent/glossary/io/GlossaryInputDataReader.java:299-321 | the tag scanner finds a body ending at k exactly when the grammar `(?:[^>"']\|"[^"]*"\|'[^']*')*` admits the text before that '>' |
| Xhtml.TagLengthIff | src/main/java/com/transparent/glossary/io/GlossaryInputDataReader.java:321 | the tag found at the front is exactly a whole match of the tag pattern, and it is unique |
| Xhtml.QuotedCloserExample | src/main/java/com/transparent/glossary/io/GlossaryInputDataReader.java:299 | a '>' inside a quoted attribute value does not close the tag |
| Xhtml.StripTagsPlain | src/main/java/com/transparent/glossary/io/GlossaryInputDataReader.java:321-324 | text without '<' loses nothing to the tag pass |
| Xhtml.WholeTagVanishes | src/main/java/com/transparent/glossary/io/GlossaryInputDataReader.java:321-324 | a field that is one tag cleans to the empty string |
| Xhtml.EntityLengthIff | src/main/java/com/transparent/glossary/io/GlossaryInputDataReader.java:323 | the entity scanner finds exactly the whole matches of `&\w*[&;]` |
| Xhtml.StripEntitiesKeepsPrefix | src/main/java/com/transparent/glossary/io/GlossaryInputDataReader.java:323-324 | text before the first '&' passes the entity pass unchanged |
| Xhtml.NoEntityAfterStripping | src/main/java/com/transparent/glossary/io/GlossaryInputDataReader.java:323-324 | the entity pass leaves no entity behind |
| Xhtml.StripXhtml | src/main/java/com/transparent/glossary/io/GlossaryInputDataReader.java:293-325 | the four passes never lengthen a field, and the result holds no entity |
| Xhtml.StripXhtmlPlain | src/main/java/com/transparent/glossary/io/GlossaryInputDataReader.java:293-325 | text with no '<', '&' or ']' comes out unchanged |
| Entries.NewSortObject | src/main/java/com/transparent/glossary/model/SortObject.java:140-151 | a new entry has null codes, sound paths, unit and part of speech; empty lists and maps; and is not a phrase |
| Entries.WithSortFields | src/main/java/com/transparent/glossary/processor/GlossaryProcessor.java:307-313 | replacing one axis's sort fields leaves every other field of the entry, including the other axis, unchanged |
| Entries.TagOrigin | src/main/java/com/transparent/glossary/processor/GlossaryProcessor.java:262-267 | recording the source file changes only the user data, at key "" |
| Entries.TagAll | src/main/java/com/transparent/glossary/processor/GlossaryProcessor.java:262-267 | every entry of the list is tagged, in place |
| Extraction.PlatformSeparator | src/main/java/com/transparent/glossary/io/StandardExtractionStrategy.java:89-101 | the unit pattern uses '\' exactly when the platform separator is "\" |
| Extraction.UnitRootLengthIff | src/main/java/com/transparent/glossary/io/StandardExtractionStrategy.java:94-98 | the unit-root scanner finds k exactly when the first k characters match `unit\d{1,2}S data S \w{12}\w+ S` |
| Extraction.FirstUnitRoot | src/main/java/com/transparent/glossary/io/StandardExtractionStrategy.java:54-69 | the unit root is empty or a '/'-separated unit root, and holds no '\' |
| Extraction.FirstUnitRootIsLeftmost | src/main/java/com/transparent/glossary/io/StandardExtractionStrategy.java:54-69 | the root is empty exactly when no part of the path matches; otherwise it is the leftmost match with '\' turned into '/' |
| Extraction.SlashedRootKeepsShape | src/main/java/com/transparent/glossary/io/StandardExtractionStrategy.java:68 | turning '\' into '/' keeps a unit root a unit root |
| Extraction.UnitNumber | src/main/java/com/transparent/glossary/io/StandardExtractionStrategy.java:71-87 | the unit number is one to three digits |
| Extraction.UnitNumberOfEmptyRoot | src/main/java/com/transparent/glossary/io/StandardExtractionStrategy.java:81-85 | a root without `unit\d` gives "00" |
| Extraction.StandardUnitLabel | src/main/java/com/transparent/glossary/io/StandardExtractionStrategy.java:35-40 | the label is "Unit " followed by one to three digits |
| Extraction.StandardUnitLabelIsTrimmed | src/main/java/com/transparent/glossary/io/StandardExtractionStrategy.java:39 | the final `trim` of the label changes nothing |
| Extraction.StandardUnitLabelOfEmptyRoot | src/main/java/com/transparent/glossary/io/StandardExtractionStrategy.java:54-87 | a path without a unit pattern is labelled "Unit 00" |
| Extraction.StandardUnitLabelOfRoot | src/main/java/com/transparent/glossary/io/StandardExtractionStrategy.java:35-80 | a unit root shows its own one or two unit digits |
| Extraction.StandardSoundPath | src/main/java/com/transparent/glossary/io/StandardExtractionStrategy.java:103-116 | an empty sound URL gives ""; otherwise the root followed by the URL |
| Extraction.B4XNameLengthIff | src/main/java/com/transparent/glossary/io/MarsocExtractionStrategy.java:28 | the file-name scanner finds k exactly when the first k characters match `[A-Za-z]{5}_[A-Za-z]{5}_\d{2,}_[A-Za-z_]*\.xml` |
| Extraction.FirstB4XName | src/main/java/com/transparent/glossary/io/MarsocExtractionStrategy.java:41-56 | the name is a match without its ".xml", or the fallback "ENGus_ENGus_99" |
| Extraction.FirstUnitDigitsEnd | src/main/java/com/transparent/glossary/io/MarsocExtractionStrategy.java:131 | the first position where the lookbehind `(?<=_\d\d)` holds, with none before it |
| Extraction.StripPartOfSpeechSuffix | src/main/java/com/transparent/glossary/io/MarsocExtractionStrategy.java:127-132 | with no "_dd" the name is unchanged; otherwise the text from the first "_dd" on is cut |
| Extraction.SuffixCutAfterUnitDigits | src/main/java/com/transparent/glossary/io/MarsocExtractionStrategy.java:127-132 | a coded name is cut right after its unit digits |
| Extraction.MarsocUnitNumber | src/main/java/com/transparent/glossary/io/MarsocExtractionStrategy.java:99-114 | after the cut, what follows the language-code pair, or "00" when the pair is missing |
| Extraction.MarsocUnitLabelOfCodedName | src/main/java/com/transparent/glossary/io/MarsocExtractionStrategy.java:58-114 | a name such as `PORbr_ENGus_19_...` is labelled "Unit 19" |
| Extraction.LastLessonSeparator | src/main/java/com/transparent/glossary/io/MarsocExtractionStrategy.java:96 | the backtracking of the greedy `\w*` ends at the last "_dd_" |
| Extraction.StripLessonName | src/main/java/com/transparent/glossary/io/MarsocExtractionStrategy.java:92-97 | without a `\A\w*_\d\d_` prefix the name is unchanged; otherwise the longest such prefix is removed |
| Extraction.LessonPrefixWithinRun | src/main/java/com/transparent/glossary/io/MarsocExtractionStrategy.java:96 | a lesson prefix is exactly a "_dd_" that ends inside the leading word run |
| Extraction.LessonNameOfCodedName | src/main/java/com/transparent/glossary/io/MarsocExtractionStrategy.java:87-97 | a name with a letters-only lesson name gives that lesson name as its part of speech |
| Extraction.MarsocPartOfSpeech | src/main/java/com/transparent/glossary/io/MarsocExtractionStrategy.java:87-90 | the part of speech holds no '_' |
| Extraction.FallbackNameOutcome | src/main/java/com/transparent/glossary/io/MarsocExtractionStrategy.java:50-54 | the fallback name is labelled "Unit 99", and its part of speech is the name with spaces for underscores |
| Extraction.MarsocSoundPath | src/main/java/com/transparent/glossary/io/MarsocExtractionStrategy.java:65-79 | an empty sound path gives ""; otherwise "alphabet/glossary/", the name, "/" and the path |
| Extraction.InternalSoundPath | src/main/java/com/transparent/glossary/io/InternalExtractionStrategy.java:57-65 | an empty standard path stays empty; otherwise it is prefixed with "../" and trimmed |
| Extraction.ChooseStrategy | src/main/java/com/transparent/glossary/io/GlossaryInputDataReader.java:193-205 | the internal rules win over the MARSOC rules, which win over the standard rules; each strategy holds what its constructor computes |
| Extraction.UnitLabel | src/main/java/com/transparent/glossary/io/InternalExtractionStrategy.java:39-43 | the internal rules show the list name itself |
| Extraction.PartOfSpeech | src/main/java/com/transparent/glossary/io/InternalExtractionStrategy.java:45-55 | standard: "uncategorized"; MARSOC: from the name; internal: the trimmed answer of the query, "unclassified" when it fails, and a failure when the query is unset |
| Reader.NewReaderConfig | src/main/java/com/transparent/glossary/io/GlossaryInputDataReader.java:338-377 | a new reader has no queries, empty lists and map, and the standard rules |
| Reader.CleanField | src/main/java/com/transparent/glossary/io/GlossaryInputDataReader.java:233-234 | a stored field is never longer than the raw answer, and plain trimmed text is stored as it is |
| Reader.QueryLanguageCode | src/main/java/com/transparent/glossary/io/GlossaryInputDataReader.java:183-184 | an unset query gives null; otherwise the trimmed, upper-cased answer, and a failing query fails |
| Reader.QueryDocument | src/main/java/com/transparent/glossary/io/GlossaryInputDataReader.java:183-185 | the document answers exist exactly when all three queries answer; the list name is "" without a name query |
| Reader.QueryFields | src/main/java/com/transparent/glossary/io/GlossaryInputDataReader.java:231-244 | one cleaned field per query, in query order, exactly when every query answers |
| Reader.QueryIncludes | src/main/java/com/transparent/glossary/io/GlossaryInputDataReader.java:254-259 | the include map has the configured names, each mapped to its query's cleaned answer |
| Reader.EmptyPhraseNotices | src/main/java/com/transparent/glossary/io/GlossaryInputDataReader.java:275-285 | one notice naming the card per empty field, and none when no field is empty |
| Reader.QuerySound | src/main/java/com/transparent/glossary/io/GlossaryInputDataReader.java:217-227 | an unset query gives null; otherwise the strategy's path for the trimmed answer |
| Reader.QueryMetadata | src/main/java/com/transparent/glossary/io/GlossaryInputDataReader.java:212-228 | without a name query all four metadata fields are null; with one, the unit and part of speech are set, and each sound path is set exactly when its query is |
| Reader.QueryMetadataContents | src/main/java/com/transparent/glossary/io/GlossaryInputDataReader.java:212-228 | under a name query the metadata is the strategy's unit label, part of speech and sound paths |
| Reader.NodeNotices | src/main/java/com/transparent/glossary/io/GlossaryInputDataReader.java:246-251 | notices come only under a name query, naming the card by its trimmed name |
| Reader.ReadNode | src/main/java/com/transparent/glossary/io/GlossaryInputDataReader.java:191-263 | one node's entry carries the document codes, the queried sort fields and include map, and the metadata; it is not a phrase |
| Reader.ReadNodeUnitLabel | src/main/java/com/transparent/glossary/io/GlossaryInputDataReader.java:193-214 | the unit label comes from the strategy the configuration selects |
| Reader.ReadNodes | src/main/java/com/transparent/glossary/io/GlossaryInputDataReader.java:188-264 | one entry per node, in node order, exactly when every node reads |
| Reader.ReadCollection | src/main/java/com/transparent/glossary/io/GlossaryInputDataReader.java:175-273 | the read succeeds exactly when the collection and the document queries answer and every node reads; any failure is a read failure naming the file |
| Reader.ReadSortObjects | src/main/java/com/transparent/glossary/io/GlossaryInputDataReader.java:147-165 | an unparsable file or a missing collection query fails naming the file's absolute path |
| Reader.ReadSortObjectsEntries | src/main/java/com/transparent/glossary/io/GlossaryInputDataReader.java:188-263 | a successful read holds one entry per collected node, each read from that node |
| Reader.OneFailingQueryFailsTheRead | src/main/java/com/transparent/glossary/io/GlossaryInputDataReader.java:231-270 | one failing sort-field query on any node fails the whole file |
| FileFilters.PatternAccept | src/main/java/com/transparent/glossary/io/PatternFileFilter.java:40-53 | accepts exactly when some pattern fully matches the file's absolute path; stops at the first one that does |
| FileFilters.PatternOrderIrrelevant | src/main/java/com/transparent/glossary/io/PatternFileFilter.java:45-50 | reordering the patterns does not change the answer |
| FileFilters.NoPatternsAcceptNothing | src/main/java/com/transparent/glossary/io/PatternFileFilter.java:40-56 | a filter without patterns accepts no file |
| FileFilters.ParseInt | src/main/java/com/transparent/glossary/io/XmlContentFileFilter.java:117 | `parseInt` succeeds only on a sign and digits denoting a 32-bit value |
| FileFilters.ParseIntRoundTrip | src/main/java/com/transparent/glossary/io/XmlContentFileFilter.java:114-123 | every 32-bit number written in decimal parses back to itself |
| FileFilters.DecimalRoundTrip | src/main/java/com/transparent/glossary/io/XmlContentFileFilter.java:117 | the digits of a number denote that number |
| FileFilters.SplitCall | src/main/java/com/transparent/glossary/io/XmlContentFileFilter.java:103-107 | `name(argument)` splits into exactly the name and the argument |
| FileFilters.Evaluate | src/main/java/com/transparent/glossary/io/XmlContentFileFilter.java:99-141 | an expression that splits into fewer than two pieces fails; a success names a count function or `value`; every failure is a malformed expression, an unknown function, or a failed XPath evaluation reported as a failed check of the file |
| FileFilters.CountNotEqualExpression | src/main/java/com/transparent/glossary/io/XmlContentFileFilter.java:109-118 | `length(!=N)` accepts exactly the documents whose node count is not N |
| FileFilters.CountEqualExpression | src/main/java/com/transparent/glossary/io/XmlContentFileFilter.java:119-123 | `length(==N)` accepts exactly the documents whose node count is N |
| FileFilters.CountOtherOperator | src/main/java/com/transparent/glossary/io/XmlContentFileFilter.java:109-125 | a count argument with any other operator never accepts |
| FileFilters.ValueExpression | src/main/java/com/transparent/glossary/io/XmlContentFileFilter.java:127-132 | `value(arg)` accepts exactly when the string value equals arg without its first two characters |
| FileFilters.UnknownFunctionExpression | src/main/java/com/transparent/glossary/io/XmlContentFileFilter.java:133-138 | any other function name fails with that name |
| FileFilters.ContentAccept | src/main/java/com/transparent/glossary/io/XmlContentFileFilter.java:65-88 | a path matched by a pattern, or not ending in "xml", is refused; otherwise the answer is the evaluation of the parsed document |
| Collation.NewCollatorData | src/main/java/com/transparent/glossary/sort/CollatorData.java:209-215 | a new profile has locale "_NA_" and every other string unset |
| Collation.MiscBucketLabel | src/main/java/com/transparent/glossary/sort/CollatorData.java:136-142 | the configured label, or "*" when it is unset or empty |
| Collation.SplitBlankList | src/main/java/com/transparent/glossary/sort/CollatorData.java:180-186 | an unset string gives no words; otherwise the words hold no blanks and together hold every other character |
| Collation.CollapseGroupsIsReference | src/main/java/com/transparent/glossary/sort/CollatorData.java:188-206 | each letter group is a configured group with its blanks removed; blank-only groups are dropped |
| Collation.LetterGroupsHaveNoSeparators | src/main/java/com/transparent/glossary/sort/CollatorData.java:188-206 | parsed letter groups hold no '\|' and no blank |
| Collation.MakeCollator | src/main/java/com/transparent/glossary/sort/CollatorData.java:152-177 | locale-based for a Java locale; otherwise rule-based, failing when the rules are missing or do not parse |
| Collation.GetCollator | src/main/java/com/transparent/glossary/sort/CollatorData.java:75-87 | the cached collator unless none is cached or a rebuild is asked; a successful build is cached |
| Collation.GetStopWords | src/main/java/com/transparent/glossary/sort/CollatorData.java:92-104 | the cached list unless none is cached or a rebuild is asked; the answer is cached |
| Collation.GetAlphabet | src/main/java/com/transparent/glossary/sort/CollatorData.java:109-121 | as for the stop words, for the alphabet |
| Collation.GetLetterGroups | src/main/java/com/transparent/glossary/sort/CollatorData.java:123-134 | as for the stop words, for the letter groups |
| Collation.CachingIsTransparent | src/main/java/com/transparent/glossary/sort/CollatorData.java:75-134 | with current caches every getter answers what parsing the strings gives, and the caches stay current |
| Collation.StaleAlphabetAfterSetter | src/main/java/com/transparent/glossary/sort/CollatorData.java:109-121 | after a first `getAlphabet`, setting a new alphabet does not change what `getAlphabet(false)` answers |
| Comparator.CollatorOf | src/main/java/com/transparent/glossary/sort/GlossaryComparator.java:65-81 | a comparison needs both codes of the first entry, and a profile for its axis code |
| Comparator.CompareFrom | src/main/java/com/transparent/glossary/sort/GlossaryComparator.java:86-94 | the loop answers 0 exactly when all common positions collate equal, and otherwise the collator's answer at some position |
| Comparator.CommonPrefixCompare | src/main/java/com/transparent/glossary/sort/GlossaryComparator.java:74-94 | with no common position the answer is the initial 1 |
| Comparator.Compare | src/main/java/com/transparent/glossary/sort/GlossaryComparator.java:58-97 | fails exactly when the first entry's collator cannot be had; with no common field it answers the direction sign |
| Comparator.DescendingNegatesAscending | src/main/java/com/transparent/glossary/sort/GlossaryComparator.java:75-96 | descending is ascending negated, failures included |
| Comparator.EmptyFieldsBreakAntisymmetry | src/main/java/com/transparent/glossary/sort/GlossaryComparator.java:74-96 | when either entry has no sort fields, both argument orders answer the direction's sign: "after" (ascending) or "before" (descending) each time |
| Comparator.SecondCodesIgnored | src/main/java/com/transparent/glossary/sort/GlossaryComparator.java:65-77 | the second entry's language codes do not affect the result |
| Comparator.CompareFromAntisymmetric | src/main/java/com/transparent/glossary/sort/GlossaryComparator.java:86-94 | with an antisymmetric collator, swapping the lists negates the loop's answer |
| Comparator.CompareFromTransitive | src/main/java/com/transparent/glossary/sort/GlossaryComparator.java:86-94 | with a total-preorder collator, the loop is transitive on lists of one length |
| Comparator.UniformCompareValue | src/main/java/com/transparent/glossary/sort/GlossaryComparator.java:74-96 | on entries of one language and field count, the comparison is the directed loop |
| Comparator.CompareIsPreorderOnUniform | src/main/java/com/transparent/glossary/sort/GlossaryComparator.java:58-97 | on such entries the comparator keeps `Comparator`'s sign and transitivity contract |
| Sorting.RunEnd | src/main/java/com/transparent/glossary/processor/GlossaryProcessor.java:147 | the run search stops at the first element that does not continue the run, having compared every run element with its predecessor; a failure is the failure of one of those comparisons |
| Sorting.LeadingRun | src/main/java/com/transparent/glossary/processor/GlossaryProcessor.java:147 | the leading run has at least two elements; the second element's comparison with the first fixes its direction, and the first element after it breaks that direction |
| Sorting.MakeAscending | src/main/java/com/transparent/glossary/processor/GlossaryProcessor.java:147 | a descending run is reversed in place and the rest is untouched; the result is a permutation |
| Sorting.InsertionPoint | src/main/java/com/transparent/glossary/processor/GlossaryProcessor.java:147 | the binary search answers a position inside its range, its first comparison is with the middle element, and a failure is a comparison of the pivot with an element of the range |
| Sorting.InsertionPointAtSignChange | src/main/java/com/transparent/glossary/processor/GlossaryProcessor.java:147 | when the pivot's comparisons with the prefix are not negative before a point and negative from it on, the binary search returns exactly that point |
| Sorting.InsertionPointSplits | src/main/java/com/transparent/glossary/processor/GlossaryProcessor.java:147 | into a prefix in order, the binary search succeeds and puts the pivot after every element it is not below and before every element it is below |
| Sorting.Place | src/main/java/com/transparent/glossary/processor/GlossaryProcessor.java:147 | the shift moves the pivot to its position and every element between one place right; the result is a permutation |
| Sorting.TimSort | src/main/java/com/transparent/glossary/processor/GlossaryProcessor.java:147 | lists of fewer than two elements are returned without any comparison; a successful sort returns a permutation |
| Sorting.TieBreakKeepsContract | src/main/java/com/transparent/glossary/processor/GlossaryProcessor.java:147 | breaking a total preorder's ties by position gives an order that is still antisymmetric and transitive |
| Sorting.BinaryInsertStable | src/main/java/com/transparent/glossary/processor/GlossaryProcessor.java:147 | binary insertion places each element after the earlier-listed elements it ties with |
| Sorting.TimSortTieBroken | src/main/java/com/transparent/glossary/processor/GlossaryProcessor.java:147 | under a total preorder, the sort of a list is in order even with ties broken by input position |
| Sorting.TimSortMap | src/main/java/com/transparent/glossary/processor/GlossaryProcessor.java:147 | sorting the images of a list equals mapping the sort of the list under the pulled-back comparator |
| Sorting.TimSortStable | src/main/java/com/transparent/glossary/processor/GlossaryProcessor.java:147 | under a total preorder, the sort succeeds, returns a rearrangement of the input, and keeps tied elements in input order |
| Sorting.TimSortCompared | src/main/java/com/transparent/glossary/processor/GlossaryProcessor.java:147 | after a successful sort, every element but the first has been the first argument of a comparison that answered |
| Sorting.TimSortSorted | src/main/java/com/transparent/glossary/processor/GlossaryProcessor.java:147 | with a comparator that is antisymmetric and transitive on the elements, the sort succeeds and its result is in order |
| Sorting.AdjacentSortedIsSorted | src/main/java/com/transparent/glossary/processor/GlossaryProcessor.java:147 | with a transitive comparator, neighbour order is order between any two positions |
| Sorting.SortedInputUnchanged | src/main/java/com/transparent/glossary/processor/GlossaryProcessor.java:147 | an input already in order is one ascending run and comes back unchanged |
| Sorting.DescendingInputReversed | src/main/java/com/transparent/glossary/processor/GlossaryProcessor.java:147 | an input in which each element compares below its predecessor is one descending run and comes back reversed, whatever the comparator answers elsewhere |
| MergeFilter.ReplaceWithoutDoubleBackslash | src/main/java/com/transparent/glossary/processor/SortObjectsL1L2FileMergeFilter.java:66 | a pattern without a doubled backslash is left as it is |
| MergeFilter.ReplaceRemovesDoubleBackslash | src/main/java/com/transparent/glossary/processor/SortObjectsL1L2FileMergeFilter.java:66 | replacing with a backslash-free separator leaves no doubled backslash |
| MergeFilter.CommonPartPattern | src/main/java/com/transparent/glossary/processor/SortObjectsL1L2FileMergeFilter.java:60-67 | on Windows the pattern is kept; elsewhere no doubled backslash remains |
| MergeFilter.Classify | src/main/java/com/transparent/glossary/processor/SortObjectsL1L2FileMergeFilter.java:142-193 | an entry without a file fails; the file must match the common-part pattern with one group, then the L1 pattern (tried first) or the L2 pattern |
| MergeFilter.ClassifyAll | src/main/java/com/transparent/glossary/processor/SortObjectsL1L2FileMergeFilter.java:134-194 | succeeds exactly when every entry classifies, keeping order; a failure is some entry's failure |
| MergeFilter.Merged | src/main/java/com/transparent/glossary/processor/SortObjectsL1L2FileMergeFilter.java:105-111 | the merged entry takes the L2 code and L2 sort fields of its partner, adds the partner's include fields over its own, and keeps everything else |
| MergeFilter.MergePairs | src/main/java/com/transparent/glossary/processor/SortObjectsL1L2FileMergeFilter.java:98-115 | the i-th L1 entry merges with the i-th L2 entry |
| MergeFilter.MergeGroups | src/main/java/com/transparent/glossary/processor/SortObjectsL1L2FileMergeFilter.java:89-116 | the output has one entry per L1-side entry; the only failure is a missing partner |
| MergeFilter.MergeGroupsSucceedsIff | src/main/java/com/transparent/glossary/processor/SortObjectsL1L2FileMergeFilter.java:89-95 | the merge succeeds exactly when every L1 key has at least as many L2 entries as L1 entries |
| MergeFilter.SingleKeyMerge | src/main/java/com/transparent/glossary/processor/SortObjectsL1L2FileMergeFilter.java:89-115 | N L1 and N L2 entries of one file pair merge pairwise in order |
| MergeFilter.L2OnlyKeyContributesNothing | src/main/java/com/transparent/glossary/processor/SortObjectsL1L2FileMergeFilter.java:89-116 | entries of a key with no L1 side are dropped without effect on the rest |
| MergeFilter.Merge | src/main/java/com/transparent/glossary/processor/SortObjectsL1L2FileMergeFilter.java:74-123 | a classification failure is the filter's failure; the filter succeeds exactly when every entry classifies and every L1 key has enough L2 partners; the output has one entry per L1-side entry |
| MergeFilter.MergedPairPresent | src/main/java/com/transparent/glossary/processor/SortObjectsL1L2FileMergeFilter.java:89-115 | for every key, the i-th L1-side entry has an i-th L2-side partner and their merge is in the output |
| MergeFilter.MergedPairOrigin | src/main/java/com/transparent/glossary/processor/SortObjectsL1L2FileMergeFilter.java:89-115 | every output entry is the i-th L1-side entry of some key merged with the i-th L2-side entry of that key |
| MergeFilter.MergeGroupsStep | src/main/java/com/transparent/glossary/processor/SortObjectsL1L2FileMergeFilter.java:89-115 | one pass of the key loop: the first L1 key has enough partners, its pairs come first, then the merge of the other keys |
| MergeFilter.MergeContents | src/main/java/com/transparent/glossary/processor/SortObjectsL1L2FileMergeFilter.java:74-123 | on a whole folder, the i-th L1-file entry of each common name part comes out merged with the i-th L2-file entry |
| MergeFilter.MergeOutputOrigin | src/main/java/com/transparent/glossary/processor/SortObjectsL1L2FileMergeFilter.java:74-123 | every entry the filter returns is such a merged pair of one common name part |
| DuplicateFilter.DuplicateKey | src/main/java/com/transparent/glossary/processor/SortObjectsL1L2DuplicateFilter.java:38-40 | a missing "L1" or "L2" field fails, naming it; otherwise the key is NFD(L1) followed by NFD(L2) |
| DuplicateFilter.CheckKeyed | src/main/java/com/transparent/glossary/processor/SortObjectsL1L2DuplicateFilter.java:36-43 | the loop fails exactly when some entry lacks a key, with that entry's failure |
| DuplicateFilter.RemoveDuplicates | src/main/java/com/transparent/glossary/processor/SortObjectsL1L2DuplicateFilter.java:28-49 | succeeds exactly when every entry has both fields; keeps, for each distinct key, the last entry with it; the kept keys are distinct and are exactly the input keys |
| DuplicateFilter.KeptKey | src/main/java/com/transparent/glossary/processor/SortObjectsL1L2DuplicateFilter.java:36-46 | the j-th kept entry carries the j-th distinct key |
| DuplicateFilter.KeptEntriesAreLastInputs | src/main/java/com/transparent/glossary/processor/SortObjectsL1L2DuplicateFilter.java:42 | each kept entry is the last input entry with its key |
| DuplicateFilter.EveryKeyKeptOnce | src/main/java/com/transparent/glossary/processor/SortObjectsL1L2DuplicateFilter.java:32-46 | every input key is carried by exactly one kept entry |
| DuplicateFilter.OutputCountsDistinctKeys | src/main/java/com/transparent/glossary/processor/SortObjectsL1L2DuplicateFilter.java:45-46 | the output size is the number of distinct keys |
| DuplicateFilter.RemoveDuplicatesIdempotent | src/main/java/com/transparent/glossary/processor/SortObjectsL1L2DuplicateFilter.java:28-49 | filtering twice is filtering once |
| DuplicateFilter.RepeatedInputReducesAlike | src/main/java/com/transparent/glossary/processor/SortObjectsL1L2DuplicateFilter.java:28-49 | a collection given twice reduces to what it reduces to alone |
| DuplicateFilter.UnseparatedKeysCollide | src/main/java/com/transparent/glossary/processor/SortObjectsL1L2DuplicateFilter.java:38-40 | ("ab", "c") and ("a", "bc") are duplicates, and only the second survives |
| ProcessorEntry.NewEntry | src/main/java/com/transparent/glossary/processor/GlossaryProcessorEntry.java:67-70 | a new entry has no readers, no filters and the SINGLE rule |
| ProcessorEntry.RunFilters | src/main/java/com/transparent/glossary/processor/GlossaryProcessorEntry.java:59-64 | no filters leave the entries as they are; a failing first filter fails the run |
| ProcessorEntry.RunFiltersAppend | src/main/java/com/transparent/glossary/processor/GlossaryProcessorEntry.java:59-64 | running two filter lists in turn is running their concatenation |
| ProcessorEntry.DefaultEntryKeepsEntries | src/main/java/com/transparent/glossary/processor/GlossaryProcessorEntry.java:59-70 | a default entry hands the entries back untouched |
| ProcessorEntry.DuplicateFilterTwiceIsOnce | src/main/java/com/transparent/glossary/processor/GlossaryProcessorEntry.java:59-64 | registering the duplicate filter twice is registering it once |
| Processor.ReadIfAccepted | src/main/java/com/transparent/glossary/processor/GlossaryProcessor.java:246-254 | the filter sees the file's absolute path and a failing filter fails; a refused file reads nothing; entries come only from accepted files, read with the listed path (which the extraction strategies use) |
| Processor.LoadSortObjects | src/main/java/com/transparent/glossary/processor/GlossaryProcessor.java:241-257 | loading succeeds exactly when every reader succeeds on the file |
| Processor.LoadSortObjectsAppend | src/main/java/com/transparent/glossary/processor/GlossaryProcessor.java:246-254 | loading with two reader lists is loading with each, the first one's entries first |
| Processor.UnacceptedFileLoadsNothing | src/main/java/com/transparent/glossary/processor/GlossaryProcessor.java:241-257 | a file no filter accepts loads nothing |
| Processor.HandleFile | src/main/java/com/transparent/glossary/processor/GlossaryProcessor.java:186-212 | the result only grows; an ALL entry's pending list only grows, by entries tagged with the file's absolute path |
| Processor.HandleFiles | src/main/java/com/transparent/glossary/processor/GlossaryProcessor.java:178-214 | the result only grows, and SINGLE entries collect nothing pending |
| Processor.FlushAll | src/main/java/com/transparent/glossary/processor/GlossaryProcessor.java:216-225 | with no ALL entries nothing is flushed; a success is the concatenation, in entry order, of what each ALL entry's filter chain gives for its collection |
| Processor.FlushAllStep | src/main/java/com/transparent/glossary/processor/GlossaryProcessor.java:216-225 | one flush step: a SINGLE entry adds nothing, an ALL entry adds its chain's output before the rest |
| Processor.FlushAllSucceedsIff | src/main/java/com/transparent/glossary/processor/GlossaryProcessor.java:216-225 | the flush succeeds exactly when every ALL entry's filter chain succeeds |
| Processor.FlushAllFailure | src/main/java/com/transparent/glossary/processor/GlossaryProcessor.java:216-225 | a failed flush is the failure of the first ALL entry whose chain fails; every earlier ALL entry succeeded |
| Processor.ProcessInput | src/main/java/com/transparent/glossary/processor/GlossaryProcessor.java:173-236 | the walk only appends to the result |
| Processor.ProcessFolders | src/main/java/com/transparent/glossary/processor/GlossaryProcessor.java:232-235 | walking the subfolders only appends to the result |
| Processor.CollectedEntriesAreTagged | src/main/java/com/transparent/glossary/processor/GlossaryProcessor.java:191-205 | everything an ALL entry collects in a folder carries the absolute path of one of its files |
| Processor.HandleFilesDrop | src/main/java/com/transparent/glossary/processor/GlossaryProcessor.java:178-214 | the file loop from position `j` equals the loop over the listing without its first child from `j - 1` |
| Processor.HandleFilesOnFiles | src/main/java/com/transparent/glossary/processor/GlossaryProcessor.java:178-214 | the file loop over a listing is the loop over its files alone, in listing order |
| Processor.ProcessFoldersDrop | src/main/java/com/transparent/glossary/processor/GlossaryProcessor.java:232-235 | the subfolder loop from position `j` equals the loop over the listing without its first child from `j - 1` |
| Processor.ProcessFoldersOnFolders | src/main/java/com/transparent/glossary/processor/GlossaryProcessor.java:232-235 | the subfolder loop over a listing is the loop over its subfolders alone, in listing order |
| Processor.HasFileIff | src/main/java/com/transparent/glossary/processor/GlossaryProcessor.java:217 | a listing has a file exactly when its list of files is non-empty |
| Processor.FilesBeforeFolders | src/main/java/com/transparent/glossary/processor/GlossaryProcessor.java:173-236 | the walk of a folder is its files in listing order, then the flush of the ALL entries when there is a file, then its subfolders in listing order |
| Processor.FileBeforeEarlierFolder | src/main/java/com/transparent/glossary/processor/GlossaryProcessor.java:173-236 | a file listed after a subfolder is handled, and the folder flushed, before that subfolder is walked |
| Processor.HandleFilesIgnoresFolder | src/main/java/com/transparent/glossary/processor/GlossaryProcessor.java:178-183 | a folder in the listing does not affect the file loop |
| Processor.ProcessFoldersAppend | src/main/java/com/transparent/glossary/processor/GlossaryProcessor.java:232-235 | a subfolder listed last is walked after the others |
| Processor.LastSubfolderWalkedLast | src/main/java/com/transparent/glossary/processor/GlossaryProcessor.java:173-236 | a last subfolder's entries come after everything else the listing yields |
| Processor.WalkWithoutEntries | src/main/java/com/transparent/glossary/processor/GlossaryProcessor.java:173-236 | with no processor entries the walk adds nothing, however deep the tree |
| Processor.IsPhrase | src/main/java/com/transparent/glossary/processor/GlossaryProcessor.java:282-294 | a phrase exactly when some marker occurs in the text; a missing text fails unless there are no markers |
| Processor.MarkPhrases | src/main/java/com/transparent/glossary/processor/GlossaryProcessor.java:273-280 | each entry's flag is set from its "L1" include field and nothing else changes; a missing field fails when there are markers |
| Processor.MarkPhrasesIdempotent | src/main/java/com/transparent/glossary/processor/GlossaryProcessor.java:273-280 | marking twice is marking once |
| Processor.RemoveStopWords | src/main/java/com/transparent/glossary/processor/GlossaryProcessor.java:321-347 | the result is trimmed; a stripped text with visible characters gives its trim, and otherwise the trimmed original field |
| Processor.NoStopWordsOnlyLowers | src/main/java/com/transparent/glossary/processor/GlossaryProcessor.java:321-347 | without a profile or stop words, only default lower-casing and the blank check apply |
| Processor.RemoveStopWordsFromSortKeys | src/main/java/com/transparent/glossary/processor/GlossaryProcessor.java:296-315 | entries stay in place; skipped entries are unchanged; otherwise only the sort fields change, each through `removeStopWords` |
| Processor.StrippedFieldsUseTheirAxisProfile | src/main/java/com/transparent/glossary/processor/GlossaryProcessor.java:307-313 | each L1 (L2) sort field is stripped with the L1 (L2) code's profile |
| Processor.WithFlagPartition | src/main/java/com/transparent/glossary/processor/GlossaryProcessor.java:119-127 | words and phrases together are the input entries |
| Processor.SplitWordsAndPhrases | src/main/java/com/transparent/glossary/processor/GlossaryProcessor.java:113-128 | words are the non-phrases and phrases the phrases; together they are the input |
| Processor.SortEntries | src/main/java/com/transparent/glossary/processor/GlossaryProcessor.java:134-151 | fewer than two entries are left as they are; the sort fails exactly when some entry after the first has no usable collator, with that entry's failure, and otherwise returns a permutation |
| Processor.SortFailureNamesEntry | src/main/java/com/transparent/glossary/processor/GlossaryProcessor.java:147 | a failed sort names an entry after the first whose collator lookup fails with the sort's failure |
| Processor.SortEntriesSorted | src/main/java/com/transparent/glossary/processor/GlossaryProcessor.java:134-151 | under a total-preorder collator the sorted entries are in comparator order |
| Processor.SortEntriesStable | src/main/java/com/transparent/glossary/processor/GlossaryProcessor.java:134-151 | under a total-preorder collator the sort rearranges the entries and keeps entries the comparator ties in their input order |
| Processor.SortedEntriesUnchanged | src/main/java/com/transparent/glossary/processor/GlossaryProcessor.java:147 | entries of one language already in order come back unchanged |
| Processor.CollectUnsortedGlossaryData | src/main/java/com/transparent/glossary/processor/GlossaryProcessor.java:87-107 | a failing walk, final filter or phrase marking fails the collection with its failure; otherwise there is one entry per filtered entry, in place, equal to it except for the phrase flag (set exactly when a marker occurs in its "L1" field) and the sort fields; both axes' sort fields are stripped with their own language's stop words, and trimmed, unless the mode is NONE or skips the entry, in which case they are unchanged |
| Output.FirstCodePoint | src/main/java/com/transparent/glossary/io/GlossaryOutputWriter.java:457-461 | the key is the first code point of the primary sort field; an empty field fails |
| Output.AlignWithLetterGroups | src/main/java/com/transparent/glossary/io/GlossaryOutputWriter.java:333-351 | a key in no group stays; otherwise it becomes the first character of the first group that contains it |
| Output.GroupLeaderKeepsItsName | src/main/java/com/transparent/glossary/io/GlossaryOutputWriter.java:333-351 | a group's first character maps to itself when no earlier group contains it |
| Output.AlignWithAlphabet | src/main/java/com/transparent/glossary/io/GlossaryOutputWriter.java:411-434 | the catch-all exactly when the alphabet is non-empty and no letter contains the key; otherwise the key itself |
| Output.Route | src/main/java/com/transparent/glossary/io/GlossaryOutputWriter.java:446-470 | no profile fails; a Mandarin profile routes to the Mandarin bucket; otherwise an empty first code point fails with an empty sort key, and a letter is the upper-cased first code point aligned through the letter groups and then the alphabet; with a non-empty alphabet an ordinary letter is contained in one of its letters, and a key in no letter group is kept as it is |
| Output.LetterOrder | src/main/java/com/transparent/glossary/io/GlossaryOutputWriter.java:398-408 | ordinary letters come before catch-all ones; otherwise `compareTo` order of the labels |
| Output.LetterOrderIsPreorder | src/main/java/com/transparent/glossary/io/GlossaryOutputWriter.java:398-408 | the letter comparator keeps `Comparator`'s sign and transitivity contract |
| Output.SortLetters | src/main/java/com/transparent/glossary/io/GlossaryOutputWriter.java:488 | the letter sort never fails and returns a permutation in which no letter is ordered after a later one |
| Output.SortedLettersOrder | src/main/java/com/transparent/glossary/io/GlossaryOutputWriter.java:488 | after the sort, ordinary letters precede catch-all ones and each kind is in `compareTo` order |
| Output.AddEntry | src/main/java/com/transparent/glossary/io/GlossaryOutputWriter.java:473-481 | a known letter appends to its list; a new letter is appended and its label's list is replaced by the entry alone |
| Output.RouteAll | src/main/java/com/transparent/glossary/io/GlossaryOutputWriter.java:446-483 | every entry's route, in order, exactly when every entry routes |
| Output.Fill | src/main/java/com/transparent/glossary/io/GlossaryOutputWriter.java:446-483 | the collected letters are pairwise distinct |
| Output.FillHolds | src/main/java/com/transparent/glossary/io/GlossaryOutputWriter.java:473-481 | without label clashes, each letter's list holds exactly the entries routed to it |
| Output.BuildGlossaryMap | src/main/java/com/transparent/glossary/io/GlossaryOutputWriter.java:441-489 | succeeds exactly when every entry routes; the letters are the filled letters plus the Mandarin bucket, sorted |
| Output.BuildGlossaryMapOrder | src/main/java/com/transparent/glossary/io/GlossaryOutputWriter.java:488 | ordinary letters come before catch-all ones, each kind in label order |
| Output.UnsortedPartitions | src/main/java/com/transparent/glossary/io/GlossaryOutputWriter.java:441-487 | before the sort, clash-free routes put every entry into exactly the bucket of its letter |
| Output.ReorderedPartitions | src/main/java/com/transparent/glossary/io/GlossaryOutputWriter.java:488 | sorting the letters keeps that partition |
| Output.BucketsPartitionEntries | src/main/java/com/transparent/glossary/io/GlossaryOutputWriter.java:441-489 | with clash-free routes the map partitions the entries: distinct labels, each bucket exactly its routed entries, each entry's letter present |
| Output.RoutedToIncludes | src/main/java/com/transparent/glossary/io/GlossaryOutputWriter.java:473-481 | an entry is among the entries routed to its own route |
| Output.LabelClashLosesEntries | src/main/java/com/transparent/glossary/io/GlossaryOutputWriter.java:473-481 | a catch-all labelled like an ordinary letter yields two letters sharing one list, which holds only the later entry |
| Output.FillEntry | src/main/java/com/transparent/glossary/io/GlossaryOutputWriter.java:292-331 | the key is in the axis language and the translation in the other; each is present exactly when its field is; annotations come from include fields |
| Output.FillEntryKeepsFields | src/main/java/com/transparent/glossary/io/GlossaryOutputWriter.java:313-330 | a field that is neither key nor translation becomes an annotation exactly when its trimmed value is not empty |
| Output.FillLetter | src/main/java/com/transparent/glossary/io/GlossaryOutputWriter.java:258-285 | a letter carries the label and flag, and as many words and phrases as its list has entries |
| Output.FillLetterSplits | src/main/java/com/transparent/glossary/io/GlossaryOutputWriter.java:269-284 | the words are the non-phrases and the phrases the phrases, each in list order |
| Output.FilledEntryListed | src/main/java/com/transparent/glossary/io/GlossaryOutputWriter.java:269-284 | each list entry is written among the words or the phrases, as its flag says |
| Output.FillInGlossaryWithContent | src/main/java/com/transparent/glossary/io/GlossaryOutputWriter.java:248-287 | succeeds exactly when every entry routes; one letter per map letter, in order, with its name, flag and entry count |
| Output.EveryEntryWritten | src/main/java/com/transparent/glossary/io/GlossaryOutputWriter.java:248-287 | with clash-free routes every sorted entry is written under its own letter, as a word or a phrase as its flag says |
| Output.GlossaryLetterAt | src/main/java/com/transparent/glossary/io/GlossaryOutputWriter.java:258-286 | the letter at a position is the map's letter there, filled from its list |
| Output.WriteGlossary | src/main/java/com/transparent/glossary/io/GlossaryOutputWriter.java:116-142 | an empty input fails; a failure to fill fails the write; a written glossary has the first entry's axis code, the version and the filled letters; a glossary that is not English fails exactly when filling fails, and otherwise only the CSV dump can add a failure |
| Output.DumpGlossaryToCsv | src/main/java/com/transparent/glossary/io/GlossaryOutputWriter.java:144-151 | a glossary that is not "ENGLISH" in any case passes unchanged; the dump never changes the glossary and fails only with a null CSV field |
| Output.UnwritableEntryFailsDump | src/main/java/com/transparent/glossary/io/GlossaryOutputWriter.java:177-217 | one English word or phrase with a null key or translation text makes the dump fail |
| Output.WritableEntriesPassDump | src/main/java/com/transparent/glossary/io/GlossaryOutputWriter.java:153-217 | with every key and translation text present the dump does not fail |
| Output.EnglishEntryWithoutKeyFails | src/main/java/com/transparent/glossary/io/GlossaryOutputWriter.java:134-217 | an English glossary with an entry lacking the key or the translation include field fails in the CSV dump (routes clash-free) |
| Output.CompleteEntriesDumped | src/main/java/com/transparent/glossary/io/GlossaryOutputWriter.java:116-217 | when every entry has both include fields, the write succeeds exactly when filling succeeds |
| Output.DocumentEntryFromInput | src/main/java/com/transparent/glossary/io/GlossaryOutputWriter.java:248-331 | every word or phrase of the document is filled from an input entry |

## Left out

- File output: writing the XML document (JAXB marshalling), writing the CSV file and reading the version properties are I/O. The version is a parameter of `Output.WriteGlossary`. The CSV dump's failure on a null key or translation text is modelled (`Output.DumpGlossaryToCsv`); the content and order of the rows it writes are not. That failure is modelled assuming the CSV file can be created: Java opens the file first (GlossaryOutputWriter.java:158) and only logs an `IOException` (line 171), in which case no row is written and nothing fails.
- Output.WriteGlossary: the XML file is already written when the CSV dump fails, so the failure leaves a complete XML glossary behind. The model has no files and cannot say so.
- XML parsing (`XmlFileReader`) and XPath evaluation are library calls. They are modelled as the answers of a `Foreign.XPathView`, and a file that does not parse is `None`.
- Directory listing is a parameter. The folder tree is a value whose children are in `listFiles` order.
- Logging is left out: the status messages, the comparator's language-code warnings and the reader's debug output. The empty-phrase notices of the reader are kept as data (`Reader.EmptyPhraseNotices`) because they name cards.
- Regex matching against configured patterns, locale casing, stop-word `replaceAll`, NFD normalisation, collator construction from rules, and `Collator.compare` are library behaviour. They are function parameters in `Foreign.Env`.
- Hash-map iteration orders are replaced by fixed orders. These are the reader's include-map keys, the filter-to-reader map of a processor entry, the per-folder map of ALL entries, the merge filter's key order and the duplicate filter's `values()` order. The fixed orders are map order, list order, or first occurrence. Java makes no promise about these orders.
- The parameters map handed to `ISortObjectsFilter.process` is always null and unused by both filters, so it is not modelled.
- `annotationFields` of the output writer is never read by the code, and is not modelled.
- Java strings are modelled as sequences of code points, not UTF-16 code units. `codePointAt(0)` is therefore the first element, and `compareTo` is compared on code points. The two orders differ only for characters outside the Basic Multilingual Plane.
- The GUI, the command-line clients and the Spring configuration are outside the pipeline core.
- The processor entry's input readers are modelled as a list of filter and reader-configuration pairs. Java uses a `HashMap` keyed by the filter object, with identity semantics.
- Sorting.TimSort: models TimSort's procedure for lists shorter than `MinMerge` (32): the leading run, then binary insertion. It applies that procedure at every length. On 32 or more elements TimSort sorts runs of a computed minimum length and merges them with galloping, and it may throw `IllegalArgumentException` when it detects a comparator that breaks its contract. With a comparator that is a total preorder on the list, both procedures give the same order: the comparator order, with ties in input order (`Processor.SortEntriesSorted`, `Processor.SortEntriesStable`, `Sorting.TimSortStable`). With one that is not (empty sort fields, a collator that is not a preorder, failures that depend on which comparisons are made), the order, and whether the sort fails, can differ for lists of 32 or more entries.
- Output.BucketsPartitionEntries: conservation of entries is proved only for clash-free routes. `Output.LabelClashLosesEntries` shows what the code does otherwise.
- Output.BuildGlossaryMap: profile lists (alphabet, letter groups) are read as freshly parsed. This is what the getters answer while the caches are current (`Collation.CachingIsTransparent`). The same holds for the comparator's collator (`Comparator.CollatorOf`, where Java calls `getCollator(false)`) and the stop words (`Processor.StrippedText`, `getStopWords(false)`): both are built from the profile as it stands, not from a cache filled before a setter ran.
- FileFilters.PatternAccept: a configured pattern that is not a valid regular expression makes `Pattern.matches` throw `PatternSyntaxException` (PatternFileFilter.java:47). `Foreign.Env.fullMatch` is total, so the model does not have that failure.
- MergeFilter.Merge: the filter compiles its L1, L2 and common-part patterns before it looks at any entry (SortObjectsL1L2FileMergeFilter.java:138-140), so an invalid pattern throws `PatternSyntaxException` and an unset one `NullPointerException` even for an empty collection. `Foreign.Env.fullMatch` is total and the patterns are always present, so the model has neither failure and the merge of no entries succeeds with no entries.
- Processor.FlushAll: flushes the ALL entries in entry order. The source iterates the key set of a `HashMap` keyed by the entry objects (GlossaryProcessor.java:219), whose order depends on identity hash codes and is not specified; the model fixes entry order, so the place of each ALL entry's output within one folder's flush is a modelling choice.
- Processor.RemoveStopWords: a stop word that is not a valid regular expression makes `replaceAll` throw `PatternSyntaxException` (GlossaryProcessor.java:334-335). `Foreign.Env.removeRegex` is total, so the model does not have that failure.
- FileFilters.ParseInt: accepts ASCII digits only. Java's `Integer.parseInt` also accepts the decimal digits of other scripts (`Character.digit`), such as Arabic-Indic or full-width digits, so the model rejects expected-result strings that Java would accept.
- Comparator.Compare: a null language code or a missing profile is a failure; the code's own `assert` statements are disabled at run time, and the null dereference they guard is modelled as that failure.
- Entries are assumed to be distinct objects. Java mutates shared `SortObject`s in place, so an entry listed twice would be changed twice. The immutable model changes each listed copy once.
- Extraction.PartOfSpeech: the internal strategy's `XPathExpressionException` gives "unclassified"; a null query, which would throw a `NullPointerException` before evaluation, is modelled as a failure.
